/** The parser for configuration descriptors (descriptor.c: usbi_parse_descriptor, parse_endpoint,
parse_interface, parse_configuration), whose input follows sections 9.6.3, 9.6.5 and 9.6.6 of the
Universal Serial Bus Specification, Revision 2.0.

Memory is a total function from addresses to bytes, so that reads past the input have a value; what they
mean for the outcome is the matter of DescriptorInput. A configuration's words are in bus order
(host_endian == 0); allocation succeeds. The functions have no result for input on which the parser would
loop: there is none, for an alternate setting of length 0 is refused as the descriptor that follows itself
(ParseAlt).
*/
module Descriptors {
  import opened Bytes

  type Memory = nat -> byte

  const DT_DEVICE: byte := 1
  const DT_CONFIG: byte := 2
  const DT_INTERFACE: byte := 4
  const DT_ENDPOINT: byte := 5
  const DESC_HEADER_LENGTH := 2
  const INTERFACE_DESC_LENGTH := 9
  const ENDPOINT_DESC_LENGTH := 7
  const ENDPOINT_AUDIO_DESC_LENGTH := 9
  const USB_MAXENDPOINTS := 32
  const USB_MAXINTERFACES := 32

  datatype Endpoint = Endpoint(
    bLength: byte, bDescriptorType: byte, bEndpointAddress: byte, bmAttributes: byte, wMaxPacketSize: nat,
    bInterval: byte, bRefresh: byte, bSynchAddress: byte, extra: seq<byte>)

  datatype Interface = Interface(
    bLength: byte, bDescriptorType: byte, bInterfaceNumber: byte, bAlternateSetting: byte, bNumEndpoints: byte,
    bInterfaceClass: byte, bInterfaceSubClass: byte, bInterfaceProtocol: byte, iInterface: byte,
    extra: seq<byte>, endpoints: seq<Endpoint>)

  datatype Config = Config(
    bLength: byte, bDescriptorType: byte, wTotalLength: nat, bNumInterfaces: byte, bConfigurationValue: byte,
    iConfiguration: byte, bmAttributes: byte, maxPower: byte, extra: seq<byte>, interfaces: seq<seq<Interface>>)

  /** What was parsed, where the parser is, and how much is left (`size` may fall below zero). */
  datatype Parsed<T> = Parsed(value: T, pos: nat, size: int) | Failed

  const NO_ENDPOINT := Endpoint(0, 0, 0, 0, 0, 0, 0, 0, [])

  // ---------------------------------------------------------------- fields

  /** A word in bus order. */
  function Word(mem: Memory, pos: nat): nat {
    mem(pos + 1) * 0x100 + mem(pos)
  }

  /** A word in bus order, or in that of a big-endian host. */
  function WordIn(mem: Memory, pos: nat, big: bool): nat {
    if big then mem(pos) * 0x100 + mem(pos + 1) else Word(mem, pos)
  }

  /** The values of the fields that a format describes. */
  function FieldsIn(mem: Memory, pos: nat, format: string, big: bool): seq<nat>
    decreases |format|
  {
    if format == [] then []
    else if format[0] == 'b' then [mem(pos)] + FieldsIn(mem, pos + 1, format[1..], big)
    else if format[0] == 'w' then [WordIn(mem, pos, big)] + FieldsIn(mem, pos + 2, format[1..], big)
    else FieldsIn(mem, pos, format[1..], big)
  }

  function Fields(mem: Memory, pos: nat, format: string): seq<nat> {
    FieldsIn(mem, pos, format, false)
  }

  function Width(format: string): nat {
    if format == [] then 0
    else (if format[0] == 'b' then 1 else if format[0] == 'w' then 2 else 0) + Width(format[1..])
  }

  lemma Regroup(a: seq<nat>, x: nat, b: seq<nat>)
    ensures a + ([x] + b) == a + [x] + b
  {
  }

  /** usbi_parse_descriptor. With `hostEndian`, words are in the order of the host, which `bigEndian` gives. */
  method ParseDescriptor(mem: Memory, source: nat, format: string, hostEndian: bool, bigEndian: bool)
    returns (dest: seq<nat>, consumed: nat)
    ensures dest == FieldsIn(mem, source, format, hostEndian && bigEndian) && consumed == Width(format)
  {
    dest := [];
    var sp := source;
    ghost var big := hostEndian && bigEndian;
    assert format[0..] == format;
    for cp := 0 to |format|
      invariant sp >= source && (sp - source) + Width(format[cp..]) == Width(format)
      invariant dest + FieldsIn(mem, sp, format[cp..], big) == FieldsIn(mem, source, format, big)
    {
      assert format[cp..][1..] == format[cp + 1..];
      if format[cp] == 'b' {
        Regroup(dest, mem(sp), FieldsIn(mem, sp + 1, format[cp + 1..], big));
        dest := dest + [mem(sp)];
        sp := sp + 1;
      } else if format[cp] == 'w' {
        Regroup(dest, WordIn(mem, sp, big), FieldsIn(mem, sp + 2, format[cp + 1..], big));
        if hostEndian && bigEndian {
          dest := dest + [mem(sp) * 0x100 + mem(sp + 1)];
        } else {
          dest := dest + [mem(sp + 1) * 0x100 + mem(sp)];
        }
        sp := sp + 2;
      }
    }
    consumed := sp - source;
  }

  function EndpointAt(mem: Memory, p: nat, extra: seq<byte>): Endpoint {
    if mem(p) >= ENDPOINT_AUDIO_DESC_LENGTH then
      Endpoint(mem(p), mem(p + 1), mem(p + 2), mem(p + 3), Word(mem, p + 4), mem(p + 6), mem(p + 7), mem(p + 8), extra)
    else if mem(p) >= ENDPOINT_DESC_LENGTH then
      Endpoint(mem(p), mem(p + 1), mem(p + 2), mem(p + 3), Word(mem, p + 4), mem(p + 6), 0, 0, extra)
    else NO_ENDPOINT.(extra := extra)
  }

  function InterfaceAt(mem: Memory, p: nat, extra: seq<byte>, endpoints: seq<Endpoint>): Interface {
    Interface(mem(p), mem(p + 1), mem(p + 2), mem(p + 3), mem(p + 4), mem(p + 5), mem(p + 6), mem(p + 7), mem(p + 8),
              extra, endpoints)
  }

  function ConfigAt(mem: Memory, p: nat, extra: seq<byte>, interfaces: seq<seq<Interface>>): Config {
    Config(mem(p), mem(p + 1), Word(mem, p + 2), mem(p + 4), mem(p + 5), mem(p + 6), mem(p + 7), mem(p + 8),
           extra, interfaces)
  }

  // ---------------------------------------------------------------- the parser as functions

  predicate Proper(descriptorType: byte) {
    || descriptorType == DT_ENDPOINT || descriptorType == DT_INTERFACE
    || descriptorType == DT_CONFIG || descriptorType == DT_DEVICE
  }

  function Slice(mem: Memory, from: nat, end: nat): (s: seq<byte>)
    requires from <= end
    ensures |s| == end - from
    decreases end - from
  {
    if from == end then [] else [mem(from)] + Slice(mem, from + 1, end)
  }

  /** Skip class and vendor specific descriptors; only a configuration checks that they fit. */
  function Skip(mem: Memory, pos: nat, size: int, checked: bool): (r: Parsed<()>)
    ensures r.Parsed? ==> r.pos >= pos && r.pos - pos == size - r.size
    decreases size
  {
    if size < DESC_HEADER_LENGTH then Parsed((), pos, size)
    else if mem(pos) < 2 || (checked && mem(pos) > size) then Failed
    else if Proper(mem(pos + 1)) then Parsed((), pos, size)
    else Skip(mem, pos + mem(pos), size - mem(pos), checked)
  }

  function ParseEndpoint(mem: Memory, pos: nat, size: int): (r: Parsed<Endpoint>)
    ensures r.Parsed? ==> r.pos >= pos && r.pos - pos == size - r.size
  {
    var len := mem(pos);
    if len > size then Failed
    else if mem(pos + 1) != DT_ENDPOINT then Parsed(NO_ENDPOINT, pos, size)
    else
      match Skip(mem, pos + len, size - len, false)
      case Parsed(_, p, s) => Parsed(EndpointAt(mem, pos, Slice(mem, pos + len, p)), p, s)
      case Failed => Failed
  }

  function ParseEndpoints(mem: Memory, pos: nat, size: int, n: nat): (r: Parsed<seq<Endpoint>>)
    ensures r.Parsed? ==> r.pos >= pos && r.pos - pos == size - r.size && |r.value| == n
    decreases n
  {
    if n == 0 then Parsed([], pos, size)
    else
      match ParseEndpoint(mem, pos, size)
      case Parsed(e, p, s) =>
        (match ParseEndpoints(mem, p, s, n - 1)
         case Parsed(es, p', s') => Parsed([e] + es, p', s')
         case Failed => Failed)
      case Failed => Failed
  }

  /** No further alternate setting of the same interface follows. */
  predicate IsLast(mem: Memory, pos: nat, size: int) {
    size < INTERFACE_DESC_LENGTH || mem(pos + 1) != DT_INTERFACE || mem(pos + 3) == 0
  }

  /** An alternate setting once its extras have been skipped: `p` and `t` are where the parser is then. */
  function AltFrom(mem: Memory, pos: nat, begin: nat, p: nat, t: int): (r: Parsed<(Interface, bool)>)
    requires begin <= p
    ensures r.Parsed? ==> r.pos >= p && r.pos - p == t - r.size
  {
    var extra := Slice(mem, begin, p);
    if t >= DESC_HEADER_LENGTH && (mem(p + 1) == DT_CONFIG || mem(p + 1) == DT_DEVICE)
    then Parsed((InterfaceAt(mem, pos, extra, []), true), p, t)
    else if mem(pos + 4) > USB_MAXENDPOINTS then Failed
    else
      match ParseEndpoints(mem, p, t, mem(pos + 4))
      case Parsed(es, p', t') => Parsed((InterfaceAt(mem, pos, extra, es), IsLast(mem, p', t')), p', t')
      case Failed => Failed
  }

  /** One alternate setting, and whether it is the last one of its interface. It takes at least a byte. */
  function ParseAlt(mem: Memory, pos: nat, size: int): (r: Parsed<(Interface, bool)>)
    ensures r.Parsed? ==> r.pos >= pos && r.pos - pos == size - r.size
    ensures r.Parsed? && size >= DESC_HEADER_LENGTH ==> r.pos > pos
  {
    match Skip(mem, pos + mem(pos), size - mem(pos), false)
    case Parsed(_, p, t) => AltFrom(mem, pos, pos + mem(pos), p, t)
    case Failed => Failed
  }

  lemma AltIs(mem: Memory, pos: nat, size: int, begin: nat, left: int, p: nat, t: int)
    requires begin == pos + mem(pos) && left == size - mem(pos) && SkipsTo(mem, begin, left, p, t)
    ensures ParseAlt(mem, pos, size) == AltFrom(mem, pos, begin, p, t)
  {
  }

  lemma AltFails(mem: Memory, pos: nat, size: int, begin: nat, left: int)
    requires begin == pos + mem(pos) && left == size - mem(pos) && Skip(mem, begin, left, false).Failed?
    ensures ParseAlt(mem, pos, size) == Failed
  {
  }

  predicate SkipsTo(mem: Memory, pos: nat, size: int, p: nat, t: int) {
    var r := Skip(mem, pos, size, false);
    r.Parsed? && r.pos == p && r.size == t
  }

  /** All alternate settings. */
  function ParseInterface(mem: Memory, pos: nat, size: int): (r: Parsed<seq<Interface>>)
    ensures r.Parsed? ==> r.pos >= pos && r.pos - pos == size - r.size
    decreases size
  {
    if size < INTERFACE_DESC_LENGTH then Parsed([], pos, size)
    else
      match ParseAlt(mem, pos, size)
      case Parsed((alt, last), p, s) =>
        if last then Parsed([alt], p, s)
        else
          (match ParseInterface(mem, p, s)
           case Parsed(alts, p', s') => Parsed([alt] + alts, p', s')
           case Failed => Failed)
      case Failed => Failed
  }

  /** `n` interfaces. Of the skipped descriptors before them, the first ones not empty are kept. */
  function ParseInterfaces(mem: Memory, pos: nat, size: int, n: nat, extra: seq<byte>)
    : (r: Parsed<(seq<seq<Interface>>, seq<byte>)>)
    ensures r.Parsed? ==> r.pos >= pos && r.pos - pos == size - r.size && |r.value.0| == n
    decreases n
  {
    if n == 0 then Parsed(([], extra), pos, size)
    else
      match Skip(mem, pos, size, true)
      case Parsed(_, p, s) =>
        var extra' := if extra == [] then Slice(mem, pos, p) else extra;
        (match ParseInterface(mem, p, s)
         case Parsed(alts, p', s') =>
           (match ParseInterfaces(mem, p', s', n - 1, extra')
            case Parsed((rest, extra''), p'', s'') => Parsed(([alts] + rest, extra''), p'', s'')
            case Failed => Failed)
         case Failed => Failed)
      case Failed => Failed
  }

  /** The configuration with these interfaces and extras. */
  function ConfigFrom(mem: Memory, pos: nat, r: Parsed<(seq<seq<Interface>>, seq<byte>)>): Parsed<Config> {
    match r
    case Parsed((interfaces, extra), p, s) => Parsed(ConfigAt(mem, pos, extra, interfaces), p, s)
    case Failed => Failed
  }

  function ParseConfiguration(mem: Memory, pos: nat): Parsed<Config> {
    if mem(pos + 4) > USB_MAXINTERFACES then Failed
    else ConfigFrom(mem, pos, ParseInterfaces(mem, pos + mem(pos), Word(mem, pos + 2) - mem(pos), mem(pos + 4), []))
  }

  // ---------------------------------------------------------------- serialisation

  function Bytes2(w: nat): (b: seq<byte>)
    requires w < 0x1_0000
    ensures |b| == 2
  {
    [w % 0x100, w / 0x100]
  }

  predicate ExtraWellFormed(extra: seq<byte>)
    decreases |extra|
  {
    extra != [] ==>
      |extra| >= 2 && 2 <= extra[0] <= |extra| && !Proper(extra[1]) && ExtraWellFormed(extra[extra[0]..])
  }

  predicate EndpointWellFormed(e: Endpoint) {
    && e.bDescriptorType == DT_ENDPOINT && e.wMaxPacketSize < 0x1_0000 && ExtraWellFormed(e.extra)
    && (e.bLength == ENDPOINT_AUDIO_DESC_LENGTH
        || (e.bLength == ENDPOINT_DESC_LENGTH && e.bRefresh == e.bSynchAddress == 0))
  }

  predicate AllEndpointsWellFormed(es: seq<Endpoint>) {
    forall k | 0 <= k < |es| :: EndpointWellFormed(es[k])
  }

  predicate AltWellFormed(i: Interface) {
    && i.bLength == INTERFACE_DESC_LENGTH && i.bDescriptorType == DT_INTERFACE && ExtraWellFormed(i.extra)
    && i.bNumEndpoints == |i.endpoints| && |i.endpoints| <= USB_MAXENDPOINTS
    && AllEndpointsWellFormed(i.endpoints)
  }

  predicate AllAltsWellFormed(alts: seq<Interface>) {
    forall k | 0 <= k < |alts| :: AltWellFormed(alts[k])
  }

  /** Alternate setting 0 comes first, and only first. */
  predicate InterfaceWellFormed(alts: seq<Interface>) {
    && alts != [] && AllAltsWellFormed(alts)
    && forall k | 0 <= k < |alts| :: alts[k].bAlternateSetting == 0 <==> k == 0
  }

  predicate AllInterfacesWellFormed(interfaces: seq<seq<Interface>>) {
    forall k | 0 <= k < |interfaces| :: InterfaceWellFormed(interfaces[k])
  }

  predicate ConfigWellFormed(c: Config) {
    && c.bLength == 9 && c.bDescriptorType == DT_CONFIG && ExtraWellFormed(c.extra)
    && c.bNumInterfaces == |c.interfaces| && |c.interfaces| <= USB_MAXINTERFACES
    && AllInterfacesWellFormed(c.interfaces)
    && c.wTotalLength < 0x1_0000 && c.wTotalLength == 9 + |c.extra| + |InterfacesBytes(c.interfaces)|
  }

  function EndpointHeader(e: Endpoint): (b: seq<byte>)
    requires EndpointWellFormed(e)
    ensures |b| == e.bLength
  {
    [e.bLength, e.bDescriptorType, e.bEndpointAddress, e.bmAttributes] + Bytes2(e.wMaxPacketSize) + [e.bInterval]
    + (if e.bLength == ENDPOINT_AUDIO_DESC_LENGTH then [e.bRefresh, e.bSynchAddress] else [])
  }

  function EndpointBytes(e: Endpoint): seq<byte>
    requires EndpointWellFormed(e)
  {
    EndpointHeader(e) + e.extra
  }

  function EndpointsBytes(es: seq<Endpoint>): seq<byte>
    requires AllEndpointsWellFormed(es)
  {
    if es == [] then [] else EndpointBytes(es[0]) + EndpointsBytes(es[1..])
  }

  function AltHeader(i: Interface): (b: seq<byte>)
    ensures |b| == 9
  {
    [i.bLength, i.bDescriptorType, i.bInterfaceNumber, i.bAlternateSetting, i.bNumEndpoints,
     i.bInterfaceClass, i.bInterfaceSubClass, i.bInterfaceProtocol, i.iInterface]
  }

  function AltBytes(i: Interface): seq<byte>
    requires AltWellFormed(i)
  {
    AltHeader(i) + (i.extra + EndpointsBytes(i.endpoints))
  }

  function AltsBytes(alts: seq<Interface>): seq<byte>
    requires AllAltsWellFormed(alts)
  {
    if alts == [] then [] else AltBytes(alts[0]) + AltsBytes(alts[1..])
  }

  function InterfacesBytes(interfaces: seq<seq<Interface>>): seq<byte>
    requires AllInterfacesWellFormed(interfaces)
  {
    if interfaces == [] then [] else
      assert InterfaceWellFormed(interfaces[0]);
      AltsBytes(interfaces[0]) + InterfacesBytes(interfaces[1..])
  }

  function ConfigHeader(c: Config): (b: seq<byte>)
    requires c.wTotalLength < 0x1_0000
    ensures |b| == 9
  {
    [c.bLength, c.bDescriptorType] + Bytes2(c.wTotalLength)
    + [c.bNumInterfaces, c.bConfigurationValue, c.iConfiguration, c.bmAttributes, c.maxPower]
  }

  function ConfigBytes(c: Config): seq<byte>
    requires ConfigWellFormed(c)
  {
    ConfigHeader(c) + (c.extra + InterfacesBytes(c.interfaces))
  }

  // ---------------------------------------------------------------- round trip

  ghost predicate At(mem: Memory, pos: nat, bytes: seq<byte>) {
    Slice(mem, pos, pos + |bytes|) == bytes
  }

  lemma {:induction false} SliceIndex(mem: Memory, from: nat, end: nat, k: nat)
    requires from + k < end
    ensures Slice(mem, from, end)[k] == mem(from + k)
    decreases k
  {
    if k > 0 { SliceIndex(mem, from + 1, end, k - 1); }
  }

  lemma AtIndex(mem: Memory, pos: nat, bytes: seq<byte>, k: nat)
    requires At(mem, pos, bytes) && k < |bytes|
    ensures mem(pos + k) == bytes[k]
  {
    SliceIndex(mem, pos, pos + |bytes|, k);
  }

  lemma {:induction false} SliceJoin(mem: Memory, i: nat, j: nat, k: nat)
    requires i <= j <= k
    ensures Slice(mem, i, k) == Slice(mem, i, j) + Slice(mem, j, k)
    decreases j - i
  {
    if i < j { SliceJoin(mem, i + 1, j, k); }
  }

  lemma AtParts(mem: Memory, pos: nat, a: seq<byte>, b: seq<byte>)
    requires At(mem, pos, a + b)
    ensures At(mem, pos, a) && At(mem, pos + |a|, b)
  {
    var whole := Slice(mem, pos, pos + |a + b|);
    SliceJoin(mem, pos, pos + |a|, pos + |a + b|);
    assert Slice(mem, pos, pos + |a|) == whole[..|a|] && Slice(mem, pos + |a|, pos + |a + b|) == whole[|a|..];
    assert (a + b)[..|a|] == a && (a + b)[|a|..] == b;
  }

  lemma AtBoth(mem: Memory, pos: nat, whole: seq<byte>, a: seq<byte>, b: seq<byte>, p: nat)
    requires whole == a + b && At(mem, pos, whole) && p == pos + |a|
    ensures At(mem, pos, a) && At(mem, p, b)
  {
    AtParts(mem, pos, a, b);
  }

  /** The input ends here, or a standard descriptor begins. */
  predicate Stops(mem: Memory, pos: nat, size: int) {
    size == 0 || (size >= 2 && 2 <= mem(pos) <= size && Proper(mem(pos + 1)))
  }

  lemma {:induction false} SkipExtra(mem: Memory, pos: nat, size: int, extra: seq<byte>, checked: bool, p: nat, r: int)
    requires ExtraWellFormed(extra) && At(mem, pos, extra)
    requires p == pos + |extra| && r == size - |extra| && r >= 0 && Stops(mem, p, r)
    ensures Skip(mem, pos, size, checked) == Parsed((), p, r)
    decreases |extra|
  {
    if extra != [] {
      var n := extra[0];
      AtIndex(mem, pos, extra, 0);
      AtIndex(mem, pos, extra, 1);
      assert extra == extra[..n] + extra[n..];
      AtParts(mem, pos, extra[..n], extra[n..]);
      SkipExtra(mem, pos + n, size - n, extra[n..], checked, p, r);
    }
  }

  /** In these lemmas `p` and `r` are where the bytes end and what is left then. */
  lemma EndpointRoundTrip(mem: Memory, pos: nat, size: int, e: Endpoint, p: nat, r: int)
    requires EndpointWellFormed(e) && At(mem, pos, EndpointBytes(e))
    requires p == pos + |EndpointBytes(e)| && r == size - |EndpointBytes(e)| && r >= 0 && Stops(mem, p, r)
    ensures ParseEndpoint(mem, pos, size) == Parsed(e, p, r)
    ensures Stops(mem, pos, size)
  {
    var n := e.bLength;
    EndpointParts(mem, pos, e);
    SkipExtra(mem, pos + n, size - n, e.extra, false, p, r);
  }

  lemma FirstSeven(mem: Memory, pos: nat, b: seq<byte>)
    requires At(mem, pos, b) && |b| >= 7
    ensures mem(pos) == b[0] && mem(pos + 1) == b[1] && mem(pos + 2) == b[2] && mem(pos + 3) == b[3]
    ensures mem(pos + 4) == b[4] && mem(pos + 5) == b[5] && mem(pos + 6) == b[6]
  {
    AtIndex(mem, pos, b, 0);
    AtIndex(mem, pos, b, 1);
    AtIndex(mem, pos, b, 2);
    AtIndex(mem, pos, b, 3);
    AtIndex(mem, pos, b, 4);
    AtIndex(mem, pos, b, 5);
    AtIndex(mem, pos, b, 6);
  }

  lemma FirstNine(mem: Memory, pos: nat, b: seq<byte>)
    requires At(mem, pos, b) && |b| == 9
    ensures mem(pos) == b[0] && mem(pos + 1) == b[1] && mem(pos + 2) == b[2] && mem(pos + 3) == b[3]
    ensures mem(pos + 4) == b[4] && mem(pos + 5) == b[5] && mem(pos + 6) == b[6] && mem(pos + 7) == b[7]
    ensures mem(pos + 8) == b[8]
  {
    FirstSeven(mem, pos, b);
    AtIndex(mem, pos, b, 7);
    AtIndex(mem, pos, b, 8);
  }

  lemma EndpointParts(mem: Memory, pos: nat, e: Endpoint)
    requires EndpointWellFormed(e) && At(mem, pos, EndpointBytes(e))
    ensures |EndpointBytes(e)| == e.bLength + |e.extra| && At(mem, pos + e.bLength, e.extra)
    ensures mem(pos) == e.bLength && mem(pos + 1) == DT_ENDPOINT && EndpointAt(mem, pos, e.extra) == e
  {
    var b := EndpointHeader(e);
    assert EndpointBytes(e) == b + e.extra;
    AtParts(mem, pos, b, e.extra);
    FirstSeven(mem, pos, b);
    if e.bLength == ENDPOINT_AUDIO_DESC_LENGTH { FirstNine(mem, pos, b); }
  }

  lemma EndpointsStep(mem: Memory, pos: nat, size: int, n: nat, e: Endpoint, p: nat, r: int, es: seq<Endpoint>,
                      p': nat, r': int)
    requires n > 0 && ParseEndpoint(mem, pos, size) == Parsed(e, p, r)
      && ParseEndpoints(mem, p, r, n - 1) == Parsed(es, p', r')
    ensures ParseEndpoints(mem, pos, size, n) == Parsed([e] + es, p', r')
  {
  }

  lemma EndpointsParts(mem: Memory, pos: nat, es: seq<Endpoint>, e: Endpoint, rest: seq<Endpoint>)
    requires AllEndpointsWellFormed(es) && At(mem, pos, EndpointsBytes(es)) && es != [] && e == es[0] && rest == es[1..]
    ensures EndpointWellFormed(e) && AllEndpointsWellFormed(rest)
    ensures |EndpointsBytes(es)| == |EndpointBytes(e)| + |EndpointsBytes(rest)|
    ensures At(mem, pos, EndpointBytes(e)) && At(mem, pos + |EndpointBytes(e)|, EndpointsBytes(rest))
  {
    AtParts(mem, pos, EndpointBytes(e), EndpointsBytes(rest));
  }

  lemma {:induction false} EndpointsRoundTrip(mem: Memory, pos: nat, size: int, n: nat, es: seq<Endpoint>, p: nat,
                                              r: int)
    requires AllEndpointsWellFormed(es) && At(mem, pos, EndpointsBytes(es)) && n == |es|
    requires p == pos + |EndpointsBytes(es)| && r == size - |EndpointsBytes(es)| && r >= 0 && Stops(mem, p, r)
    ensures ParseEndpoints(mem, pos, size, n) == Parsed(es, p, r)
    ensures Stops(mem, pos, size)
    decreases n
  {
    if n > 0 {
      var e, rest := es[0], es[1..];
      EndpointsParts(mem, pos, es, e, rest);
      var p1, r1 := pos + |EndpointBytes(e)|, size - |EndpointBytes(e)|;
      EndpointsRoundTrip(mem, p1, r1, n - 1, rest, p, r);
      EndpointRoundTrip(mem, pos, size, e, p1, r1);
      EndpointsStep(mem, pos, size, n, e, p1, r1, rest, p, r);
      assert [e] + rest == es;
    }
  }

  lemma AltParts(mem: Memory, pos: nat, i: Interface)
    requires AltWellFormed(i) && At(mem, pos, AltBytes(i))
    ensures |AltBytes(i)| == 9 + |i.extra| + |EndpointsBytes(i.endpoints)|
    ensures At(mem, pos + 9, i.extra) && At(mem, pos + 9 + |i.extra|, EndpointsBytes(i.endpoints))
    ensures mem(pos) == 9 && mem(pos + 1) == DT_INTERFACE && InterfaceAt(mem, pos, i.extra, i.endpoints) == i
  {
    var b := AltHeader(i);
    AtParts(mem, pos, b, i.extra + EndpointsBytes(i.endpoints));
    AtParts(mem, pos + 9, i.extra, EndpointsBytes(i.endpoints));
    FirstNine(mem, pos, b);
  }

  /** What comes after an alternate setting: another one, or the end of all. */
  predicate AltFollows(mem: Memory, pos: nat, size: int) {
    size == 0 || (size >= 9 && mem(pos) == 9 && mem(pos + 1) == DT_INTERFACE)
  }

  lemma AltStep(mem: Memory, pos: nat, size: int, i: Interface, q: nat, t: int, p: nat, r: int)
    requires mem(pos) == 9 && InterfaceAt(mem, pos, i.extra, i.endpoints) == i && |i.endpoints| <= USB_MAXENDPOINTS
    requires i.bNumEndpoints == |i.endpoints| && q == pos + 9 + |i.extra| && At(mem, pos + 9, i.extra)
    requires Skip(mem, pos + 9, size - 9, false) == Parsed((), q, t)
      && ParseEndpoints(mem, q, t, |i.endpoints|) == Parsed(i.endpoints, p, r)
    requires t >= 2 ==> mem(q + 1) == DT_ENDPOINT || mem(q + 1) == DT_INTERFACE
    ensures ParseAlt(mem, pos, size) == Parsed((i, IsLast(mem, p, r)), p, r)
  {
  }

  lemma AltRoundTrip(mem: Memory, pos: nat, size: int, i: Interface, p: nat, r: int)
    requires AltWellFormed(i) && At(mem, pos, AltBytes(i))
    requires p == pos + |AltBytes(i)| && r == size - |AltBytes(i)| && r >= 0 && AltFollows(mem, p, r)
    ensures ParseAlt(mem, pos, size) == Parsed((i, IsLast(mem, p, r)), p, r)
    ensures AltFollows(mem, pos, size) && mem(pos + 3) == i.bAlternateSetting
  {
    var q, t := pos + 9 + |i.extra|, size - 9 - |i.extra|;
    AltParts(mem, pos, i);
    AltEndpoints(mem, i, q, t, p, r);
    AltExtra(mem, pos, size, i, q, t);
    AltStep(mem, pos, size, i, q, t, p, r);
  }

  lemma AltEndpoints(mem: Memory, i: Interface, q: nat, t: int, p: nat, r: int)
    requires AllEndpointsWellFormed(i.endpoints) && At(mem, q, EndpointsBytes(i.endpoints))
    requires p == q + |EndpointsBytes(i.endpoints)| && r == t - |EndpointsBytes(i.endpoints)| && r >= 0
      && AltFollows(mem, p, r)
    ensures ParseEndpoints(mem, q, t, |i.endpoints|) == Parsed(i.endpoints, p, r) && Stops(mem, q, t)
    ensures t >= 2 ==> mem(q + 1) == DT_ENDPOINT || mem(q + 1) == DT_INTERFACE
  {
    EndpointsRoundTrip(mem, q, t, |i.endpoints|, i.endpoints, p, r);
    if i.endpoints != [] {
      EndpointFirst(mem, q, i.endpoints);
    } else {
      assert q == p && t == r;
    }
  }

  lemma AltExtra(mem: Memory, pos: nat, size: int, i: Interface, q: nat, t: int)
    requires ExtraWellFormed(i.extra) && At(mem, pos + 9, i.extra) && Stops(mem, q, t)
    requires q == pos + 9 + |i.extra| && t == size - 9 - |i.extra| && t >= 0
    ensures Skip(mem, pos + 9, size - 9, false) == Parsed((), q, t)
  {
    SkipExtra(mem, pos + 9, size - 9, i.extra, false, q, t);
  }

  lemma EndpointFirst(mem: Memory, pos: nat, es: seq<Endpoint>)
    requires AllEndpointsWellFormed(es) && es != [] && At(mem, pos, EndpointsBytes(es))
    ensures mem(pos + 1) == DT_ENDPOINT
  {
    AtParts(mem, pos, EndpointBytes(es[0]), EndpointsBytes(es[1..]));
    EndpointParts(mem, pos, es[0]);
  }

  /** After the last alternate setting: the first one of another interface, or the end of all. */
  predicate InterfaceFollows(mem: Memory, pos: nat, size: int) {
    AltFollows(mem, pos, size) && (size > 0 ==> mem(pos + 3) == 0)
  }

  lemma LastAlt(mem: Memory, pos: nat, size: int, alt: Interface, p: nat, r: int)
    requires AltWellFormed(alt) && At(mem, pos, AltBytes(alt))
    requires p == pos + |AltBytes(alt)| && r == size - |AltBytes(alt)| && r >= 0 && InterfaceFollows(mem, p, r)
    ensures ParseInterface(mem, pos, size) == Parsed([alt], p, r)
    ensures AltFollows(mem, pos, size) && mem(pos + 3) == alt.bAlternateSetting
  {
    AltRoundTrip(mem, pos, size, alt, p, r);
    AltParts(mem, pos, alt);
  }

  lemma MoreAlts(mem: Memory, pos: nat, size: int, alt: Interface, p: nat, r: int, rest: seq<Interface>, p': nat,
                 r': int)
    requires AltWellFormed(alt) && At(mem, pos, AltBytes(alt))
    requires p == pos + |AltBytes(alt)| && r == size - |AltBytes(alt)| && r > 0 && AltFollows(mem, p, r)
      && mem(p + 3) != 0
    requires ParseInterface(mem, p, r) == Parsed(rest, p', r')
    ensures ParseInterface(mem, pos, size) == Parsed([alt] + rest, p', r')
    ensures AltFollows(mem, pos, size) && mem(pos + 3) == alt.bAlternateSetting
  {
    AltRoundTrip(mem, pos, size, alt, p, r);
    AltParts(mem, pos, alt);
  }

  lemma {:induction false} InterfaceRoundTrip(mem: Memory, pos: nat, size: int, alts: seq<Interface>, p: nat, r: int)
    requires alts != [] && AllAltsWellFormed(alts) && forall k | 1 <= k < |alts| :: alts[k].bAlternateSetting != 0
    requires At(mem, pos, AltsBytes(alts))
    requires p == pos + |AltsBytes(alts)| && r == size - |AltsBytes(alts)| && r >= 0 && InterfaceFollows(mem, p, r)
    ensures ParseInterface(mem, pos, size) == Parsed(alts, p, r)
    ensures size > 0 && AltFollows(mem, pos, size) && mem(pos + 3) == alts[0].bAlternateSetting
    decreases |alts|
  {
    var alt, rest := alts[0], alts[1..];
    AltsCons(alts, alt, rest);
    var a, b := AltBytes(alt), AltsBytes(rest);
    var p1, r1 := pos + |a|, size - |a|;
    AtBoth(mem, pos, AltsBytes(alts), a, b, p1);
    assert p == p1 + |b| && r == r1 - |b|;
    if rest == [] {
      assert p1 == p && r1 == r;
      LastAlt(mem, pos, size, alt, p, r);
    } else {
      InterfaceRoundTrip(mem, p1, r1, rest, p, r);
      MoreAlts(mem, pos, size, alt, p1, r1, rest, p, r);
    }
  }

  lemma AltsCons(alts: seq<Interface>, alt: Interface, rest: seq<Interface>)
    requires AllAltsWellFormed(alts) && alts != [] && alt == alts[0] && rest == alts[1..]
    ensures AltWellFormed(alt) && AllAltsWellFormed(rest) && [alt] + rest == alts && (rest == [] ==> alts == [alt])
    ensures AltsBytes(alts) == AltBytes(alt) + AltsBytes(rest) && (rest == [] ==> AltsBytes(rest) == [])
  {
  }

  lemma InterfacesStep(mem: Memory, pos: nat, size: int, n: nat, before: seq<byte>, q: nat, t: int, extra: seq<byte>,
                       alts: seq<Interface>, p: nat, r: int, rest: seq<seq<Interface>>, p': nat, r': int)
    requires n > 0 && Skip(mem, pos, size, true) == Parsed((), q, t)
    requires extra == if before == [] then Slice(mem, pos, q) else before
    requires ParseInterface(mem, q, t) == Parsed(alts, p, r)
    requires ParseInterfaces(mem, p, r, n - 1, extra) == Parsed((rest, extra), p', r')
    ensures ParseInterfaces(mem, pos, size, n, before) == Parsed(([alts] + rest, extra), p', r')
  {
  }

  /** Interfaces before which there is nothing to skip. */
  lemma {:induction false} InterfacesRoundTrip(mem: Memory, pos: nat, size: int, n: nat,
                                               interfaces: seq<seq<Interface>>, before: seq<byte>, p: nat)
    requires AllInterfacesWellFormed(interfaces) && n == |interfaces|
    requires At(mem, pos, InterfacesBytes(interfaces)) && size == |InterfacesBytes(interfaces)| && p == pos + size
    ensures ParseInterfaces(mem, pos, size, n, before) == Parsed((interfaces, before), p, 0)
    ensures InterfaceFollows(mem, pos, size)
    decreases n
  {
    if n > 0 {
      var alts, rest := interfaces[0], interfaces[1..];
      InterfacesCons(interfaces, alts, rest);
      var a, b := AltsBytes(alts), InterfacesBytes(rest);
      var p1, r1 := pos + |a|, size - |a|;
      AtBoth(mem, pos, InterfacesBytes(interfaces), a, b, p1);
      assert p == p1 + r1 && r1 == |b|;
      InterfacesRoundTrip(mem, p1, r1, n - 1, rest, before, p);
      MoreInterfaces(mem, pos, size, n, before, alts, p1, r1, rest, p);
    }
  }

  lemma InterfacesCons(interfaces: seq<seq<Interface>>, alts: seq<Interface>, rest: seq<seq<Interface>>)
    requires AllInterfacesWellFormed(interfaces) && interfaces != [] && alts == interfaces[0] && rest == interfaces[1..]
    ensures InterfaceWellFormed(alts) && AllInterfacesWellFormed(rest) && [alts] + rest == interfaces
    ensures InterfacesBytes(interfaces) == AltsBytes(alts) + InterfacesBytes(rest)
  {
    assert InterfaceWellFormed(interfaces[0]);
  }

  lemma MoreInterfaces(mem: Memory, pos: nat, size: int, n: nat, before: seq<byte>, alts: seq<Interface>, p: nat,
                       r: int, rest: seq<seq<Interface>>, p': nat)
    requires InterfaceWellFormed(alts) && At(mem, pos, AltsBytes(alts)) && n > 0
    requires p == pos + |AltsBytes(alts)| && r == size - |AltsBytes(alts)| && r >= 0 && InterfaceFollows(mem, p, r)
    requires ParseInterfaces(mem, p, r, n - 1, before) == Parsed((rest, before), p', 0)
    ensures ParseInterfaces(mem, pos, size, n, before) == Parsed(([alts] + rest, before), p', 0)
    ensures InterfaceFollows(mem, pos, size)
  {
    InterfaceRoundTrip(mem, pos, size, alts, p, r);
    NothingToSkip(mem, pos, size, before);
    InterfacesStep(mem, pos, size, n, before, pos, size, before, alts, p, r, rest, p', 0);
  }

  lemma NothingToSkip(mem: Memory, pos: nat, size: int, before: seq<byte>)
    requires Stops(mem, pos, size)
    ensures Skip(mem, pos, size, true) == Parsed((), pos, size)
    ensures before == if before == [] then Slice(mem, pos, pos) else before
  {
  }

  /** The extra descriptors of a configuration come before its first interface. */
  lemma FirstInterface(mem: Memory, pos: nat, size: int, interfaces: seq<seq<Interface>>, extra: seq<byte>, p: nat)
    requires interfaces != [] && AllInterfacesWellFormed(interfaces) && ExtraWellFormed(extra)
    requires At(mem, pos, extra) && At(mem, pos + |extra|, InterfacesBytes(interfaces))
    requires size == |extra| + |InterfacesBytes(interfaces)| && p == pos + size
    ensures ParseInterfaces(mem, pos, size, |interfaces|, []) == Parsed((interfaces, extra), p, 0)
  {
    var q, t := pos + |extra|, size - |extra|;
    InterfacesRoundTrip(mem, q, t, |interfaces|, interfaces, extra, p);
    SkipExtra(mem, pos, size, extra, true, q, t);
    SkipFirst(mem, pos, size, |interfaces|, extra, q, t, interfaces, p);
  }

  /** It makes no difference where the skipping before the first interface starts. */
  lemma SkipFirst(mem: Memory, pos: nat, size: int, n: nat, extra: seq<byte>, q: nat, t: int,
                  interfaces: seq<seq<Interface>>, p: nat)
    requires n > 0 && Skip(mem, pos, size, true) == Parsed((), q, t) && At(mem, pos, extra) && q == pos + |extra|
    requires Skip(mem, q, t, true) == Parsed((), q, t)
    requires ParseInterfaces(mem, q, t, n, extra) == Parsed((interfaces, extra), p, 0)
    ensures ParseInterfaces(mem, pos, size, n, []) == Parsed((interfaces, extra), p, 0)
  {
    assert extra == [] ==> Slice(mem, q, q) == [];
  }

  lemma ConfigParts(mem: Memory, pos: nat, c: Config)
    requires ConfigWellFormed(c) && At(mem, pos, ConfigBytes(c))
    ensures At(mem, pos + 9, c.extra) && At(mem, pos + 9 + |c.extra|, InterfacesBytes(c.interfaces))
    ensures mem(pos) == 9 && mem(pos + 4) == |c.interfaces| && Word(mem, pos + 2) == c.wTotalLength
    ensures ConfigAt(mem, pos, c.extra, c.interfaces) == c
  {
    var b := ConfigHeader(c);
    assert ConfigBytes(c) == b + (c.extra + InterfacesBytes(c.interfaces));
    AtParts(mem, pos, b, c.extra + InterfacesBytes(c.interfaces));
    AtParts(mem, pos + 9, c.extra, InterfacesBytes(c.interfaces));
    FirstNine(mem, pos, b);
  }

  /** Parsing what a well-formed configuration is serialised to gives it back, with nothing left over,
      unless it has extra descriptors but no interface: those are not looked at. */
  lemma ConfigRoundTripIff(mem: Memory, pos: nat, c: Config)
    requires ConfigWellFormed(c) && At(mem, pos, ConfigBytes(c))
    ensures ParseConfiguration(mem, pos) == Parsed(c, pos + c.wTotalLength, 0)
       <==> (c.interfaces != [] || c.extra == [])
  {
    if c.interfaces != [] {
      ConfigRoundTrip(mem, pos, c);
    } else {
      NoInterface(mem, pos, c);
    }
  }

  lemma ConfigRoundTrip(mem: Memory, pos: nat, c: Config)
    requires ConfigWellFormed(c) && At(mem, pos, ConfigBytes(c)) && c.interfaces != []
    ensures ParseConfiguration(mem, pos) == Parsed(c, pos + c.wTotalLength, 0)
  {
    assert Serialised(mem, pos, c) by { ConfigParts(mem, pos, c); }
    SerialisedParses(mem, pos, c, pos + 9, c.wTotalLength - 9, pos + c.wTotalLength);
  }

  /** The parts of a configuration's serialisation are where they belong. */
  ghost predicate Serialised(mem: Memory, pos: nat, c: Config) {
    && mem(pos) == 9 && mem(pos + 4) == |c.interfaces| <= USB_MAXINTERFACES && Word(mem, pos + 2) == c.wTotalLength
    && ConfigAt(mem, pos, c.extra, c.interfaces) == c
    && AllInterfacesWellFormed(c.interfaces) && ExtraWellFormed(c.extra)
    && c.wTotalLength == 9 + |c.extra| + |InterfacesBytes(c.interfaces)|
    && At(mem, pos + 9, c.extra) && At(mem, pos + 9 + |c.extra|, InterfacesBytes(c.interfaces))
  }

  lemma SerialisedParses(mem: Memory, pos: nat, c: Config, q: nat, t: int, p: nat)
    requires Serialised(mem, pos, c) && c.interfaces != []
    requires q == pos + 9 && t == c.wTotalLength - 9 && p == q + t
    ensures ParseConfiguration(mem, pos) == Parsed(c, p, 0)
  {
    FirstInterface(mem, q, t, c.interfaces, c.extra, p);
    ConfigStep(mem, pos, c, q, t, p);
  }

  lemma ConfigStep(mem: Memory, pos: nat, c: Config, q: nat, t: int, p: nat)
    requires mem(pos) == 9 && mem(pos + 4) == |c.interfaces| <= USB_MAXINTERFACES
      && Word(mem, pos + 2) == c.wTotalLength
    requires ConfigAt(mem, pos, c.extra, c.interfaces) == c && q == pos + 9 && t == c.wTotalLength - 9
    requires ParseInterfaces(mem, q, t, |c.interfaces|, []) == Parsed((c.interfaces, c.extra), p, 0)
    ensures ParseConfiguration(mem, pos) == Parsed(c, p, 0)
  {
  }

  lemma NoInterface(mem: Memory, pos: nat, c: Config)
    requires ConfigWellFormed(c) && At(mem, pos, ConfigBytes(c)) && c.interfaces == []
    ensures ParseConfiguration(mem, pos) == Parsed(c.(extra := []), pos + 9, |c.extra|)
  {
    ConfigParts(mem, pos, c);
  }

  function Holding(bytes: seq<byte>): Memory {
    (k: nat) => if k < |bytes| then bytes[k] else 0
  }

  lemma {:induction false} HoldingAt(bytes: seq<byte>, from: nat)
    requires from <= |bytes|
    ensures Slice(Holding(bytes), from, |bytes|) == bytes[from..]
    decreases |bytes| - from
  {
    if from < |bytes| { HoldingAt(bytes, from + 1); }
  }

  /** A class specific descriptor in a configuration without interfaces is lost, and its two bytes are
      left over. */
  lemma ExtraIsLost() returns (mem: Memory, c: Config)
    ensures ConfigWellFormed(c) && At(mem, 0, ConfigBytes(c)) && c.extra == [2, 0x24]
    ensures ParseConfiguration(mem, 0) == Parsed(c.(extra := []), 9, 2)
  {
    c := Config(9, DT_CONFIG, 11, 0, 1, 0, 0x80, 50, [2, 0x24], []);
    assert c.extra[c.extra[0]..] == [];
    mem := Holding(ConfigBytes(c));
    HoldingAt(ConfigBytes(c), 0);
    NoInterface(mem, 0, c);
  }

  /** Well-formed configurations that are serialised alike are the same. */
  lemma SerialisationIsUnique(c: Config, d: Config)
    requires ConfigWellFormed(c) && ConfigWellFormed(d) && ConfigBytes(c) == ConfigBytes(d)
    requires c.interfaces != [] && d.interfaces != []
    ensures c == d
  {
    var bytes := ConfigBytes(c);
    var mem := Holding(bytes);
    HoldingAt(bytes, 0);
    ConfigRoundTripIff(mem, 0, c);
    ConfigRoundTripIff(mem, 0, d);
  }

  // ---------------------------------------------------------------- the parser's loops

  lemma FieldsCons(mem: Memory, pos: nat, c: char, format: string)
    ensures Fields(mem, pos, [c] + format)
      == if c == 'b' then [mem(pos)] + Fields(mem, pos + 1, format)
         else if c == 'w' then [Word(mem, pos)] + Fields(mem, pos + 2, format)
         else Fields(mem, pos, format)
  {
    assert ([c] + format)[1..] == format;
  }

  lemma TwoBytes(mem: Memory, pos: nat, format: string)
    ensures Fields(mem, pos, "bb" + format) == [mem(pos), mem(pos + 1)] + Fields(mem, pos + 2, format)
  {
    assert "bb" + format == ['b'] + (['b'] + format);
    FieldsCons(mem, pos, 'b', ['b'] + format);
    FieldsCons(mem, pos + 1, 'b', format);
  }

  lemma WordThen(mem: Memory, pos: nat, format: string)
    ensures Fields(mem, pos, "w" + format) == [Word(mem, pos)] + Fields(mem, pos + 2, format)
  {
    assert "w" + format == ['w'] + format;
    FieldsCons(mem, pos, 'w', format);
  }

  lemma ByteThen(mem: Memory, pos: nat, format: string)
    ensures Fields(mem, pos, "b" + format) == [mem(pos)] + Fields(mem, pos + 1, format)
  {
    assert "b" + format == ['b'] + format;
    FieldsCons(mem, pos, 'b', format);
  }

  method ReadHeader(mem: Memory, pos: nat) returns (bLength: byte, bDescriptorType: byte)
    ensures bLength == mem(pos) && bDescriptorType == mem(pos + 1)
  {
    var header, _ := ParseDescriptor(mem, pos, "bb", false, false);
    TwoBytes(mem, pos, "");
    assert "bb" + "" == "bb";
    bLength, bDescriptorType := header[0], header[1];
  }

  /** The loops that skip class and vendor specific descriptors; `ok` is false for an invalid length. */
  method SkipDescriptors(mem: Memory, pos0: nat, size0: int, checked: bool) returns (ok: bool, pos: nat, size: int)
    ensures Skip(mem, pos0, size0, checked) == if ok then Parsed((), pos, size) else Failed
    ensures ok ==> pos >= pos0 && pos - pos0 == size0 - size
  {
    pos, size := pos0, size0;
    while size >= DESC_HEADER_LENGTH
      invariant Skip(mem, pos0, size0, checked) == Skip(mem, pos, size, checked)
      invariant pos >= pos0 && pos - pos0 == size0 - size
      decreases size
    {
      var bLength, bDescriptorType := ReadHeader(mem, pos);
      if bLength < 2 || (checked && bLength > size) {
        return false, pos, size;
      }
      if Proper(bDescriptorType) {
        return true, pos, size;
      }
      pos, size := pos + bLength, size - bLength;
    }
    return true, pos, size;
  }

  method CopyOut(mem: Memory, begin: nat, end: nat) returns (extra: seq<byte>)
    requires begin <= end
    ensures extra == Slice(mem, begin, end)
  {
    extra := [];
    for k := begin to end
      invariant extra + Slice(mem, k, end) == Slice(mem, begin, end)
    {
      extra := extra + [mem(k)];
    }
  }

  /** The part of parse_endpoint that fills the fixed fields. */
  method ReadEndpointFields(mem: Memory, pos: nat, bLength: byte) returns (e: Endpoint)
    requires bLength == mem(pos)
    ensures e == EndpointAt(mem, pos, [])
  {
    if bLength >= ENDPOINT_AUDIO_DESC_LENGTH {
      e := ReadAudioEndpoint(mem, pos);
    } else if bLength >= ENDPOINT_DESC_LENGTH {
      e := ReadPlainEndpoint(mem, pos);
    } else {
      e := NO_ENDPOINT;
    }
  }

  method ReadAudioEndpoint(mem: Memory, p: nat) returns (e: Endpoint)
    ensures e == Endpoint(mem(p), mem(p + 1), mem(p + 2), mem(p + 3), Word(mem, p + 4), mem(p + 6), mem(p + 7),
                          mem(p + 8), [])
  {
    var f, _ := ParseDescriptor(mem, p, "bbbbwbbb", false, false);
    EndpointFormats(mem, p);
    e := Endpoint(f[0], f[1], f[2], f[3], f[4], f[5], f[6], f[7], []);
  }

  method ReadPlainEndpoint(mem: Memory, p: nat) returns (e: Endpoint)
    ensures e == Endpoint(mem(p), mem(p + 1), mem(p + 2), mem(p + 3), Word(mem, p + 4), mem(p + 6), 0, 0, [])
  {
    var f, _ := ParseDescriptor(mem, p, "bbbbwb", false, false);
    EndpointFormats(mem, p);
    e := Endpoint(f[0], f[1], f[2], f[3], f[4], f[5], 0, 0, []);
  }

  lemma EndpointFormats(mem: Memory, p: nat)
    ensures Fields(mem, p, "bbbbwb") == [mem(p), mem(p + 1), mem(p + 2), mem(p + 3), Word(mem, p + 4), mem(p + 6)]
    ensures Fields(mem, p, "bbbbwbbb")
      == [mem(p), mem(p + 1), mem(p + 2), mem(p + 3), Word(mem, p + 4), mem(p + 6), mem(p + 7), mem(p + 8)]
  {
    FourAndWord(mem, p, "b");
    FourAndWord(mem, p, "bbb");
    ByteThen(mem, p + 6, "");
    ByteThen(mem, p + 6, "bb");
    TwoBytes(mem, p + 7, "");
    assert "b" + "" == "b" && "b" + "bb" == "bbb" && "bb" + "" == "bb";
    assert "bbbbw" + "b" == "bbbbwb" && "bbbbw" + "bbb" == "bbbbwbbb";
  }

  lemma FourAndWord(mem: Memory, p: nat, format: string)
    ensures Fields(mem, p, "bbbbw" + format)
      == [mem(p), mem(p + 1), mem(p + 2), mem(p + 3), Word(mem, p + 4)] + Fields(mem, p + 6, format)
  {
    assert "bbbbw" + format == "bb" + ("bb" + ("w" + format));
    TwoBytes(mem, p, "bb" + ("w" + format));
    TwoBytes(mem, p + 2, "w" + format);
    WordThen(mem, p + 4, format);
  }

  /** parse_endpoint */
  method ReadEndpoint(mem: Memory, pos: nat, size: int) returns (r: Parsed<Endpoint>)
    ensures r == ParseEndpoint(mem, pos, size)
  {
    var bLength, bDescriptorType := ReadHeader(mem, pos);
    if bLength > size {
      return Failed;
    }
    if bDescriptorType != DT_ENDPOINT {
      return Parsed(NO_ENDPOINT, pos, size);
    }
    var e := ReadEndpointFields(mem, pos, bLength);
    var begin := pos + bLength;
    var ok, p, s := SkipDescriptors(mem, begin, size - bLength, false);
    if !ok {
      return Failed;
    }
    var extra := CopyOut(mem, begin, p);
    return Parsed(e.(extra := extra), p, s);
  }

  /** One endpoint, of `left` that are still to come. */
  method ReadNextEndpoint(mem: Memory, pos: nat, size: int, ghost left: nat) returns (r: Parsed<Endpoint>)
    requires left > 0
    ensures ParseEndpoints(mem, pos, size, left)
      == if r.Failed? then Failed else Prepend([r.value], ParseEndpoints(mem, r.pos, r.size, left - 1))
  {
    var bLength, bDescriptorType := ReadHeader(mem, pos);
    if bLength > size {
      return Failed;
    }
    r := ReadEndpoint(mem, pos, size);
  }

  /** The loop of parse_interface over the endpoints of one alternate setting. */
  method ReadEndpoints(mem: Memory, pos0: nat, size0: int, n: nat) returns (r: Parsed<seq<Endpoint>>)
    ensures r == ParseEndpoints(mem, pos0, size0, n)
  {
    var pos, size, es := pos0, size0, [];
    ghost var left := n;
    PrependNone(ParseEndpoints(mem, pos, size, n));
    for i := 0 to n
      invariant pos >= 0 && |es| == i && left == n - i
      invariant ParseEndpoints(mem, pos0, size0, n) == Prepend(es, ParseEndpoints(mem, pos, size, left))
    {
      var next := ReadNextEndpoint(mem, pos, size, left);
      if next.Failed? {
        return Failed;
      }
      left := left - 1;
      PrependMore(es, next.value, ParseEndpoints(mem, next.pos, next.size, left));
      es, pos, size := es + [next.value], next.pos, next.size;
    }
    assert es + [] == es;
    return Parsed(es, pos, size);
  }

  function Prepend<T>(first: seq<T>, r: Parsed<seq<T>>): Parsed<seq<T>> {
    if r.Parsed? then Parsed(first + r.value, r.pos, r.size) else Failed
  }

  lemma PrependNone<T>(r: Parsed<seq<T>>)
    ensures Prepend([], r) == r
  {
    if r.Parsed? { assert [] + r.value == r.value; }
  }

  lemma PrependMore<T>(first: seq<T>, x: T, r: Parsed<seq<T>>)
    ensures Prepend(first, Prepend([x], r)) == Prepend(first + [x], r)
  {
    if r.Parsed? { assert first + ([x] + r.value) == first + [x] + r.value; }
  }

  lemma InterfaceFormat(mem: Memory, p: nat)
    ensures Fields(mem, p, "bbbbbbbbb")
      == [mem(p), mem(p + 1), mem(p + 2), mem(p + 3), mem(p + 4), mem(p + 5), mem(p + 6), mem(p + 7), mem(p + 8)]
  {
    TwoBytes(mem, p, "bbbbbbb");
    TwoBytes(mem, p + 2, "bbbbb");
    FiveBytes(mem, p + 4);
    assert "bb" + "bbbbbbb" == "bbbbbbbbb" && "bb" + "bbbbb" == "bbbbbbb";
  }

  method ReadInterfaceFields(mem: Memory, p: nat) returns (i: Interface)
    ensures i == InterfaceAt(mem, p, [], [])
  {
    var f, _ := ParseDescriptor(mem, p, "bbbbbbbbb", false, false);
    InterfaceFormat(mem, p);
    i := Interface(f[0], f[1], f[2], f[3], f[4], f[5], f[6], f[7], f[8], [], []);
  }

  /** One round of parse_interface; `last` also when a descriptor comes that does not belong there. */
  method ReadAlt(mem: Memory, pos: nat, size: int) returns (r: Parsed<(Interface, bool)>)
    ensures r == ParseAlt(mem, pos, size)
  {
    var i := ReadInterfaceFields(mem, pos);
    var begin, left := pos + i.bLength, size - i.bLength;
    var ok, p, t := SkipDescriptors(mem, begin, left, false);
    if !ok {
      AltFails(mem, pos, size, begin, left);
      return Failed;
    }
    AltIs(mem, pos, size, begin, left, p, t);
    r := ReadAltFrom(mem, pos, i, begin, p, t);
  }

  method ReadAltFrom(mem: Memory, ghost pos: nat, fields: Interface, begin: nat, p: nat, t: int)
    returns (r: Parsed<(Interface, bool)>)
    requires fields == InterfaceAt(mem, pos, [], []) && begin <= p
    ensures r == AltFrom(mem, pos, begin, p, t)
  {
    var extra := CopyOut(mem, begin, p);
    var i := fields.(extra := extra);
    var bLength, bDescriptorType := ReadHeader(mem, p);
    if t >= DESC_HEADER_LENGTH && (bDescriptorType == DT_CONFIG || bDescriptorType == DT_DEVICE) {
      return Parsed((i, true), p, t);
    }
    if i.bNumEndpoints > USB_MAXENDPOINTS {
      return Failed;
    }
    var es := ReadEndpoints(mem, p, t, i.bNumEndpoints);
    if es.Failed? {
      return Failed;
    }
    return Parsed((i.(endpoints := es.value), IsLast(mem, es.pos, es.size)), es.pos, es.size);
  }

  /** parse_interface: it always comes to an end, as every round takes some of the input. */
  method ReadInterface(mem: Memory, pos0: nat, size0: int) returns (r: Parsed<seq<Interface>>)
    ensures r == ParseInterface(mem, pos0, size0)
  {
    var pos, size, alts := pos0, size0, [];
    PrependNone(ParseInterface(mem, pos, size));
    while size >= INTERFACE_DESC_LENGTH
      invariant pos >= 0
      invariant ParseInterface(mem, pos0, size0) == Prepend(alts, ParseInterface(mem, pos, size))
      decreases size
    {
      var alt := ReadAlt(mem, pos, size);
      if alt.Failed? {
        return Failed;
      }
      if alt.value.1 {
        return Parsed(alts + [alt.value.0], alt.pos, alt.size);
      }
      PrependMore(alts, alt.value.0, ParseInterface(mem, alt.pos, alt.size));
      alts, pos, size := alts + [alt.value.0], alt.pos, alt.size;
    }
    assert alts + [] == alts;
    return Parsed(alts, pos, size);
  }

  lemma ConfigFormat(mem: Memory, p: nat)
    ensures Fields(mem, p, "bbwbbbbb")
      == [mem(p), mem(p + 1), Word(mem, p + 2), mem(p + 4), mem(p + 5), mem(p + 6), mem(p + 7), mem(p + 8)]
  {
    TwoBytes(mem, p, "wbbbbb");
    WordThen(mem, p + 2, "bbbbb");
    FiveBytes(mem, p + 4);
    assert "bb" + "wbbbbb" == "bbwbbbbb" && "w" + "bbbbb" == "wbbbbb";
  }

  lemma FiveBytes(mem: Memory, p: nat)
    ensures Fields(mem, p, "bbbbb") == [mem(p), mem(p + 1), mem(p + 2), mem(p + 3), mem(p + 4)]
  {
    TwoBytes(mem, p, "bbb");
    TwoBytes(mem, p + 2, "b");
    ByteThen(mem, p + 4, "");
    assert "bb" + "bbb" == "bbbbb" && "bb" + "b" == "bbb" && "b" + "" == "b";
  }

  method ReadConfigFields(mem: Memory, p: nat) returns (c: Config)
    ensures c == ConfigAt(mem, p, [], [])
  {
    var f, _ := ParseDescriptor(mem, p, "bbwbbbbb", false, false);
    ConfigFormat(mem, p);
    c := Config(f[0], f[1], f[2], f[3], f[4], f[5], f[6], f[7], [], []);
  }

  lemma ConfigOf(mem: Memory, pos: nat, c: Config, q: nat, t: int, all: Parsed<(seq<seq<Interface>>, seq<byte>)>)
    requires c == ConfigAt(mem, pos, [], []) && c.bNumInterfaces <= USB_MAXINTERFACES
    requires q == pos + c.bLength && t == c.wTotalLength - c.bLength
      && all == ParseInterfaces(mem, q, t, c.bNumInterfaces, [])
    ensures ParseConfiguration(mem, pos)
      == if all.Failed? then Failed
         else Parsed(c.(interfaces := all.value.0, extra := all.value.1), all.pos, all.size)
  {
  }

  /** parse_configuration */
  method ReadConfiguration(mem: Memory, pos: nat) returns (r: Parsed<Config>)
    ensures r == ParseConfiguration(mem, pos)
  {
    var c := ReadConfigFields(mem, pos);
    if c.bNumInterfaces > USB_MAXINTERFACES {
      return Failed;
    }
    var q, size := pos + c.bLength, c.wTotalLength - c.bLength;
    var all := ReadInterfaces(mem, q, size, c.bNumInterfaces);
    ConfigOf(mem, pos, c, q, size, all);
    if all.Failed? {
      return Failed;
    }
    return Parsed(c.(interfaces := all.value.0, extra := all.value.1), all.pos, all.size);
  }

  function PrependInterfaces(first: seq<seq<Interface>>, r: Parsed<(seq<seq<Interface>>, seq<byte>)>)
    : Parsed<(seq<seq<Interface>>, seq<byte>)>
  {
    if r.Parsed? then Parsed((first + r.value.0, r.value.1), r.pos, r.size) else Failed
  }

  lemma PrependInterface(first: seq<seq<Interface>>, alts: seq<Interface>, r: Parsed<(seq<seq<Interface>>, seq<byte>)>)
    ensures PrependInterfaces(first, PrependInterfaces([alts], r)) == PrependInterfaces(first + [alts], r)
    ensures PrependInterfaces([], r) == r
  {
    if r.Parsed? {
      assert first + ([alts] + r.value.0) == first + [alts] + r.value.0;
      assert [] + r.value.0 == r.value.0;
    }
  }

  /** One round of the loop, after the descriptors that are skipped. */
  lemma NextInterface(mem: Memory, pos: nat, size: int, n: nat, extra: seq<byte>)
    requires n > 0
    ensures var skipped := Skip(mem, pos, size, true);
      if skipped.Failed? then ParseInterfaces(mem, pos, size, n, extra) == Failed
      else
        var extra' := if extra == [] then Slice(mem, pos, skipped.pos) else extra;
        var alts := ParseInterface(mem, skipped.pos, skipped.size);
        ParseInterfaces(mem, pos, size, n, extra)
        == if alts.Failed? then Failed
           else PrependInterfaces([alts.value], ParseInterfaces(mem, alts.pos, alts.size, n - 1, extra'))
  {
  }

  /** The loop of parse_configuration. */
  method ReadInterfaces(mem: Memory, pos0: nat, size0: int, n: nat)
    returns (r: Parsed<(seq<seq<Interface>>, seq<byte>)>)
    ensures r == ParseInterfaces(mem, pos0, size0, n, [])
  {
    var pos, size, interfaces, extra := pos0, size0, [], [];
    PrependInterface([], [], ParseInterfaces(mem, pos, size, n, []));
    for i := 0 to n
      invariant pos >= 0
      invariant ParseInterfaces(mem, pos0, size0, n, [])
             == PrependInterfaces(interfaces, ParseInterfaces(mem, pos, size, n - i, extra))
    {
      assert n - i - 1 == n - (i + 1);
      NextInterface(mem, pos, size, n - i, extra);
      var begin := pos;
      var ok, p, s := SkipDescriptors(mem, begin, size, true);
      if !ok {
        return Failed;
      }
      if extra == [] {
        extra := CopyOut(mem, begin, p);
      }
      var alts := ReadInterface(mem, p, s);
      if alts.Failed? {
        return Failed;
      }
      PrependInterface(interfaces, alts.value, ParseInterfaces(mem, alts.pos, alts.size, n - (i + 1), extra));
      interfaces, pos, size := interfaces + [alts.value], alts.pos, alts.size;
    }
    assert interfaces + [] == interfaces;
    return Parsed((interfaces, extra), pos, size);
  }
}
