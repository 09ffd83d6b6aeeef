/** On which bytes the outcome of parsing a configuration depends (descriptor.c: parse_endpoint,
parse_interface, parse_configuration).

The input are the configuration descriptor and the wTotalLength bytes that begin with it. Only a
configuration checks that the descriptors that it skips end within them.
*/
module DescriptorInput {
  import opened Bytes
  import opened Descriptors

  /** How far beyond the end a descriptor may reach whose two header bytes lie within the input. */
  const BEYOND := 253

  ghost predicate Agree(m: Memory, m': Memory, from: nat, limit: nat) {
    forall k: nat | from <= k < limit :: m(k) == m'(k)
  }

  // ---------------------------------------------------------------- staying inside

  /** The outcome does not depend on what comes behind the input. Endpoint descriptors must not be looked for
      at its end, and what is skipped behind the last one must end within it, unless parsing fails anyway. */
  predicate EndpointsInside(mem: Memory, pos: nat, size: int, n: nat)
    decreases n
  {
    || n == 0 || size < 0
    || (size == 1 && mem(pos) != 1)
    || (size >= 2 && (mem(pos) > size || mem(pos + 1) != DT_ENDPOINT ||
                      match Skip(mem, pos + mem(pos), size - mem(pos), false)
                      case Parsed(_, p, s) => if s < 0 then n > 1 else EndpointsInside(mem, p, s, n - 1)
                      case Failed => true))
  }

  predicate AltInside(mem: Memory, pos: nat, size: int) {
    match Skip(mem, pos + mem(pos), size - mem(pos), false)
    case Parsed(_, p, s) =>
      if s < 0 then p == pos + mem(pos) || mem(pos + 4) > 0
      else
        || (s >= DESC_HEADER_LENGTH && (mem(p + 1) == DT_CONFIG || mem(p + 1) == DT_DEVICE))
        || mem(pos + 4) > USB_MAXENDPOINTS || EndpointsInside(mem, p, s, mem(pos + 4))
    case Failed => true
  }

  predicate InterfaceInside(mem: Memory, pos: nat, size: int)
    decreases size
  {
    size >= INTERFACE_DESC_LENGTH ==>
      && AltInside(mem, pos, size)
      && match ParseAlt(mem, pos, size)
         case Parsed((_, last), p, s) => last || InterfaceInside(mem, p, s)
         case Failed => true
  }

  predicate InterfacesInside(mem: Memory, pos: nat, size: int, n: nat)
    decreases n
  {
    n > 0 ==>
      match Skip(mem, pos, size, true)
      case Parsed(_, p, s) =>
        && InterfaceInside(mem, p, s)
        && (match ParseInterface(mem, p, s)
            case Parsed(_, p', s') => InterfacesInside(mem, p', s', n - 1)
            case Failed => true)
      case Failed => true
  }

  predicate Inside(mem: Memory, pos: nat) {
    || mem(pos + 4) > USB_MAXINTERFACES
    || InterfacesInside(mem, pos + mem(pos), Word(mem, pos + 2) - mem(pos), mem(pos + 4))
  }

  // ---------------------------------------------------------------- what is not read makes no difference

  lemma {:induction false} SliceAgrees(m: Memory, m': Memory, base: nat, limit: nat, from: nat, end: nat)
    requires Agree(m, m', base, limit) && base <= from <= end <= limit
    ensures Slice(m, from, end) == Slice(m', from, end)
    decreases end - from
  {
    if from < end { SliceAgrees(m, m', base, limit, from + 1, end); }
  }

  lemma {:induction false} SkipAgrees(m: Memory, m': Memory, base: nat, limit: nat, pos: nat, size: int, checked: bool)
    requires Agree(m, m', base, limit) && base <= pos && pos + size <= limit
    ensures Skip(m, pos, size, checked) == Skip(m', pos, size, checked)
    decreases size
  {
    if size >= DESC_HEADER_LENGTH && m(pos) >= 2 {
      SkipAgrees(m, m', base, limit, pos + m(pos), size - m(pos), checked);
    }
  }

  lemma {:induction false} SkipReach(mem: Memory, pos: nat, size: int, checked: bool)
    requires Skip(mem, pos, size, checked).Parsed?
    ensures var r := Skip(mem, pos, size, checked);
      && (r.pos > pos ==> r.pos <= pos + size + (if checked then 0 else BEYOND))
      && (checked && size >= 0 ==> r.size >= 0)
    decreases size
  {
    if size >= DESC_HEADER_LENGTH && !Proper(mem(pos + 1)) {
      SkipReach(mem, pos + mem(pos), size - mem(pos), checked);
    }
  }

  /** How an endpoint descriptor in the input is parsed. */
  lemma EndpointFound(mem: Memory, pos: nat, size: int)
    requires mem(pos) <= size && mem(pos + 1) == DT_ENDPOINT
    ensures var r := Skip(mem, pos + mem(pos), size - mem(pos), false);
      ParseEndpoint(mem, pos, size)
      == if r.Failed? then Failed
         else Parsed(EndpointAt(mem, pos, Slice(mem, pos + mem(pos), r.pos)), r.pos, r.size)
  {
  }

  lemma EndpointAgrees(m: Memory, m': Memory, base: nat, limit: nat, pos: nat, size: int)
    requires Agree(m, m', base, limit) && base <= pos && pos + size <= limit && pos + 2 <= limit
    requires m(pos) <= size && m(pos + 1) == DT_ENDPOINT
    requires var r := Skip(m, pos + m(pos), size - m(pos), false); r.Parsed? ==> r.pos <= limit
    ensures ParseEndpoint(m, pos, size) == ParseEndpoint(m', pos, size)
  {
    var from := pos + m(pos);
    SkipAgrees(m, m', base, limit, from, size - m(pos), false);
    EndpointFound(m, pos, size);
    EndpointFound(m', pos, size);
    var r := Skip(m, from, size - m(pos), false);
    if r.Parsed? {
      SliceAgrees(m, m', base, limit, from, r.pos);
      assert EndpointAt(m, pos, Slice(m, from, r.pos)) == EndpointAt(m', pos, Slice(m', from, r.pos));
    }
  }

  function NoEndpoints(n: nat): seq<Endpoint> {
    if n == 0 then [] else [NO_ENDPOINT] + NoEndpoints(n - 1)
  }

  /** An endpoint that takes no bytes is found again and again. */
  lemma {:induction false} SameAgain(mem: Memory, pos: nat, size: int, n: nat)
    requires ParseEndpoint(mem, pos, size) == Parsed(NO_ENDPOINT, pos, size)
    ensures ParseEndpoints(mem, pos, size, n) == Parsed(NoEndpoints(n), pos, size)
    decreases n
  {
    if n > 0 { SameAgain(mem, pos, size, n - 1); }
  }

  /** At the end of the input, or one byte before, an endpoint of length 0 takes no bytes. */
  lemma NothingThere(mem: Memory, pos: nat, size: int)
    requires 0 <= size < 2 && (mem(pos) == 0 || (mem(pos) <= size && mem(pos + 1) != DT_ENDPOINT))
    ensures ParseEndpoint(mem, pos, size) == Parsed(NO_ENDPOINT, pos, size)
  {
    assert Slice(mem, pos, pos) == [];
  }

  lemma {:induction false} EndpointsAgree(m: Memory, m': Memory, base: nat, limit: nat, pos: nat, size: int, n: nat)
    requires Agree(m, m', base, limit) && base <= pos && pos + size <= limit
    requires pos + size + BEYOND <= limit || EndpointsInside(m, pos, size, n)
    ensures ParseEndpoints(m, pos, size, n) == ParseEndpoints(m', pos, size, n)
    decreases n
  {
    if size < 0 {
      NoneBehind(m, pos, size, n);
      NoneBehind(m', pos, size, n);
    } else if n > 0 && m(pos) <= size && pos + 2 <= limit && m(pos + 1) == DT_ENDPOINT {
      var r := Skip(m, pos + m(pos), size - m(pos), false);
      if r.Parsed? && r.size >= 0 { EndpointsAgree(m, m', base, limit, r.pos, r.size, n - 1); }
      MoreEndpointsAgree(m, m', base, limit, pos, size, n);
    } else if n > 0 {
      NoEndpointAgrees(m, m', base, limit, pos, size, n);
    }
  }

  /** There is no endpoint descriptor, or one that is too long, or nothing to tell. */
  lemma NoEndpointAgrees(m: Memory, m': Memory, base: nat, limit: nat, pos: nat, size: int, n: nat)
    requires Agree(m, m', base, limit) && base <= pos && pos + size <= limit && n > 0 && size >= 0
    requires pos + size + BEYOND <= limit || EndpointsInside(m, pos, size, n)
    requires m(pos) > size || pos + 2 > limit || m(pos + 1) != DT_ENDPOINT
    ensures ParseEndpoints(m, pos, size, n) == ParseEndpoints(m', pos, size, n)
  {
    if m(pos) <= size {
      if pos + 2 > limit {
        NothingThere(m, pos, size);
        NothingThere(m', pos, size);
      }
      SameAgain(m, pos, size, n);
      SameAgain(m', pos, size, n);
    }
  }

  lemma MoreEndpointsAgree(m: Memory, m': Memory, base: nat, limit: nat, pos: nat, size: int, n: nat)
    requires Agree(m, m', base, limit) && base <= pos && pos + size <= limit && pos + 2 <= limit
    requires m(pos) <= size && m(pos + 1) == DT_ENDPOINT && n > 0
    requires pos + size + BEYOND <= limit || EndpointsInside(m, pos, size, n)
    requires var r := Skip(m, pos + m(pos), size - m(pos), false);
      r.Parsed? && r.size >= 0 ==> ParseEndpoints(m, r.pos, r.size, n - 1) == ParseEndpoints(m', r.pos, r.size, n - 1)
    ensures ParseEndpoints(m, pos, size, n) == ParseEndpoints(m', pos, size, n)
  {
    FirstEndpointAgrees(m, m', base, limit, pos, size, n);
    EndpointFound(m, pos, size);
    EndpointFound(m', pos, size);
    var r := ParseEndpoint(m, pos, size);
    if r.Parsed? {
      EndpointsFrom(m, pos, size, n);
      EndpointsFrom(m', pos, size, n);
      if r.size < 0 {
        NoneBehind(m, r.pos, r.size, n - 1);
        NoneBehind(m', r.pos, r.size, n - 1);
      }
    }
  }

  /** There are no endpoints behind the input. */
  lemma NoneBehind(mem: Memory, pos: nat, size: int, n: nat)
    requires size < 0
    ensures ParseEndpoints(mem, pos, size, n) == if n == 0 then Parsed([], pos, size) else Failed
  {
  }

  /** With what follows failing in any case, it makes no difference what the first endpoint's extras are. */
  lemma FirstEndpointAgrees(m: Memory, m': Memory, base: nat, limit: nat, pos: nat, size: int, n: nat)
    requires Agree(m, m', base, limit) && base <= pos && pos + size <= limit && pos + 2 <= limit
    requires m(pos) <= size && m(pos + 1) == DT_ENDPOINT && n > 0
    requires pos + size + BEYOND <= limit || EndpointsInside(m, pos, size, n)
    ensures var r := Skip(m, pos + m(pos), size - m(pos), false);
      && Skip(m', pos + m(pos), size - m(pos), false) == r
      && (r.Failed? || r.size >= 0 || n == 1 || pos + size + BEYOND <= limit ==>
            ParseEndpoint(m', pos, size) == ParseEndpoint(m, pos, size))
  {
    SkipAgrees(m, m', base, limit, pos + m(pos), size - m(pos), false);
    var r := Skip(m, pos + m(pos), size - m(pos), false);
    if r.Parsed? { SkipReach(m, pos + m(pos), size - m(pos), false); }
    if r.Failed? || r.pos <= limit { EndpointAgrees(m, m', base, limit, pos, size); }
  }

  lemma AltAgrees(m: Memory, m': Memory, base: nat, limit: nat, pos: nat, size: int)
    requires Agree(m, m', base, limit) && base <= pos && pos + size <= limit && size >= INTERFACE_DESC_LENGTH
    requires pos + size + BEYOND <= limit || AltInside(m, pos, size)
    ensures ParseAlt(m, pos, size) == ParseAlt(m', pos, size)
  {
    var begin, left := pos + m(pos), size - m(pos);
    SkipAgrees(m, m', base, limit, begin, left, false);
    var r := Skip(m, begin, left, false);
    if r.Parsed? {
      AltIs(m, pos, size, begin, left, r.pos, r.size);
      AltIs(m', pos, size, begin, left, r.pos, r.size);
      SkipReach(m, begin, left, false);
      AltFromAgrees(m, m', base, limit, pos, size, begin, r.pos, r.size);
    }
  }

  lemma AltFromAgrees(m: Memory, m': Memory, base: nat, limit: nat, pos: nat, size: int, begin: nat, p: nat, t: int)
    requires Agree(m, m', base, limit) && base <= pos && pos + size <= limit && size >= INTERFACE_DESC_LENGTH
    requires pos + size + BEYOND <= limit || AltInside(m, pos, size)
    requires begin == pos + m(pos) && SkipsTo(m, begin, size - m(pos), p, t)
    requires p > begin ==> p <= pos + size + BEYOND
    ensures AltFrom(m, pos, begin, p, t) == AltFrom(m', pos, begin, p, t)
  {
    if t < 0 && m(pos + 4) > 0 {
      assert AltFrom(m, pos, begin, p, t) == AltFrom(m', pos, begin, p, t) == Failed;
    } else {
      if p == begin {
        assert Slice(m, begin, p) == [] == Slice(m', begin, p);
      } else {
        SliceAgrees(m, m', base, limit, begin, p);
      }
      var stops := t >= DESC_HEADER_LENGTH && (m(p + 1) == DT_CONFIG || m(p + 1) == DT_DEVICE);
      if !stops && m(pos + 4) <= USB_MAXENDPOINTS { EndpointsAgree(m, m', base, limit, p, t, m(pos + 4)); }
      SettingAgrees(m, m', base, limit, pos, begin, p, t, m(pos + 4));
    }
  }

  lemma SettingAgrees(m: Memory, m': Memory, base: nat, limit: nat, pos: nat, begin: nat, p: nat, t: int, n: nat)
    requires Agree(m, m', base, limit) && base <= pos && pos + 9 <= limit && base <= begin <= p && p + t <= limit
    requires n == m(pos + 4) && Slice(m, begin, p) == Slice(m', begin, p)
    requires !(t >= DESC_HEADER_LENGTH && (m(p + 1) == DT_CONFIG || m(p + 1) == DT_DEVICE)) && n <= USB_MAXENDPOINTS ==>
      ParseEndpoints(m, p, t, n) == ParseEndpoints(m', p, t, n)
    ensures AltFrom(m, pos, begin, p, t) == AltFrom(m', pos, begin, p, t)
  {
    assert forall extra, es :: InterfaceAt(m, pos, extra, es) == InterfaceAt(m', pos, extra, es);
    assert t >= DESC_HEADER_LENGTH ==> m(p + 1) == m'(p + 1);
    EndpointsEnd(m, p, t, n, limit);
  }

  /** What has been parsed and what is left is all there was. */
  lemma EndpointsEnd(mem: Memory, pos: nat, size: int, n: nat, limit: nat)
    requires pos + size <= limit
    ensures var r := ParseEndpoints(mem, pos, size, n);
      r.Parsed? ==> r.pos >= pos && r.pos + r.size == pos + size <= limit
  {
  }

  lemma {:induction false} InterfaceAgrees(m: Memory, m': Memory, base: nat, limit: nat, pos: nat, size: int)
    requires Agree(m, m', base, limit) && base <= pos && pos + size <= limit
    requires pos + size + BEYOND <= limit || InterfaceInside(m, pos, size)
    ensures ParseInterface(m, pos, size) == ParseInterface(m', pos, size)
    decreases size
  {
    if size >= INTERFACE_DESC_LENGTH {
      AltAgrees(m, m', base, limit, pos, size);
      var r := ParseAlt(m, pos, size);
      if r.Parsed? && !r.value.1 { InterfaceAgrees(m, m', base, limit, r.pos, r.size); }
    }
  }

  lemma {:induction false} InterfacesAgree(m: Memory, m': Memory, base: nat, limit: nat, pos: nat, size: int, n: nat,
                                           extra: seq<byte>)
    requires Agree(m, m', base, limit) && base <= pos && pos + size <= limit
    requires pos + size + BEYOND <= limit || InterfacesInside(m, pos, size, n)
    ensures ParseInterfaces(m, pos, size, n, extra) == ParseInterfaces(m', pos, size, n, extra)
    decreases n
  {
    if n > 0 {
      SkipAgrees(m, m', base, limit, pos, size, true);
      var r := Skip(m, pos, size, true);
      if r.Parsed? {
        SkipReach(m, pos, size, true);
        if r.pos == pos {
          assert Slice(m, pos, r.pos) == [] == Slice(m', pos, r.pos);
        } else {
          SliceAgrees(m, m', base, limit, pos, r.pos);
        }
        InterfaceAgrees(m, m', base, limit, r.pos, r.size);
        var i := ParseInterface(m, r.pos, r.size);
        if i.Parsed? {
          var extra' := if extra == [] then Slice(m, pos, r.pos) else extra;
          InterfacesAgree(m, m', base, limit, i.pos, i.size, n - 1, extra');
        }
      }
    }
  }

  /** The end of the input. */
  function End(mem: Memory, pos: nat): nat {
    pos + Word(mem, pos + 2)
  }

  function Max(a: nat, b: nat): nat {
    if a < b then b else a
  }

  /** Whatever the input, no byte further than 253 behind it makes a difference; and if the parser stays
      inside, none behind it does. */
  lemma OutcomeIsLocal(m: Memory, m': Memory, pos: nat)
    requires Agree(m, m', pos, Max(pos + 9, if Inside(m, pos) then End(m, pos) else End(m, pos) + BEYOND))
    ensures ParseConfiguration(m, pos) == ParseConfiguration(m', pos)
  {
    var at, size, n := pos + m(pos), Word(m, pos + 2) - m(pos), m(pos + 4);
    LocalTo(m, m', pos, Max(pos + 9, if Inside(m, pos) then End(m, pos) else End(m, pos) + BEYOND), at, size, n);
  }

  lemma LocalTo(m: Memory, m': Memory, pos: nat, limit: nat, at: nat, size: int, n: nat)
    requires Agree(m, m', pos, limit) && pos + 9 <= limit && at + size <= limit
    requires at == pos + m(pos) && size == Word(m, pos + 2) - m(pos) && n == m(pos + 4)
    requires at + size + BEYOND <= limit || n > USB_MAXINTERFACES || InterfacesInside(m, at, size, n)
    ensures ParseConfiguration(m, pos) == ParseConfiguration(m', pos)
  {
    SameHeader(m, m', pos, limit);
    ConfigIs(m, pos, at, size, n);
    ConfigIs(m', pos, at, size, n);
    if n <= USB_MAXINTERFACES { BodyAgrees(m, m', pos, limit, at, size, n); }
  }

  lemma BodyAgrees(m: Memory, m': Memory, pos: nat, limit: nat, at: nat, size: int, n: nat)
    requires Agree(m, m', pos, limit) && pos + 9 <= limit && pos <= at && at + size <= limit
    requires at + size + BEYOND <= limit || InterfacesInside(m, at, size, n)
    ensures ConfigFrom(m, pos, ParseInterfaces(m, at, size, n, []))
      == ConfigFrom(m', pos, ParseInterfaces(m', at, size, n, []))
  {
    InterfacesAgree(m, m', pos, limit, at, size, n, []);
    SameConfig(m, m', pos, limit, ParseInterfaces(m, at, size, n, []));
  }

  lemma ConfigIs(mem: Memory, pos: nat, at: nat, size: int, n: nat)
    requires at == pos + mem(pos) && size == Word(mem, pos + 2) - mem(pos) && n == mem(pos + 4)
    ensures ParseConfiguration(mem, pos)
      == if n > USB_MAXINTERFACES then Failed else ConfigFrom(mem, pos, ParseInterfaces(mem, at, size, n, []))
  {
  }

  lemma SameHeader(m: Memory, m': Memory, pos: nat, limit: nat)
    requires Agree(m, m', pos, limit) && pos + 9 <= limit
    ensures m(pos) == m'(pos) && Word(m, pos + 2) == Word(m', pos + 2) && m(pos + 4) == m'(pos + 4)
  {
  }

  lemma SameConfig(m: Memory, m': Memory, pos: nat, limit: nat, r: Parsed<(seq<seq<Interface>>, seq<byte>)>)
    requires Agree(m, m', pos, limit) && pos + 9 <= limit
    ensures ConfigFrom(m, pos, r) == ConfigFrom(m', pos, r)
  {
  }

  // ---------------------------------------------------------------- and what is read does

  /** The same memory but for one byte. */
  function With(mem: Memory, at: nat, v: byte): Memory {
    (k: nat) => if k == at then v else mem(k)
  }

  lemma WithAgrees(mem: Memory, at: nat, v: byte)
    ensures Agree(mem, With(mem, at, v), 0, at) && With(mem, at, v)(at) == v
  {
  }

  /** One more in front. */
  function Cons<T>(x: T, r: Parsed<seq<T>>): Parsed<seq<T>> {
    if r.Failed? then Failed else Parsed([x] + r.value, r.pos, r.size)
  }

  lemma ConsDiffers<T>(x: T, r: Parsed<seq<T>>, r': Parsed<seq<T>>)
    requires r != r'
    ensures Cons(x, r) != Cons(x, r')
  {
    if r.Parsed? && r'.Parsed? {
      assert ([x] + r.value)[1..] == r.value && ([x] + r'.value)[1..] == r'.value;
    }
  }

  /** Parsing leaves at most one byte: nothing more will be read, and nothing will fail. */
  predicate AtEnd<T>(r: Parsed<T>) {
    r.Parsed? ==> r.size < 2
  }

  lemma OtherByte(mem: Memory, at: nat, unless: byte) returns (v: byte)
    ensures v != mem(at) && (v == unless <==> mem(at) != unless)
  {
    v := if mem(at) != unless then unless else if unless == 0 then 1 else 0;
  }

  lemma {:induction false} EndpointsDiffer(mem: Memory, pos: nat, size: int, n: nat, end: nat) returns (v: byte)
    requires !EndpointsInside(mem, pos, size, n) && end == pos + size
    ensures ParseEndpoints(With(mem, end, v), pos, size, n) != ParseEndpoints(mem, pos, size, n)
    ensures AtEnd(ParseEndpoints(mem, pos, size, n)) && AtEnd(ParseEndpoints(With(mem, end, v), pos, size, n))
    decreases n
  {
    if size == 0 {
      v := OtherByte(mem, end, 0);
      EndpointAtEnd(mem, pos, n);
      EndpointAtEnd(With(mem, end, v), pos, n);
    } else if size == 1 {
      v := OtherByte(mem, end, DT_ENDPOINT);
      EndpointBeforeEnd(mem, pos, n);
      EndpointBeforeEnd(With(mem, end, v), pos, n);
    } else {
      v := LaterEndpointsDiffer(mem, pos, size, n, end);
    }
  }

  lemma EndpointAtEnd(mem: Memory, pos: nat, n: nat)
    requires n > 0
    ensures ParseEndpoints(mem, pos, 0, n) == if mem(pos) == 0 then Parsed(NoEndpoints(n), pos, 0) else Failed
  {
    if mem(pos) == 0 {
      NothingThere(mem, pos, 0);
      SameAgain(mem, pos, 0, n);
    }
  }

  lemma EndpointBeforeEnd(mem: Memory, pos: nat, n: nat)
    requires n > 0 && mem(pos) == 1
    ensures mem(pos + 1) != DT_ENDPOINT ==> ParseEndpoints(mem, pos, 1, n) == Parsed(NoEndpoints(n), pos, 1)
    ensures mem(pos + 1) == DT_ENDPOINT ==>
      var r := ParseEndpoints(mem, pos, 1, n); r.Failed? || (r.pos == pos + 1 && r.size == 0)
  {
    if mem(pos + 1) != DT_ENDPOINT {
      NothingThere(mem, pos, 1);
      SameAgain(mem, pos, 1, n);
    } else if n > 1 {
      EndpointAtEnd(mem, pos + 1, n - 1);
    }
  }

  lemma {:induction false} LaterEndpointsDiffer(mem: Memory, pos: nat, size: int, n: nat, end: nat) returns (v: byte)
    requires !EndpointsInside(mem, pos, size, n) && end == pos + size && size >= 2
    ensures ParseEndpoints(With(mem, end, v), pos, size, n) != ParseEndpoints(mem, pos, size, n)
    ensures AtEnd(ParseEndpoints(mem, pos, size, n)) && AtEnd(ParseEndpoints(With(mem, end, v), pos, size, n))
    decreases n, 0
  {
    var r := Skip(mem, pos + mem(pos), size - mem(pos), false);
    if r.size < 0 {
      v := OtherByte(mem, end, 0);
      WithAgrees(mem, end, v);
      LastExtraDiffers(mem, With(mem, end, v), pos, size, end, r.pos, r.size);
    } else {
      v := EndpointsDiffer(mem, r.pos, r.size, n - 1, end);
      WithAgrees(mem, end, v);
      RestDiffers(mem, With(mem, end, v), pos, size, n, end, r.pos, r.size);
    }
  }

  /** The extras of the last endpoint end behind the input. */
  lemma LastExtraDiffers(m: Memory, m': Memory, pos: nat, size: int, end: nat, p: nat, t: int)
    requires Agree(m, m', 0, end) && m(end) != m'(end) && end == pos + size && size >= 2
    requires m(pos) <= size && m(pos + 1) == DT_ENDPOINT && SkipsTo(m, pos + m(pos), size - m(pos), p, t) && t < 0
    ensures ParseEndpoints(m, pos, size, 1) != ParseEndpoints(m', pos, size, 1)
    ensures AtEnd(ParseEndpoints(m, pos, size, 1)) && AtEnd(ParseEndpoints(m', pos, size, 1))
  {
    var begin := pos + m(pos);
    SkipAgrees(m, m', 0, end, begin, size - m(pos), false);
    EndpointFound(m, pos, size);
    EndpointFound(m', pos, size);
    ExtraDiffers(m, m', begin, p, end);
    EndpointExtra(m, pos, Slice(m, begin, p));
    EndpointExtra(m', pos, Slice(m', begin, p));
    OneEndpoint(m, pos, size);
    OneEndpoint(m', pos, size);
  }

  lemma OneEndpoint(mem: Memory, pos: nat, size: int)
    ensures var r := ParseEndpoint(mem, pos, size);
      ParseEndpoints(mem, pos, size, 1) == if r.Failed? then Failed else Parsed([r.value], r.pos, r.size)
  {
    var r := ParseEndpoint(mem, pos, size);
    if r.Parsed? {
      assert ParseEndpoints(mem, r.pos, r.size, 0) == Parsed([], r.pos, r.size);
      assert [r.value] + [] == [r.value];
    }
  }

  /** The first endpoint is the same, and the others are not. */
  lemma RestDiffers(m: Memory, m': Memory, pos: nat, size: int, n: nat, end: nat, p: nat, t: int)
    requires Agree(m, m', 0, end) && end == pos + size && size >= 2 && n > 0
    requires m(pos) <= size && m(pos + 1) == DT_ENDPOINT && SkipsTo(m, pos + m(pos), size - m(pos), p, t) && t >= 0
    requires ParseEndpoints(m, p, t, n - 1) != ParseEndpoints(m', p, t, n - 1)
    requires AtEnd(ParseEndpoints(m, p, t, n - 1)) && AtEnd(ParseEndpoints(m', p, t, n - 1))
    ensures ParseEndpoints(m, pos, size, n) != ParseEndpoints(m', pos, size, n)
    ensures AtEnd(ParseEndpoints(m, pos, size, n)) && AtEnd(ParseEndpoints(m', pos, size, n))
  {
    EndpointAgrees(m, m', 0, end, pos, size);
    EndpointFound(m, pos, size);
    EndpointsFrom(m, pos, size, n);
    EndpointsFrom(m', pos, size, n);
    ConsDiffers(ParseEndpoint(m, pos, size).value, ParseEndpoints(m, p, t, n - 1), ParseEndpoints(m', p, t, n - 1));
  }

  lemma EndpointsFrom(mem: Memory, pos: nat, size: int, n: nat)
    requires n > 0 && ParseEndpoint(mem, pos, size).Parsed?
    ensures var e := ParseEndpoint(mem, pos, size); var r := ParseEndpoints(mem, e.pos, e.size, n - 1);
      ParseEndpoints(mem, pos, size, n) == Cons(e.value, r)
  {
  }

  lemma EndpointExtra(mem: Memory, pos: nat, extra: seq<byte>)
    ensures EndpointAt(mem, pos, extra).extra == extra
  {
  }

  lemma {:induction false} ExtraDiffers(m: Memory, m': Memory, from: nat, end: nat, at: nat)
    requires from <= at < end && m(at) != m'(at)
    ensures Slice(m, from, end) != Slice(m', from, end)
    decreases end - from
  {
    SliceIndex(m, from, end, at - from);
    SliceIndex(m', from, end, at - from);
  }

  lemma AltDiffers(mem: Memory, pos: nat, size: int, end: nat) returns (v: byte)
    requires size >= INTERFACE_DESC_LENGTH && !AltInside(mem, pos, size) && end == pos + size
    ensures ParseAlt(With(mem, end, v), pos, size) != ParseAlt(mem, pos, size)
    ensures Ends(ParseAlt(mem, pos, size)) && Ends(ParseAlt(With(mem, end, v), pos, size))
  {
    var r := Skip(mem, pos + mem(pos), size - mem(pos), false);
    if r.size < 0 {
      v := OtherByte(mem, end, 0);
      WithAgrees(mem, end, v);
      AltExtraDiffers(mem, With(mem, end, v), pos, size, end, r.pos, r.size);
    } else {
      v := EndpointsDiffer(mem, r.pos, r.size, mem(pos + 4), end);
      WithAgrees(mem, end, v);
      AltEndpointsDiffer(mem, With(mem, end, v), pos, size, end, r.pos, r.size);
    }
  }

  /** The last alternate setting, with at most one byte left. */
  predicate Ends(r: Parsed<(Interface, bool)>) {
    AtEnd(r) && (r.Parsed? ==> r.value.1)
  }

  lemma AltExtraDiffers(m: Memory, m': Memory, pos: nat, size: int, end: nat, p: nat, t: int)
    requires Agree(m, m', 0, end) && m(end) != m'(end) && end == pos + size && size >= INTERFACE_DESC_LENGTH
    requires SkipsTo(m, pos + m(pos), size - m(pos), p, t) && t < 0 && p > pos + m(pos) && m(pos + 4) == 0
    ensures ParseAlt(m, pos, size) != ParseAlt(m', pos, size)
    ensures Ends(ParseAlt(m, pos, size)) && Ends(ParseAlt(m', pos, size))
  {
    var begin, left := pos + m(pos), size - m(pos);
    SkipAgrees(m, m', 0, end, begin, left, false);
    AltIs(m, pos, size, begin, left, p, t);
    AltIs(m', pos, size, begin, left, p, t);
    MovedFromInside(m, begin, size - m(pos), p, t);
    ExtraDiffers(m, m', begin, p, end);
    AltWithout(m, pos, begin, p, t);
    AltWithout(m', pos, begin, p, t);
  }

  lemma MovedFromInside(mem: Memory, pos: nat, size: int, p: nat, t: int)
    requires SkipsTo(mem, pos, size, p, t) && p > pos
    ensures size >= 2
  {
  }

  lemma AltWithout(mem: Memory, pos: nat, begin: nat, p: nat, t: int)
    requires begin <= p && mem(pos + 4) == 0 && t < 0
    ensures var r := AltFrom(mem, pos, begin, p, t);
      Ends(r) && r.Parsed? && r.value.0.extra == Slice(mem, begin, p)
  {
    assert ParseEndpoints(mem, p, t, 0) == Parsed([], p, t);
  }

  lemma AltEndpointsDiffer(m: Memory, m': Memory, pos: nat, size: int, end: nat, p: nat, t: int)
    requires Agree(m, m', 0, end) && end == pos + size && size >= INTERFACE_DESC_LENGTH
    requires SkipsTo(m, pos + m(pos), size - m(pos), p, t) && t >= 0 && m(pos + 4) <= USB_MAXENDPOINTS
    requires !(t >= DESC_HEADER_LENGTH && (m(p + 1) == DT_CONFIG || m(p + 1) == DT_DEVICE))
    requires ParseEndpoints(m, p, t, m(pos + 4)) != ParseEndpoints(m', p, t, m(pos + 4))
    requires AtEnd(ParseEndpoints(m, p, t, m(pos + 4))) && AtEnd(ParseEndpoints(m', p, t, m(pos + 4)))
    ensures ParseAlt(m, pos, size) != ParseAlt(m', pos, size)
    ensures Ends(ParseAlt(m, pos, size)) && Ends(ParseAlt(m', pos, size))
  {
    var begin, left := pos + m(pos), size - m(pos);
    SkipAgrees(m, m', 0, end, begin, left, false);
    AltIs(m, pos, size, begin, left, p, t);
    AltIs(m', pos, size, begin, left, p, t);
    assert m'(pos + 4) == m(pos + 4) && (t >= DESC_HEADER_LENGTH ==> m'(p + 1) == m(p + 1));
    AltFromDiffers(m, m', pos, begin, p, t, m(pos + 4));
  }

  lemma AltFromDiffers(m: Memory, m': Memory, pos: nat, begin: nat, p: nat, t: int, n: nat)
    requires begin <= p && m(pos + 4) == m'(pos + 4) == n <= USB_MAXENDPOINTS
    requires !(t >= DESC_HEADER_LENGTH && (m(p + 1) == DT_CONFIG || m(p + 1) == DT_DEVICE))
    requires !(t >= DESC_HEADER_LENGTH && (m'(p + 1) == DT_CONFIG || m'(p + 1) == DT_DEVICE))
    requires ParseEndpoints(m, p, t, n) != ParseEndpoints(m', p, t, n)
    requires AtEnd(ParseEndpoints(m, p, t, n)) && AtEnd(ParseEndpoints(m', p, t, n))
    ensures AltFrom(m, pos, begin, p, t) != AltFrom(m', pos, begin, p, t)
    ensures Ends(AltFrom(m, pos, begin, p, t)) && Ends(AltFrom(m', pos, begin, p, t))
  {
    AltWith(m, pos, begin, p, t);
    AltWith(m', pos, begin, p, t);
  }

  lemma AltWith(mem: Memory, pos: nat, begin: nat, p: nat, t: int)
    requires begin <= p && mem(pos + 4) <= USB_MAXENDPOINTS && AtEnd(ParseEndpoints(mem, p, t, mem(pos + 4)))
    requires !(t >= DESC_HEADER_LENGTH && (mem(p + 1) == DT_CONFIG || mem(p + 1) == DT_DEVICE))
    ensures var r := AltFrom(mem, pos, begin, p, t); var e := ParseEndpoints(mem, p, t, mem(pos + 4));
      && Ends(r) && (r.Failed? <==> e.Failed?)
      && (r.Parsed? ==> r.pos == e.pos && r.size == e.size && r.value.0.endpoints == e.value)
  {
  }

  lemma {:induction false} InterfaceDiffers(mem: Memory, pos: nat, size: int, end: nat) returns (v: byte)
    requires !InterfaceInside(mem, pos, size) && end == pos + size
    ensures ParseInterface(With(mem, end, v), pos, size) != ParseInterface(mem, pos, size)
    ensures AtEnd(ParseInterface(mem, pos, size)) && AtEnd(ParseInterface(With(mem, end, v), pos, size))
    ensures size >= INTERFACE_DESC_LENGTH
    decreases size
  {
    if !AltInside(mem, pos, size) {
      v := AltDiffers(mem, pos, size, end);
      LastAltDiffers(mem, With(mem, end, v), pos, size);
    } else {
      var r := ParseAlt(mem, pos, size);
      v := InterfaceDiffers(mem, r.pos, r.size, end);
      WithAgrees(mem, end, v);
      LaterAltDiffers(mem, With(mem, end, v), pos, size, end, r.pos, r.size);
    }
  }

  lemma LastAlt(mem: Memory, pos: nat, size: int)
    requires size >= INTERFACE_DESC_LENGTH && Ends(ParseAlt(mem, pos, size))
    ensures var r := ParseAlt(mem, pos, size);
      ParseInterface(mem, pos, size) == if r.Failed? then Failed else Parsed([r.value.0], r.pos, r.size)
  {
  }

  lemma MoreAlts(mem: Memory, pos: nat, size: int)
    requires size >= INTERFACE_DESC_LENGTH && ParseAlt(mem, pos, size).Parsed? && !ParseAlt(mem, pos, size).value.1
    ensures var r := ParseAlt(mem, pos, size); var i := ParseInterface(mem, r.pos, r.size);
      ParseInterface(mem, pos, size) == Cons(r.value.0, i)
  {
  }

  lemma LastAltDiffers(m: Memory, m': Memory, pos: nat, size: int)
    requires size >= INTERFACE_DESC_LENGTH && ParseAlt(m, pos, size) != ParseAlt(m', pos, size)
    requires Ends(ParseAlt(m, pos, size)) && Ends(ParseAlt(m', pos, size))
    ensures ParseInterface(m, pos, size) != ParseInterface(m', pos, size)
    ensures AtEnd(ParseInterface(m, pos, size)) && AtEnd(ParseInterface(m', pos, size))
  {
    LastAlt(m, pos, size);
    LastAlt(m', pos, size);
    var r, r' := ParseAlt(m, pos, size), ParseAlt(m', pos, size);
    if r.Parsed? && r'.Parsed? { assert [r.value.0][0] == r.value.0 && [r'.value.0][0] == r'.value.0; }
  }

  lemma LaterAltDiffers(m: Memory, m': Memory, pos: nat, size: int, end: nat, p: nat, t: int)
    requires Agree(m, m', 0, end) && end == pos + size && size >= INTERFACE_DESC_LENGTH && AltInside(m, pos, size)
    requires var r := ParseAlt(m, pos, size); r.Parsed? && !r.value.1 && r.pos == p && r.size == t
    requires ParseInterface(m, p, t) != ParseInterface(m', p, t)
    requires AtEnd(ParseInterface(m, p, t)) && AtEnd(ParseInterface(m', p, t))
    ensures ParseInterface(m, pos, size) != ParseInterface(m', pos, size)
    ensures AtEnd(ParseInterface(m, pos, size)) && AtEnd(ParseInterface(m', pos, size))
  {
    AltAgrees(m, m', 0, end, pos, size);
    MoreAlts(m, pos, size);
    MoreAlts(m', pos, size);
    ConsDiffers(ParseAlt(m, pos, size).value.0, ParseInterface(m, p, t), ParseInterface(m', p, t));
  }

  /** With at most one byte left, the interfaces that are still to come have no settings. */
  function Empty(n: nat): seq<seq<Interface>> {
    if n == 0 then [] else [[]] + Empty(n - 1)
  }

  lemma {:induction false} NothingLeft(mem: Memory, pos: nat, size: int, n: nat, extra: seq<byte>)
    requires size < 2
    ensures ParseInterfaces(mem, pos, size, n, extra) == Parsed((Empty(n), extra), pos, size)
    decreases n
  {
    if n > 0 {
      assert Slice(mem, pos, pos) == [];
      NothingLeft(mem, pos, size, n - 1, extra);
    }
  }

  lemma {:induction false} InterfacesDiffer(mem: Memory, pos: nat, size: int, n: nat, extra: seq<byte>, end: nat)
    returns (v: byte)
    requires !InterfacesInside(mem, pos, size, n) && end == pos + size
    ensures ParseInterfaces(With(mem, end, v), pos, size, n, extra) != ParseInterfaces(mem, pos, size, n, extra)
    ensures size >= INTERFACE_DESC_LENGTH
    decreases n
  {
    var r := Skip(mem, pos, size, true);
    if !InterfaceInside(mem, r.pos, r.size) {
      v := InterfaceDiffers(mem, r.pos, r.size, end);
      WithAgrees(mem, end, v);
      LastInterfaceDiffers(mem, With(mem, end, v), pos, size, n, extra, end, r.pos, r.size);
    } else {
      var i := ParseInterface(mem, r.pos, r.size);
      var extra' := if extra == [] then Slice(mem, pos, r.pos) else extra;
      v := InterfacesDiffer(mem, i.pos, i.size, n - 1, extra', end);
      WithAgrees(mem, end, v);
      LaterInterfaceDiffers(mem, With(mem, end, v), pos, size, n, extra, end, r.pos, r.size, i.pos, i.size);
    }
  }

  /** `n` interfaces, where the first one begins at `p`. */
  lemma InterfacesFrom(mem: Memory, pos: nat, size: int, n: nat, extra: seq<byte>, p: nat, t: int)
    requires n > 0 && Skip(mem, pos, size, true).Parsed? && Skip(mem, pos, size, true).pos == p
    requires Skip(mem, pos, size, true).size == t
    ensures ParseInterface(mem, p, t).Failed? ==> ParseInterfaces(mem, pos, size, n, extra) == Failed
    ensures var extra' := if extra == [] then Slice(mem, pos, p) else extra; var i := ParseInterface(mem, p, t);
      i.Parsed? ==>
        var r := ParseInterfaces(mem, i.pos, i.size, n - 1, extra');
        ParseInterfaces(mem, pos, size, n, extra)
        == ConsFirst(i.value, r)
  {
  }

  function ConsFirst<T, U>(x: T, r: Parsed<(seq<T>, U)>): Parsed<(seq<T>, U)> {
    if r.Failed? then Failed else Parsed(([x] + r.value.0, r.value.1), r.pos, r.size)
  }

  lemma ConsFirstDiffers<T, U>(x: T, x': T, r: Parsed<(seq<T>, U)>, r': Parsed<(seq<T>, U)>)
    requires r != r' || (x != x' && r.Parsed?)
    ensures ConsFirst(x, r) != ConsFirst(x', r')
  {
    if r.Parsed? && r'.Parsed? {
      var a, a' := [x] + r.value.0, [x'] + r'.value.0;
      assert a[0] == x && a'[0] == x' && a[1..] == r.value.0 && a'[1..] == r'.value.0;
    }
  }

  lemma LastInterfaceDiffers(m: Memory, m': Memory, pos: nat, size: int, n: nat, extra: seq<byte>, end: nat,
                             p: nat, t: int)
    requires Agree(m, m', 0, end) && end == pos + size && n > 0
    requires Skip(m, pos, size, true).Parsed? && Skip(m, pos, size, true).pos == p && Skip(m, pos, size, true).size == t
    requires ParseInterface(m, p, t) != ParseInterface(m', p, t)
    requires AtEnd(ParseInterface(m, p, t)) && AtEnd(ParseInterface(m', p, t))
    ensures ParseInterfaces(m, pos, size, n, extra) != ParseInterfaces(m', pos, size, n, extra)
  {
    SkipAgrees(m, m', 0, end, pos, size, true);
    LastInterface(m, pos, size, n, extra, p, t);
    LastInterface(m', pos, size, n, extra, p, t);
    var i, i' := ParseInterface(m, p, t), ParseInterface(m', p, t);
    if i.Parsed? && i'.Parsed? {
      assert ([i.value] + Empty(n - 1))[0] == i.value && ([i'.value] + Empty(n - 1))[0] == i'.value;
    }
  }

  lemma LastInterface(mem: Memory, pos: nat, size: int, n: nat, extra: seq<byte>, p: nat, t: int)
    requires n > 0 && Skip(mem, pos, size, true).Parsed? && Skip(mem, pos, size, true).pos == p
    requires Skip(mem, pos, size, true).size == t && AtEnd(ParseInterface(mem, p, t))
    ensures var i := ParseInterface(mem, p, t); var extra' := if extra == [] then Slice(mem, pos, p) else extra;
      ParseInterfaces(mem, pos, size, n, extra)
      == if i.Failed? then Failed else Parsed(([i.value] + Empty(n - 1), extra'), i.pos, i.size)
  {
    InterfacesFrom(mem, pos, size, n, extra, p, t);
    var i := ParseInterface(mem, p, t);
    if i.Parsed? { NothingLeft(mem, i.pos, i.size, n - 1, if extra == [] then Slice(mem, pos, p) else extra); }
  }

  lemma LaterInterfaceDiffers(m: Memory, m': Memory, pos: nat, size: int, n: nat, extra: seq<byte>, end: nat,
                              p: nat, t: int, p': nat, t': int)
    requires Agree(m, m', 0, end) && end == pos + size && n > 0 && size >= 0
    requires Skip(m, pos, size, true).Parsed? && Skip(m, pos, size, true).pos == p && Skip(m, pos, size, true).size == t
    requires InterfaceInside(m, p, t) && ParseInterface(m, p, t).Parsed?
    requires ParseInterface(m, p, t).pos == p' && ParseInterface(m, p, t).size == t'
    requires var extra' := if extra == [] then Slice(m, pos, p) else extra;
      ParseInterfaces(m, p', t', n - 1, extra') != ParseInterfaces(m', p', t', n - 1, extra')
    ensures ParseInterfaces(m, pos, size, n, extra) != ParseInterfaces(m', pos, size, n, extra)
  {
    SkipAgrees(m, m', 0, end, pos, size, true);
    SkipReach(m, pos, size, true);
    SliceAgrees(m, m', 0, end, pos, p);
    InterfaceAgrees(m, m', 0, end, p, t);
    InterfacesFrom(m, pos, size, n, extra, p, t);
    InterfacesFrom(m', pos, size, n, extra, p, t);
    var i, extra' := ParseInterface(m, p, t).value, if extra == [] then Slice(m, pos, p) else extra;
    ConsFirstDiffers(i, i, ParseInterfaces(m, p', t', n - 1, extra'), ParseInterfaces(m', p', t', n - 1, extra'));
  }

  lemma ConfigDiffers(m: Memory, m': Memory, pos: nat, r: Parsed<(seq<seq<Interface>>, seq<byte>)>,
                      r': Parsed<(seq<seq<Interface>>, seq<byte>)>)
    requires r != r'
    ensures ConfigFrom(m, pos, r) != ConfigFrom(m', pos, r')
  {
    if r.Parsed? && r'.Parsed? {
      var c, c' := ConfigFrom(m, pos, r).value, ConfigFrom(m', pos, r').value;
      assert c.interfaces == r.value.0 && c.extra == r.value.1 && c'.interfaces == r'.value.0 && c'.extra == r'.value.1;
    }
  }

  /** If the parser does not stay inside, the byte behind the input makes a difference. */
  lemma NextByteMatters(mem: Memory, pos: nat) returns (v: byte)
    requires !Inside(mem, pos)
    ensures End(mem, pos) >= pos + 9
    ensures ParseConfiguration(With(mem, End(mem, pos), v), pos) != ParseConfiguration(mem, pos)
  {
    var at, size, n, end := pos + mem(pos), Word(mem, pos + 2) - mem(pos), mem(pos + 4), End(mem, pos);
    v := InterfacesDiffer(mem, at, size, n, [], end);
    WithAgrees(mem, end, v);
    SameHeader(mem, With(mem, end, v), pos, end);
    ConfigIs(mem, pos, at, size, n);
    ConfigIs(With(mem, end, v), pos, at, size, n);
    ConfigDiffers(mem, With(mem, end, v), pos, ParseInterfaces(mem, at, size, n, []),
                  ParseInterfaces(With(mem, end, v), at, size, n, []));
  }

  /** What is parsed is a function of the input exactly when the parser stays inside. */
  lemma DependsOnInputIff(mem: Memory, pos: nat)
    ensures (forall m: Memory | Agree(mem, m, pos, Max(pos + 9, End(mem, pos))) ::
               ParseConfiguration(m, pos) == ParseConfiguration(mem, pos))
       <==> Inside(mem, pos)
  {
    if Inside(mem, pos) {
      forall m: Memory | Agree(mem, m, pos, Max(pos + 9, End(mem, pos)))
        ensures ParseConfiguration(m, pos) == ParseConfiguration(mem, pos)
      {
        OutcomeIsLocal(mem, m, pos);
      }
    } else {
      var v := NextByteMatters(mem, pos);
      var m := With(mem, End(mem, pos), v);
      assert Agree(mem, m, pos, Max(pos + 9, End(mem, pos)));
    }
  }

  /** What a well-formed configuration is serialised to keeps the parser inside. */
  lemma WellFormedInside(mem: Memory, pos: nat, c: Config)
    requires ConfigWellFormed(c) && At(mem, pos, ConfigBytes(c))
    ensures Inside(mem, pos)
  {
    ConfigParts(mem, pos, c);
    BytesCount(c);
    var limit := Max(pos + 9, End(mem, pos));
    forall m: Memory | Agree(mem, m, pos, limit)
      ensures ParseConfiguration(m, pos) == ParseConfiguration(mem, pos)
    {
      SliceAgrees(mem, m, pos, limit, pos, pos + |ConfigBytes(c)|);
      SameOutcome(mem, m, pos, c);
    }
    DependsOnInputIff(mem, pos);
  }

  lemma BytesCount(c: Config)
    requires ConfigWellFormed(c)
    ensures |ConfigBytes(c)| == c.wTotalLength
  {
  }

  lemma SameOutcome(m: Memory, m': Memory, pos: nat, c: Config)
    requires ConfigWellFormed(c) && At(m, pos, ConfigBytes(c)) && At(m', pos, ConfigBytes(c))
    ensures ParseConfiguration(m, pos) == ParseConfiguration(m', pos)
  {
    if c.interfaces != [] {
      ConfigRoundTrip(m, pos, c);
      ConfigRoundTrip(m', pos, c);
    } else {
      NoInterface(m, pos, c);
      NoInterface(m', pos, c);
    }
  }

  // ---------------------------------------------------------------- the farthest byte

  /** One interface without endpoints, and the two header bytes of a class specific descriptor of length 255. */
  const CUT_SHORT: seq<byte> :=
    [9, DT_CONFIG, 20, 0, 1, 1, 0, 0x80, 50] + [9, DT_INTERFACE, 0, 0, 0, 0xFF, 0, 0, 0] + [255, 0x24]

  lemma CutShort(mem: Memory)
    requires At(mem, 0, CUT_SHORT)
    ensures End(mem, 0) == 20 && !Inside(mem, 0)
    ensures var r := ParseConfiguration(mem, 0);
      r.Parsed? && r.value.interfaces == [[InterfaceAt(mem, 9, Slice(mem, 18, 273), [])]]
  {
    CutShortBytes(mem);
    assert SkipsTo(mem, 18, 2, 273, -253);
    AltIs(mem, 9, 11, 18, 2, 273, -253);
    var setting := InterfaceAt(mem, 9, Slice(mem, 18, 273), []);
    assert AltFrom(mem, 9, 18, 273, -253) == Parsed((setting, true), 273, -253) by {
      assert ParseEndpoints(mem, 273, -253, 0) == Parsed([], 273, -253);
    }
    LastAlt(mem, 9, 11);
    assert Skip(mem, 9, 11, true) == Parsed((), 9, 11);
    assert !AltInside(mem, 9, 11) && !InterfaceInside(mem, 9, 11);
    InterfacesFrom(mem, 9, 11, 1, [], 9, 11);
    NothingLeft(mem, 273, -253, 0, Slice(mem, 9, 9));
  }

  lemma CutShortBytes(mem: Memory)
    requires At(mem, 0, CUT_SHORT)
    ensures mem(0) == 9 && mem(2) == 20 && mem(3) == 0 && mem(4) == 1
    ensures mem(9) == 9 && mem(10) == DT_INTERFACE && mem(13) == 0 && mem(18) == 255 && mem(19) == 0x24
  {
    forall k | 0 <= k < 20 ensures mem(k) == CUT_SHORT[k] { SliceIndex(mem, 0, 20, k); }
  }

  /** Its outcome depends on the byte 253 bytes on, the last one that can make a difference. */
  lemma FarthestByte() returns (m: Memory, m': Memory)
    ensures At(m, 0, CUT_SHORT) && End(m, 0) == 20 && Agree(m, m', 0, 20 + BEYOND - 1)
    ensures ParseConfiguration(m, 0) != ParseConfiguration(m', 0)
  {
    m := Holding(CUT_SHORT);
    m' := With(m, 272, 1);
    HoldingAt(CUT_SHORT, 0);
    WithAgrees(m, 272, 1);
    SliceAgrees(m, m', 0, 272, 0, 20);
    CutShort(m);
    CutShort(m');
    ExtraDiffers(m, m', 18, 273, 272);
    SettingExtra(m, Slice(m, 18, 273));
    SettingExtra(m', Slice(m', 18, 273));
    var r, r' := ParseConfiguration(m, 0), ParseConfiguration(m', 0);
    assert r.value.interfaces[0][0].extra != r'.value.interfaces[0][0].extra;
  }

  lemma SettingExtra(mem: Memory, extra: seq<byte>)
    ensures InterfaceAt(mem, 9, extra, []).extra == extra
  {
  }
}
