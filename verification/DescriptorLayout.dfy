/** What the parser of Descriptors makes of its input, said of the bytes: which offset each field is at (tables
9-10, 9-12 and 9-13 of the Universal Serial Bus Specification, Revision 2.0), where descriptors that are
skipped end, and which input is refused.
*/
module DescriptorLayout {
  import opened Bytes
  import opened Descriptors

  // ---------------------------------------------------------------- skipping

  /** Where the `k`-th descriptor from `pos` on begins. */
  function Chain(mem: Memory, pos: nat, k: nat): (p: nat)
    ensures p >= pos
    decreases k
  {
    if k == 0 then pos else Chain(mem, pos + mem(pos), k - 1)
  }

  /** The `k`-th descriptor from `pos` on has its header within the `size` bytes from there. */
  predicate HeaderAt(mem: Memory, pos: nat, size: int, k: nat) {
    Chain(mem, pos, k) - pos + 2 <= size
  }

  /** It is shorter than its own header, or (if that is looked at) ends behind the input. */
  predicate BadLength(mem: Memory, pos: nat, size: int, checked: bool, k: nat) {
    var p := Chain(mem, pos, k);
    mem(p) < 2 || (checked && p - pos + mem(p) > size)
  }

  /** It is a device, configuration, interface or endpoint descriptor. */
  predicate StandardType(mem: Memory, pos: nat, k: nat) {
    var t := mem(Chain(mem, pos, k) + 1);
    t == 1 || t == 2 || t == 4 || t == 5
  }

  /** The first `k` descriptors are class or vendor specific, of proper length. */
  predicate Passes(mem: Memory, pos: nat, size: int, checked: bool, k: nat) {
    forall i: nat | i < k ::
      HeaderAt(mem, pos, size, i) && !BadLength(mem, pos, size, checked, i) && !StandardType(mem, pos, i)
  }

  lemma PassesNext(mem: Memory, pos: nat, size: int, checked: bool, k: nat)
    requires HeaderAt(mem, pos, size, 0) && !BadLength(mem, pos, size, checked, 0) && !StandardType(mem, pos, 0)
    requires Passes(mem, pos + mem(pos), size - mem(pos), checked, k)
    ensures Passes(mem, pos, size, checked, k + 1)
  {
    forall i: nat | i < k + 1
      ensures HeaderAt(mem, pos, size, i) && !BadLength(mem, pos, size, checked, i) && !StandardType(mem, pos, i)
    {
      if i > 0 {
        assert HeaderAt(mem, pos + mem(pos), size - mem(pos), i - 1);
        ChainNext(mem, pos, i);
      }
    }
  }

  lemma ChainNext(mem: Memory, pos: nat, k: nat)
    requires k > 0
    ensures Chain(mem, pos, k) == Chain(mem, pos + mem(pos), k - 1)
  {
  }

  /** The outcome of skipping that comes to the `k`-th descriptor: failure at one of improper length, and else
      a stop at a standard one, or where no header is left. */
  predicate EndsAt(mem: Memory, pos: nat, size: int, checked: bool, k: nat) {
    var r := Skip(mem, pos, size, checked);
    if r.Failed? then HeaderAt(mem, pos, size, k) && BadLength(mem, pos, size, checked, k)
    else
      && r.pos == Chain(mem, pos, k) && r.size == size - (r.pos - pos)
      && (!HeaderAt(mem, pos, size, k) || (!BadLength(mem, pos, size, checked, k) && StandardType(mem, pos, k)))
  }

  lemma EndsNext(mem: Memory, pos: nat, size: int, checked: bool, next: nat, left: int, k: nat)
    requires next == pos + mem(pos) && left == size - mem(pos) && EndsAt(mem, next, left, checked, k)
    requires Skip(mem, pos, size, checked) == Skip(mem, next, left, checked)
    ensures EndsAt(mem, pos, size, checked, k + 1)
  {
    ChainNext(mem, pos, k + 1);
  }

  /** Skipping passes all class and vendor specific descriptors up to there. */
  lemma {:induction false} SkipOutcome(mem: Memory, pos: nat, size: int, checked: bool) returns (k: nat)
    ensures Passes(mem, pos, size, checked, k) && EndsAt(mem, pos, size, checked, k)
    decreases size
  {
    if size < 2 || mem(pos) < 2 || (checked && mem(pos) > size) || Proper(mem(pos + 1)) {
      k := 0;
    } else {
      var next, left := pos + mem(pos), size - mem(pos);
      k := SkipOutcome(mem, next, left, checked);
      PassesNext(mem, pos, size, checked, k);
      EndsNext(mem, pos, size, checked, next, left, k);
      k := k + 1;
    }
  }

  lemma {:induction false} SliceIs(mem: Memory, from: nat, end: nat)
    requires from <= end
    ensures forall k: nat | k < end - from :: Slice(mem, from, end)[k] == mem(from + k)
  {
    forall k: nat | k < end - from ensures Slice(mem, from, end)[k] == mem(from + k) {
      SliceIndex(mem, from, end, k);
    }
  }

  /** The bytes from `from` on. */
  ghost predicate Copies(extra: seq<byte>, mem: Memory, from: nat, end: nat) {
    from <= end && |extra| == end - from && forall k: nat | k < |extra| :: extra[k] == mem(from + k)
  }

  // ---------------------------------------------------------------- endpoints

  /** The fields of an endpoint descriptor: none if it is too short, and two more if it is an audio one. */
  predicate EndpointFields(e: Endpoint, mem: Memory, p: nat) {
    if mem(p) >= 7 then
      && e.bLength == mem(p) && e.bDescriptorType == mem(p + 1) && e.bEndpointAddress == mem(p + 2)
      && e.bmAttributes == mem(p + 3) && e.wMaxPacketSize == mem(p + 4) + 256 * mem(p + 5) && e.bInterval == mem(p + 6)
      && e.bRefresh == (if mem(p) >= 9 then mem(p + 7) else 0)
      && e.bSynchAddress == (if mem(p) >= 9 then mem(p + 8) else 0)
    else
      && e.bLength == e.bDescriptorType == e.bEndpointAddress == e.bmAttributes == e.bInterval == 0
      && e.wMaxPacketSize == 0 && e.bRefresh == e.bSynchAddress == 0
  }

  lemma EndpointAtFields(mem: Memory, p: nat, extra: seq<byte>)
    ensures EndpointFields(EndpointAt(mem, p, extra), mem, p) && EndpointAt(mem, p, extra).extra == extra
  {
  }

  /** A descriptor that is too long for what is left is refused; one of another type is left where it is; and
      an endpoint takes its fields, and what is skipped behind it as its extras. */
  lemma EndpointOutcome(mem: Memory, pos: nat, size: int)
    ensures var r := ParseEndpoint(mem, pos, size);
      if mem(pos) > size then r.Failed?
      else if mem(pos + 1) != 5 then r == Parsed(NO_ENDPOINT, pos, size)
      else
        var skipped := Skip(mem, pos + mem(pos), size - mem(pos), false);
        && (r.Failed? <==> skipped.Failed?)
        && (r.Parsed? ==>
              && r.pos == skipped.pos && r.size == skipped.size
              && EndpointFields(r.value, mem, pos) && Copies(r.value.extra, mem, pos + mem(pos), r.pos))
  {
    if mem(pos) <= size && mem(pos + 1) == 5 {
      var skipped := Skip(mem, pos + mem(pos), size - mem(pos), false);
      if skipped.Parsed? {
        SliceIs(mem, pos + mem(pos), skipped.pos);
        EndpointAtFields(mem, pos, Slice(mem, pos + mem(pos), skipped.pos));
      }
    }
  }

  /** Endpoints are parsed one behind the other, exactly as many as asked for; one that fails, fails all. */
  lemma EndpointsOutcome(mem: Memory, pos: nat, size: int, n: nat)
    requires n > 0
    ensures var first := ParseEndpoint(mem, pos, size); var r := ParseEndpoints(mem, pos, size, n);
      if first.Failed? then r.Failed?
      else
        var rest := ParseEndpoints(mem, first.pos, first.size, n - 1);
        && (r.Failed? <==> rest.Failed?)
        && (r.Parsed? ==>
              |r.value| == n && r.value[0] == first.value && r.value[1..] == rest.value
              && r.pos == rest.pos && r.size == rest.size)
  {
  }

  // ---------------------------------------------------------------- alternate settings

  predicate SettingFields(i: Interface, mem: Memory, p: nat) {
    && i.bLength == mem(p) && i.bDescriptorType == mem(p + 1) && i.bInterfaceNumber == mem(p + 2)
    && i.bAlternateSetting == mem(p + 3) && i.bNumEndpoints == mem(p + 4) && i.bInterfaceClass == mem(p + 5)
    && i.bInterfaceSubClass == mem(p + 6) && i.bInterfaceProtocol == mem(p + 7) && i.iInterface == mem(p + 8)
  }

  /** One alternate setting: its fields and what is skipped behind it. A configuration or device descriptor
      there ends it without endpoints; more than 32 endpoints are refused. */
  lemma SettingOutcome(mem: Memory, pos: nat, size: int)
    ensures var skipped := Skip(mem, pos + mem(pos), size - mem(pos), false); var r := ParseAlt(mem, pos, size);
      if skipped.Failed? then r.Failed?
      else
        var (p, t) := (skipped.pos, skipped.size);
        if t >= 2 && (mem(p + 1) == 1 || mem(p + 1) == 2) then
          && r.Parsed? && r.pos == p && r.size == t && r.value.1 && r.value.0.endpoints == []
          && SettingFields(r.value.0, mem, pos) && Copies(r.value.0.extra, mem, pos + mem(pos), p)
        else if mem(pos + 4) > 32 then r.Failed?
        else
          var es := ParseEndpoints(mem, p, t, mem(pos + 4));
          && (r.Failed? <==> es.Failed?)
          && (r.Parsed? ==>
                && r.pos == es.pos && r.size == es.size && r.value.0.endpoints == es.value
                && SettingFields(r.value.0, mem, pos) && Copies(r.value.0.extra, mem, pos + mem(pos), p)
                && (r.value.1 <==> es.size < 9 || mem(es.pos + 1) != 4 || mem(es.pos + 3) == 0))
  {
    var skipped := Skip(mem, pos + mem(pos), size - mem(pos), false);
    if skipped.Parsed? {
      AltIs(mem, pos, size, pos + mem(pos), size - mem(pos), skipped.pos, skipped.size);
      SettingFrom(mem, pos, pos + mem(pos), skipped.pos, skipped.size);
    }
  }

  lemma SettingFrom(mem: Memory, pos: nat, begin: nat, p: nat, t: int)
    requires begin <= p
    ensures var r := AltFrom(mem, pos, begin, p, t);
      if t >= 2 && (mem(p + 1) == 1 || mem(p + 1) == 2) then
        && r.Parsed? && r.pos == p && r.size == t && r.value.1 && r.value.0.endpoints == []
        && SettingFields(r.value.0, mem, pos) && Copies(r.value.0.extra, mem, begin, p)
      else if mem(pos + 4) > 32 then r.Failed?
      else
        var es := ParseEndpoints(mem, p, t, mem(pos + 4));
        && (r.Failed? <==> es.Failed?)
        && (r.Parsed? ==>
              && r.pos == es.pos && r.size == es.size && r.value.0.endpoints == es.value
              && SettingFields(r.value.0, mem, pos) && Copies(r.value.0.extra, mem, begin, p)
              && (r.value.1 <==> es.size < 9 || mem(es.pos + 1) != 4 || mem(es.pos + 3) == 0))
  {
    SliceIs(mem, begin, p);
  }

  /** All alternate settings of an interface, one behind the other, up to the one that is the last. Fewer than
      nine bytes hold none. */
  lemma SettingsOutcome(mem: Memory, pos: nat, size: int)
    ensures var r := ParseInterface(mem, pos, size);
      if size < 9 then r == Parsed([], pos, size)
      else
        var first := ParseAlt(mem, pos, size);
        if first.Failed? then r.Failed?
        else if first.value.1 then r == Parsed([first.value.0], first.pos, first.size)
        else
          var rest := ParseInterface(mem, first.pos, first.size);
          && (r.Failed? <==> rest.Failed?)
          && (r.Parsed? ==>
                && r.value == [first.value.0] + rest.value && r.pos == rest.pos && r.size == rest.size)
  {
  }

  // ---------------------------------------------------------------- the configuration

  predicate ConfigFields(c: Config, mem: Memory, p: nat) {
    && c.bLength == mem(p) && c.bDescriptorType == mem(p + 1) && c.wTotalLength == mem(p + 2) + 256 * mem(p + 3)
    && c.bNumInterfaces == mem(p + 4) && c.bConfigurationValue == mem(p + 5) && c.iConfiguration == mem(p + 6)
    && c.bmAttributes == mem(p + 7) && c.maxPower == mem(p + 8)
  }

  /** Before each interface, descriptors are skipped; the first ones of these that there are become the
      configuration's extras. */
  lemma InterfacesOutcome(mem: Memory, pos: nat, size: int, n: nat, extra: seq<byte>)
    requires n > 0
    ensures var skipped := Skip(mem, pos, size, true); var r := ParseInterfaces(mem, pos, size, n, extra);
      if skipped.Failed? then r.Failed?
      else
        var first := ParseInterface(mem, skipped.pos, skipped.size);
        if first.Failed? then r.Failed?
        else
          var extra' := if extra == [] then Slice(mem, pos, skipped.pos) else extra;
          var rest := ParseInterfaces(mem, first.pos, first.size, n - 1, extra');
          && Copies(Slice(mem, pos, skipped.pos), mem, pos, skipped.pos)
          && (r.Failed? <==> rest.Failed?)
          && (r.Parsed? ==>
                && r.value.0 == [first.value] + rest.value.0 && r.value.1 == rest.value.1
                && r.pos == rest.pos && r.size == rest.size)
  {
    var skipped := Skip(mem, pos, size, true);
    if skipped.Parsed? { SliceIs(mem, pos, skipped.pos); }
  }

  /** A configuration of more than 32 interfaces is refused; any other takes its fields and its interfaces. */
  lemma ConfigOutcome(mem: Memory, pos: nat)
    ensures var r := ParseConfiguration(mem, pos);
      if mem(pos + 4) > 32 then r.Failed?
      else
        var size := mem(pos + 2) + 256 * mem(pos + 3) - mem(pos);
        var all := ParseInterfaces(mem, pos + mem(pos), size, mem(pos + 4), []);
        && (r.Failed? <==> all.Failed?)
        && (r.Parsed? ==>
              && ConfigFields(r.value, mem, pos) && r.value.interfaces == all.value.0 && r.value.extra == all.value.1
              && |r.value.interfaces| == mem(pos + 4) && r.pos == all.pos && r.size == all.size)
  {
    var size := mem(pos + 2) + 256 * mem(pos + 3) - mem(pos);
    assert size == Word(mem, pos + 2) - mem(pos);
  }
}
