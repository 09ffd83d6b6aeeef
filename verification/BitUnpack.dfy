/** Unpacking of big-endian packed samples (cameras.c: convert_packed_to_16bit, convert_packed_to_8bit).

The specification looks at a buffer as a string of bits. The code shifts bytes through a 32-bit
accumulator, out of which the oldest bits fall. `(buffer << 8) | b` is `buffer * 256 + b` and
`(buffer >> n) & mask` is `buffer / 2^n % 2^vw`, because the parts do not overlap.
*/
module BitUnpack {
  import opened Arithmetic
  import opened Bytes

  type bit = x: int | 0 <= x < 2
  type uint16 = x: int | 0 <= x < 0x1_0000

  const TWO_TO_THE_32: nat := 0x1_0000_0000

  function Pow2(n: nat): (r: nat)
    ensures r > 0
  {
    if n == 0 then 1 else 2 * Pow2(n - 1)
  }

  lemma {:induction false} Pow2Add(a: nat, b: nat)
    ensures Pow2(a + b) == Pow2(a) * Pow2(b)
  {
    if b > 0 {
      Pow2Add(a, b - 1);
      assert Pow2(a + b) == 2 * Pow2(a + (b - 1));
    }
  }

  lemma Pow2Of8()
    ensures Pow2(8) == 256
  {
    assert Pow2(4) == 16;
    Pow2Add(4, 4);
  }

  lemma Pow2Of32()
    ensures Pow2(32) == TWO_TO_THE_32
  {
    Pow2Of8();
    Pow2Add(8, 8);
    Pow2Add(16, 16);
  }

  // ---------------------------------------------------------------- bits

  /** The number that a string of bits stands for, most significant bit first. */
  function Value(bits: seq<bit>): (v: nat) {
    if bits == [] then 0 else 2 * Value(bits[..|bits| - 1]) + bits[|bits| - 1]
  }

  lemma {:induction false} ValueBound(bits: seq<bit>)
    ensures Value(bits) < Pow2(|bits|)
  {
    if bits != [] { ValueBound(bits[..|bits| - 1]); }
  }

  lemma {:induction false} ValueAppend(a: seq<bit>, b: seq<bit>)
    ensures Value(a + b) == Value(a) * Pow2(|b|) + Value(b)
  {
    if b == [] {
      assert a + b == a;
    } else {
      var b', last := b[..|b| - 1], b[|b| - 1];
      ValueSnoc(a + b', last);
      ValueSnoc(b', last);
      assert a + b == a + b' + [last] && b == b' + [last];
      ValueAppend(a, b');
      Double(Value(a), Pow2(|b'|));
    }
  }

  lemma ValueSnoc(a: seq<bit>, last: bit)
    ensures Value(a + [last]) == 2 * Value(a) + last
  {
    assert (a + [last])[..|a|] == a;
  }

  lemma Double(x: nat, y: nat)
    ensures x * (2 * y) == 2 * (x * y)
  {
  }

  lemma Join<T>(s: seq<T>, i: nat, j: nat, k: nat)
    requires i <= j <= k <= |s|
    ensures s[i..j] + s[j..k] == s[i..k]
  {
  }

  /** The `n` lowest bits of a number. */
  function ToBits(v: nat, n: nat): (bits: seq<bit>)
    ensures |bits| == n
  {
    if n == 0 then [] else ToBits(v / 2, n - 1) + [v % 2]
  }

  lemma {:induction false} ValueOfToBits(v: nat, n: nat)
    ensures Value(ToBits(v, n)) == v % Pow2(n)
  {
    if n > 0 {
      ValueOfToBits(v / 2, n - 1);
      HalfModulo(v, Pow2(n - 1));
    }
  }

  lemma HalfModulo(v: nat, p: nat)
    requires p > 0
    ensures v % (2 * p) == 2 * (v / 2 % p) + v % 2
  {
    var q, r := v / 2 / p, v / 2 % p;
    assert v / 2 == p * q + r;
    QuotientIs(v, 2 * p, q, 2 * r + v % 2);
  }

  lemma {:induction false} ToBitsOfValue(bits: seq<bit>)
    ensures ToBits(Value(bits), |bits|) == bits
  {
    if bits != [] {
      ToBitsOfValue(bits[..|bits| - 1]);
      assert bits == bits[..|bits| - 1] + [bits[|bits| - 1]];
    }
  }

  /** A buffer as a string of bits. */
  function BitsOf(raw: seq<byte>): (bits: seq<bit>)
    ensures |bits| == 8 * |raw|
  {
    if raw == [] then [] else BitsOf(raw[..|raw| - 1]) + ToBits(raw[|raw| - 1], 8)
  }

  /** The bits of a part are that part of the bits. */
  lemma {:induction false} BitsOfPrefix(raw: seq<byte>, p: nat)
    requires p <= |raw|
    ensures BitsOf(raw)[..8 * p] == BitsOf(raw[..p])
  {
    if p == |raw| {
      assert raw[..p] == raw;
    } else {
      BitsOfPrefix(raw[..|raw| - 1], p);
      assert raw[..|raw| - 1][..p] == raw[..p];
    }
  }

  // ---------------------------------------------------------------- samples

  /** Sample number `k` of `vw` bits. */
  function Sample(raw: seq<byte>, vw: nat, k: nat): nat
    requires (k + 1) * vw <= 8 * |raw|
  {
    Value(BitsOf(raw)[k * vw..(k + 1) * vw])
  }

  lemma SampleRange(vw: nat, k: nat, len: nat, n: nat)
    requires k < len && n >= BytesFor(len, vw)
    ensures (k + 1) * vw <= 8 * n
  {
    assert (k + 1) * vw <= len * vw;
  }

  function BytesFor(len: nat, vw: nat): nat {
    (len * vw + 7) / 8
  }

  function Unpacked(raw: seq<byte>, vw: nat, len: nat): (samples: seq<nat>)
    requires |raw| >= BytesFor(len, vw)
    ensures |samples| == len
  {
    seq(len, k requires 0 <= k < len => SampleRange(vw, k, len, |raw|); Sample(raw, vw, k))
  }

  lemma UnpackedAt(raw: seq<byte>, vw: nat, len: nat, k: nat)
    requires |raw| >= BytesFor(len, vw) && k < len
    ensures k * vw <= (k + 1) * vw <= 8 * |raw| && (k + 1) * vw == k * vw + vw
    ensures Unpacked(raw, vw, len)[k] == Value(BitsOf(raw)[k * vw..(k + 1) * vw])
  {
    SampleRange(vw, k, len, |raw|);
    Steps(k, k, vw);
  }

  // ---------------------------------------------------------------- a buffer as a number

  /** The bytes of a buffer as the digits of a number, the first one the highest. */
  function Number(raw: seq<byte>): nat {
    if raw == [] then 0 else Number(raw[..|raw| - 1]) * 256 + raw[|raw| - 1]
  }

  lemma {:induction false} NumberIsValue(raw: seq<byte>)
    ensures Value(BitsOf(raw)) == Number(raw)
  {
    if raw != [] {
      var init, last := raw[..|raw| - 1], raw[|raw| - 1];
      NumberIsValue(init);
      assert BitsOf(raw) == BitsOf(init) + ToBits(last, 8);
      ValueAppend(BitsOf(init), ToBits(last, 8));
      ByteValue(last);
    }
  }

  /** Sample `k` is cut out of that number: what remains once all behind it have been divided away. */
  lemma SampleOfNumber(raw: seq<byte>, vw: nat, len: nat, k: nat)
    requires |raw| >= BytesFor(len, vw) && k < len
    ensures (k + 1) * vw <= 8 * |raw|
    ensures Unpacked(raw, vw, len)[k] == Number(raw) / Pow2(8 * |raw| - (k + 1) * vw) % Pow2(vw)
  {
    UnpackedAt(raw, vw, len, k);
    BitsOfNumber(raw, k * vw, (k + 1) * vw, vw);
  }

  lemma BitsOfNumber(raw: seq<byte>, i: nat, j: nat, n: nat)
    requires i <= j <= 8 * |raw| && j == i + n
    ensures Value(BitsOf(raw)[i..j]) == Number(raw) / Pow2(8 * |raw| - j) % Pow2(n)
  {
    NumberIsValue(raw);
    CutOut(BitsOf(raw), i, j, n);
  }

  /** The bits from `i` to `j` of a number. */
  lemma CutOut(bits: seq<bit>, i: nat, j: nat, n: nat)
    requires i <= j <= |bits| && n == j - i
    ensures Value(bits[i..j]) == Value(bits) / Pow2(|bits| - j) % Pow2(n)
  {
    assert bits == bits[..j] + bits[j..];
    ValueAppend(bits[..j], bits[j..]);
    ValueBound(bits[j..]);
    QuotientIs(Value(bits), Pow2(|bits| - j), Value(bits[..j]), Value(bits[j..]));
    assert bits[..j] == bits[..i] + bits[i..j];
    ValueAppend(bits[..i], bits[i..j]);
    ValueBound(bits[i..j]);
    QuotientIs(Value(bits[..j]), Pow2(n), Value(bits[..i]), Value(bits[i..j]));
  }

  // ---------------------------------------------------------------- packing

  function Concat(samples: seq<nat>, vw: nat): (bits: seq<bit>)
    ensures |bits| == |samples| * vw
  {
    if samples == [] then [] else
      assert |samples| * vw == (|samples| - 1) * vw + vw;
      Concat(samples[..|samples| - 1], vw) + ToBits(samples[|samples| - 1], vw)
  }

  /** The bits in bytes, filled up with zeros. */
  function ToBytes(bits: seq<bit>): (raw: seq<byte>)
    ensures |raw| == (|bits| + 7) / 8
  {
    if bits == [] then []
    else if |bits| < 8 then [ByteOf(bits + Zeros(8 - |bits|))]
    else [ByteOf(bits[..8])] + ToBytes(bits[8..])
  }

  function Zeros(n: nat): (z: seq<bit>)
    ensures |z| == n
  {
    seq(n, i => 0)
  }

  function ByteOf(bits: seq<bit>): byte
    requires |bits| == 8
  {
    ValueBound(bits);
    Pow2Of8();
    Value(bits)
  }

  /** The packed form of samples of `vw` bits: one after the other, most significant bit first. */
  function Pack(samples: seq<nat>, vw: nat): (raw: seq<byte>)
    ensures |raw| == BytesFor(|samples|, vw)
  {
    ToBytes(Concat(samples, vw))
  }

  lemma {:induction false} BitsOfCons(b: byte, raw: seq<byte>)
    ensures BitsOf([b] + raw) == ToBits(b, 8) + BitsOf(raw)
  {
    if raw == [] {
      assert [b] + raw == [b];
      assert [b][..0] == [];
    } else {
      assert ([b] + raw)[..|raw|] == [b] + raw[..|raw| - 1];
      BitsOfCons(b, raw[..|raw| - 1]);
    }
  }

  lemma {:induction false} BitsOfToBytes(bits: seq<bit>)
    ensures BitsOf(ToBytes(bits))[..|bits|] == bits
  {
    if |bits| >= 8 {
      BitsOfToBytes(bits[8..]);
      BitsOfCons(ByteOf(bits[..8]), ToBytes(bits[8..]));
      ToBitsOfValue(bits[..8]);
      assert bits == bits[..8] + bits[8..];
    } else if bits != [] {
      var full := bits + Zeros(8 - |bits|);
      BitsOfCons(ByteOf(full), []);
      ToBitsOfValue(full);
      assert [ByteOf(full)] + [] == [ByteOf(full)];
    }
  }

  lemma {:induction false} ConcatAt(samples: seq<nat>, vw: nat, k: nat)
    requires k < |samples|
    ensures k * vw <= (k + 1) * vw <= |samples| * vw
    ensures Concat(samples, vw)[k * vw..(k + 1) * vw] == ToBits(samples[k], vw)
  {
    var n := |samples| - 1;
    Steps(k, n, vw);
    if k < n {
      ConcatAt(samples[..n], vw, k);
      InFront(Concat(samples[..n], vw), ToBits(samples[n], vw), k * vw, (k + 1) * vw);
    } else {
      AtTheEnd(Concat(samples[..n], vw), ToBits(samples[n], vw), k * vw, (k + 1) * vw);
    }
  }

  lemma AtTheEnd<T>(a: seq<T>, b: seq<T>, i: nat, j: nat)
    requires i == |a| && j == |a| + |b|
    ensures (a + b)[i..j] == b
  {
  }

  lemma Steps(k: nat, n: nat, vw: nat)
    requires k <= n
    ensures k * vw <= (k + 1) * vw <= (n + 1) * vw && (n + 1) * vw == n * vw + vw && (k + 1) * vw == k * vw + vw
    ensures k < n ==> (k + 1) * vw <= n * vw
  {
    if k < n { assert (k + 1) * vw <= n * vw; }
  }

  lemma InFront<T>(a: seq<T>, b: seq<T>, i: nat, j: nat)
    requires i <= j <= |a|
    ensures (a + b)[i..j] == a[i..j]
  {
  }

  /** Unpacking inverts packing, for every width and every number of samples. */
  lemma UnpackPack(samples: seq<nat>, vw: nat)
    requires forall k | 0 <= k < |samples| :: samples[k] < Pow2(vw)
    ensures Unpacked(Pack(samples, vw), vw, |samples|) == samples
  {
    forall k | 0 <= k < |samples| ensures Unpacked(Pack(samples, vw), vw, |samples|)[k] == samples[k] {
      UnpackPackAt(samples, vw, k);
    }
  }

  lemma UnpackPackAt(samples: seq<nat>, vw: nat, k: nat)
    requires k < |samples| && samples[k] < Pow2(vw)
    ensures Unpacked(Pack(samples, vw), vw, |samples|)[k] == samples[k]
  {
    UnpackedAt(Pack(samples, vw), vw, |samples|, k);
    PackedBits(samples, vw, k);
    ValueOfToBits(samples[k], vw);
    QuotientIs(samples[k], Pow2(vw), 0, samples[k]);
  }

  lemma PackedBits(samples: seq<nat>, vw: nat, k: nat)
    requires k < |samples|
    ensures k * vw <= (k + 1) * vw <= 8 * |Pack(samples, vw)|
    ensures BitsOf(Pack(samples, vw))[k * vw..(k + 1) * vw] == ToBits(samples[k], vw)
  {
    ConcatAt(samples, vw, k);
    BitsInBytes(Concat(samples, vw), k * vw, (k + 1) * vw);
  }

  lemma BitsInBytes(bits: seq<bit>, i: nat, j: nat)
    requires i <= j <= |bits|
    ensures BitsOf(ToBytes(bits))[i..j] == bits[i..j]
  {
    BitsOfToBytes(bits);
    SamePart(BitsOf(ToBytes(bits)), bits, i, j);
  }

  lemma SamePart<T>(a: seq<T>, b: seq<T>, i: nat, j: nat)
    requires |b| <= |a| && a[..|b|] == b && i <= j <= |b|
    ensures a[i..j] == b[i..j]
  {
    assert a[..|b|][i..j] == a[i..j];
  }

  // ---------------------------------------------------------------- the accumulator

  /** The last `bitsIn` bits before byte `p` are the low bits of the accumulator. */
  ghost predicate Holds(raw: seq<byte>, p: nat, bitsIn: nat, buffer: nat) {
    && p <= |raw| && bitsIn <= 8 * p && buffer < TWO_TO_THE_32
    && buffer % Pow2(bitsIn) == Value(BitsOf(raw)[8 * p - bitsIn..8 * p])
  }

  function Shifted(buffer: nat, b: byte): nat {
    (buffer * 256) % TWO_TO_THE_32 + b
  }

  lemma ShiftInByte(raw: seq<byte>, p: nat, bitsIn: nat, buffer: nat)
    requires Holds(raw, p, bitsIn, buffer) && p < |raw| && bitsIn < 16
    ensures Holds(raw, p + 1, bitsIn + 8, Shifted(buffer, raw[p]))
  {
    BitsGrow(raw, 8 * p - bitsIn, p);
    ShiftModulo(buffer, raw[p], bitsIn);
  }

  lemma BitsGrow(raw: seq<byte>, at: nat, p: nat)
    requires at <= 8 * p && p < |raw|
    ensures Value(BitsOf(raw)[at..8 * (p + 1)]) == Value(BitsOf(raw)[at..8 * p]) * 256 + raw[p]
  {
    var n := 8 * (p + 1) - 8 * p;
    assert n == 8;
    assert Value(BitsOf(raw)[8 * p..8 * (p + 1)]) == raw[p] && Pow2(n) == 256 by {
      NextBits(raw, p);
      ByteValue(raw[p]);
    }
    ValueOfJoin(BitsOf(raw), at, 8 * p, 8 * (p + 1), 256, raw[p]);
  }

  lemma ValueOfJoin(bits: seq<bit>, i: nat, j: nat, k: nat, p: nat, v: nat)
    requires i <= j <= k <= |bits| && p == Pow2(k - j) && v == Value(bits[j..k])
    ensures Value(bits[i..k]) == Value(bits[i..j]) * p + v
  {
    Join(bits, i, j, k);
    ValueAppend(bits[i..j], bits[j..k]);
  }

  lemma ByteValue(b: byte)
    ensures Value(ToBits(b, 8)) == b && Pow2(8) == 256
  {
    ValueOfToBits(b, 8);
    Pow2Of8();
  }

  lemma NextBits(raw: seq<byte>, p: nat)
    requires p < |raw|
    ensures BitsOf(raw)[8 * p..8 * (p + 1)] == ToBits(raw[p], 8)
  {
    BitsOfPrefix(raw, p + 1);
    BitsOfPrefix(raw, p);
    assert raw[..p + 1][..p] == raw[..p];
    assert BitsOf(raw)[..8 * (p + 1)] == BitsOf(raw[..p]) + ToBits(raw[p], 8);
  }

  /** Bits that fall out at the top do not matter. */
  lemma ShiftModulo(buffer: nat, b: byte, n: nat)
    requires buffer < TWO_TO_THE_32 && n < 16
    ensures Shifted(buffer, b) < TWO_TO_THE_32
    ensures Shifted(buffer, b) % Pow2(n + 8) == (buffer % Pow2(n)) * 256 + b
  {
    assert Pow2(n + 8) == Pow2(n) * 256 && Pow2(n) * 256 * Pow2(24 - n) == TWO_TO_THE_32 by {
      Pow2Of8();
      Pow2Of32();
      Pow2Add(n, 8);
      Pow2Add(n + 8, 24 - n);
    }
    ShiftModuloBy(buffer, b, Pow2(n), Pow2(24 - n));
  }

  lemma ShiftModuloBy(buffer: nat, b: byte, m: nat, k: nat)
    requires m > 0 && k > 0 && m * 256 * k == TWO_TO_THE_32
    ensures Shifted(buffer, b) < TWO_TO_THE_32
    ensures Shifted(buffer, b) % (m * 256) == (buffer % m) * 256 + b
  {
    WrapsWhole(buffer);
    ModuloOfModulo(buffer * 256, m * 256, k);
    ModuloTimes(buffer, m, 256);
    AddBelow((buffer * 256) % TWO_TO_THE_32, b, m, buffer % m);
  }

  lemma WrapsWhole(buffer: nat)
    ensures (buffer * 256) % TWO_TO_THE_32 <= TWO_TO_THE_32 - 256
  {
    var w, wrapped := (buffer * 256) / TWO_TO_THE_32, (buffer * 256) % TWO_TO_THE_32;
    assert wrapped == 256 * (buffer - 0x100_0000 * w);
  }

  lemma ModuloOfModulo(x: nat, d: nat, k: nat)
    requires d > 0 && k > 0
    ensures d * k > 0 && x % (d * k) % d == x % d
  {
    var w, y := x / (d * k), x % (d * k);
    var e, z := y / d, y % d;
    assert x == (d * k) * w + y && y == d * e + z;
    Factor(d, k, w, e);
    QuotientIs(x, d, k * w + e, z);
  }

  lemma Factor(d: nat, k: nat, w: nat, e: nat)
    ensures (d * k) * w + d * e == d * (k * w + e)
  {
  }

  lemma ModuloTimes(x: nat, m: nat, c: nat)
    requires m > 0 && c > 0
    ensures m * c > 0 && (x * c) % (m * c) == (x % m) * c
  {
    var q, r := x / m, x % m;
    assert x == m * q + r;
    assert x * c == (m * c) * q + r * c;
    assert r * c < m * c;
    QuotientIs(x * c, m * c, q, r * c);
  }

  lemma AddBelow(wrapped: nat, b: byte, m: nat, r: nat)
    requires m > 0 && r < m && wrapped % (m * 256) == r * 256
    ensures (wrapped + b) % (m * 256) == r * 256 + b
  {
    var q := wrapped / (m * 256);
    assert wrapped == (m * 256) * q + r * 256;
    QuotientIs(wrapped + b, m * 256, q, r * 256 + b);
  }

  /** Taking `vw` of the bits off at the front. */
  lemma TakeSample(raw: seq<byte>, p: nat, bitsIn: nat, buffer: nat, vw: nat)
    requires Holds(raw, p, bitsIn, buffer) && vw <= bitsIn
    ensures Holds(raw, p, bitsIn - vw, buffer)
    ensures buffer / Pow2(bitsIn - vw) % Pow2(vw) == Value(BitsOf(raw)[8 * p - bitsIn..8 * p - bitsIn + vw])
  {
    var a, b := BitsOf(raw)[8 * p - bitsIn..8 * p - bitsIn + vw], BitsOf(raw)[8 * p - bitsIn + vw..8 * p];
    Join(BitsOf(raw), 8 * p - bitsIn, 8 * p - bitsIn + vw, 8 * p);
    ValueAppend(a, b);
    ValueBound(a);
    ValueBound(b);
    Pow2Add(vw, bitsIn - vw);
    SplitLow(buffer, Pow2(vw), Pow2(bitsIn - vw), Value(a), Value(b));
  }

  lemma SplitLow(n: nat, hi: nat, lo: nat, a: nat, b: nat)
    requires hi > 0 && lo > 0 && a < hi && b < lo && n % (hi * lo) == a * lo + b
    ensures n % lo == b && n / lo % hi == a
  {
    var q := n / (hi * lo);
    assert n == (hi * lo) * q + (a * lo + b);
    Regroup(hi, lo, q, a);
    QuotientIs(n, lo, q * hi + a, b);
    QuotientIs(q * hi + a, hi, q, a);
  }

  lemma Regroup(hi: nat, lo: nat, q: nat, a: nat)
    ensures (hi * lo) * q + a * lo == (q * hi + a) * lo
  {
  }

  /** The top eight bits of what is `vw` bits wide. */
  lemma TakeTop(raw: seq<byte>, p: nat, bitsIn: nat, buffer: nat, vw: nat)
    requires Holds(raw, p, bitsIn, buffer) && 8 <= vw <= bitsIn
    ensures buffer / Pow2(bitsIn - 8) % 256 == Value(BitsOf(raw)[8 * p - bitsIn..8 * p - bitsIn + vw]) / Pow2(vw - 8)
  {
    var at := 8 * p - bitsIn;
    var top, low := BitsOf(raw)[at..at + 8], BitsOf(raw)[at + 8..at + vw];
    assert buffer / Pow2(bitsIn - 8) % 256 == Value(top) by {
      TakeSample(raw, p, bitsIn, buffer, 8);
      Pow2Of8();
    }
    Join(BitsOf(raw), at, at + 8, at + vw);
    ValueAppend(top, low);
    ValueBound(low);
    QuotientIs(Value(top + low), Pow2(vw - 8), Value(top), Value(low));
  }

  // ---------------------------------------------------------------- the loops

  /** Before sample `k`, `p` bytes have been read. */
  ghost predicate Ready(raw: seq<byte>, vw: nat, k: nat, p: nat, bitsIn: nat, buffer: nat) {
    Holds(raw, p, bitsIn, buffer) && 8 * p == k * vw + bitsIn
  }

  /** The inner loop: shift bytes in until there is a whole sample. */
  method Refill(raw: array<byte>, p0: nat, bitsIn0: nat, buffer0: nat, vw: nat, ghost k: nat, ghost len: nat)
    returns (p: nat, bitsIn: nat, buffer: nat)
    requires 8 <= vw <= 16 && k < len && raw.Length >= BytesFor(len, vw)
    requires Ready(raw[..], vw, k, p0, bitsIn0, buffer0) && bitsIn0 < 8
    ensures Ready(raw[..], vw, k, p, bitsIn, buffer) && vw <= bitsIn < vw + 8
  {
    p, bitsIn, buffer := p0, bitsIn0, buffer0;
    UnpackedAt(raw[..], vw, len, k);
    while bitsIn < vw
      invariant Ready(raw[..], vw, k, p, bitsIn, buffer) && bitsIn < vw + 8
    {
      ShiftInByte(raw[..], p, bitsIn, buffer);
      assert raw[p] == raw[..][p];
      buffer := Shifted(buffer, raw[p]);
      p := p + 1;
      bitsIn := bitsIn + 8;
    }
  }

  /** Sample `k` is at the front of the accumulator. */
  lemma FrontSample(raw: seq<byte>, vw: nat, len: nat, k: nat, p: nat, bitsIn: nat, buffer: nat)
    requires 8 <= vw <= 16 && k < len && |raw| >= BytesFor(len, vw)
    requires Ready(raw, vw, k, p, bitsIn, buffer) && vw <= bitsIn
    ensures Ready(raw, vw, k + 1, p, bitsIn - vw, buffer)
    ensures buffer / Pow2(bitsIn - vw) % Pow2(vw) == Unpacked(raw, vw, len)[k]
    ensures buffer / Pow2(bitsIn - 8) % 256 == Unpacked(raw, vw, len)[k] / Pow2(vw - 8)
  {
    UnpackedAt(raw, vw, len, k);
    TakeSample(raw, p, bitsIn, buffer, vw);
    TakeTop(raw, p, bitsIn, buffer, vw);
  }

  lemma UnpackedFits(raw: seq<byte>, vw: nat, len: nat, k: nat)
    requires vw <= 16 && k < len && |raw| >= BytesFor(len, vw)
    ensures Unpacked(raw, vw, len)[k] < 0x1_0000
  {
    UnpackedAt(raw, vw, len, k);
    ValueBound(BitsOf(raw)[k * vw..(k + 1) * vw]);
    FitsIn16(Unpacked(raw, vw, len)[k], vw);
    QuotientIs(Unpacked(raw, vw, len)[k], Pow2(vw), 0, Unpacked(raw, vw, len)[k]);
  }

  lemma FitsIn16(n: nat, vw: nat)
    requires vw <= 16
    ensures n % Pow2(vw) < 0x1_0000
  {
    Pow2Add(vw, 16 - vw);
    Pow2Of8();
    Pow2Add(8, 8);
    assert Pow2(vw) * 1 <= Pow2(vw) * Pow2(16 - vw);
  }

  /** All that has been read is less than a byte more than what the samples take. */
  lemma ReadExactly(len: nat, vw: nat, p: nat, bitsIn: nat)
    requires 8 * p == len * vw + bitsIn && bitsIn < 8
    ensures p == BytesFor(len, vw)
  {
  }

  /** The body of the loop, but for the store. */
  method NextSample(raw: array<byte>, p0: nat, bitsIn0: nat, buffer0: nat, vw: nat, ghost k: nat, ghost len: nat)
    returns (p: nat, bitsIn: nat, buffer: nat)
    requires 8 <= vw <= 16 && k < len && raw.Length >= BytesFor(len, vw)
    requires Ready(raw[..], vw, k, p0, bitsIn0, buffer0) && bitsIn0 < 8
    ensures Ready(raw[..], vw, k + 1, p, bitsIn, buffer) && bitsIn < 8
    ensures buffer / Pow2(bitsIn) % Pow2(vw) == Unpacked(raw[..], vw, len)[k] < 0x1_0000
    ensures buffer / Pow2(bitsIn + vw - 8) % 256 == Unpacked(raw[..], vw, len)[k] / Pow2(vw - 8)
  {
    p, bitsIn, buffer := Refill(raw, p0, bitsIn0, buffer0, vw, k, len);
    FrontSample(raw[..], vw, len, k, p, bitsIn, buffer);
    UnpackedFits(raw[..], vw, len, k);
    bitsIn := bitsIn - vw;
  }

  /** The 16-bit sample `k` of a frame in memory, low byte first. */
  function Halfword(frame: seq<byte>, k: nat): nat
    requires 2 * k + 1 < |frame|
  {
    var low: nat, high: nat := frame[2 * k], frame[2 * k + 1];
    high * 0x100 + low
  }

  lemma HalfwordIs(frame: seq<byte>, k: nat, v: uint16)
    requires 2 * k + 1 < |frame|
    ensures Halfword(frame, k) == v <==> frame[2 * k] == v % 0x100 && frame[2 * k + 1] == v / 0x100
  {
    var low: nat, high: nat := frame[2 * k], frame[2 * k + 1];
    assert (high * 0x100 + low) % 0x100 == low && (high * 0x100 + low) / 0x100 == high;
  }

  /** convert_packed_to_16bit; `consumed` is how many bytes it reads. */
  method ConvertPackedTo16Bit(raw: array<byte>, frame: array<byte>, vw: nat, len: nat) returns (consumed: nat)
    requires 8 <= vw <= 16 && raw.Length >= BytesFor(len, vw) && frame.Length >= 2 * len && raw != frame
    modifies frame
    ensures consumed == BytesFor(len, vw)
    ensures forall j | 0 <= j < len :: Halfword(frame[..], j) == Unpacked(raw[..], vw, len)[j]
    ensures frame[2 * len..] == old(frame[2 * len..])
  {
    var p: nat, bitsIn: nat, buffer: nat := 0, 0, 0;
    assert Ready(raw[..], vw, 0, 0, 0, 0);
    for k := 0 to len
      invariant Ready(raw[..], vw, k, p, bitsIn, buffer) && bitsIn < 8
      invariant forall j | 0 <= j < k :: Halfword(frame[..], j) == Unpacked(raw[..], vw, len)[j]
      invariant frame[2 * len..] == old(frame[2 * len..])
    {
      p, bitsIn, buffer := NextSample(raw, p, bitsIn, buffer, vw, k, len);
      ghost var before := frame[..];
      StoreHalfword(frame, k, buffer / Pow2(bitsIn) % Pow2(vw));
      assert frame[2 * len..] == before[2 * len..];
    }
    ReadExactly(len, vw, p, bitsIn);
    consumed := p;
  }

  method StoreHalfword(frame: array<byte>, k: nat, sample: uint16)
    requires 2 * k + 1 < frame.Length
    modifies frame
    ensures Halfword(frame[..], k) == sample
    ensures forall i | 0 <= i < frame.Length && i != 2 * k && i != 2 * k + 1 :: frame[i] == old(frame[i])
  {
    frame[2 * k] := sample % 0x100;
    frame[2 * k + 1] := sample / 0x100;
  }

  /** convert_packed_to_8bit: what the 16-bit form gives, shifted right. */
  method ConvertPackedTo8Bit(raw: array<byte>, frame: array<byte>, vw: nat, len: nat) returns (consumed: nat)
    requires 8 <= vw <= 16 && raw.Length >= BytesFor(len, vw) && frame.Length >= len && raw != frame
    modifies frame
    ensures consumed == BytesFor(len, vw)
    ensures forall j | 0 <= j < len :: frame[j] == Unpacked(raw[..], vw, len)[j] / Pow2(vw - 8)
    ensures frame[len..] == old(frame[len..])
  {
    var p: nat, bitsIn: nat, buffer: nat := 0, 0, 0;
    assert Ready(raw[..], vw, 0, 0, 0, 0);
    for k := 0 to len
      invariant Ready(raw[..], vw, k, p, bitsIn, buffer) && bitsIn < 8
      invariant forall j | 0 <= j < k :: frame[j] == Unpacked(raw[..], vw, len)[j] / Pow2(vw - 8)
      invariant frame[len..] == old(frame[len..])
    {
      p, bitsIn, buffer := NextSample(raw, p, bitsIn, buffer, vw, k, len);
      frame[k] := buffer / Pow2(bitsIn + vw - 8) % 256;
    }
    ReadExactly(len, vw, p, bitsIn);
    consumed := p;
  }
}
