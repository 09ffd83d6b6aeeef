/** The demosaic of a Bayer image (cameras.c: convert_bayer_to_rgb), for images of any width and height
that its borders allow; the driver's are 640 by 480.

The code keeps three neighbouring samples of the current line, and three vertical averages, in the bytes
of two 32-bit registers. `reg | b` is `reg + b` where the low byte of the register is free.
*/
module Bayer {
  import opened Bytes

  const TWO_TO_THE_32: nat := 0x1_0000_0000

  datatype Rgb = Rgb(r: byte, g: byte, b: byte)

  // ---------------------------------------------------------------- the four configurations

  function Avg(a: byte, b: byte): byte {
    (a + b) / 2
  }

  /** Positions just outside are mirrored at the border. */
  function Mirror(i: int, n: nat): (m: nat)
    requires -1 <= i <= n && n >= 2
    ensures m < n
  {
    if i == -1 then 1 else if i == n then n - 2 else i
  }

  /** A row of the image as the demosaic sees it: the current line, and those above and below. */
  datatype Lines = Lines(above: seq<byte>, cur: seq<byte>, below: seq<byte>) {
    ghost predicate Valid() {
      |above| == |cur| == |below| && |cur| >= 2
    }

    function H(x: int): byte
      requires Valid() && -1 <= x <= |cur|
    {
      cur[Mirror(x, |cur|)]
    }

    /** The average of the samples above and below. */
    function V(x: int): byte
      requires Valid() && -1 <= x <= |cur|
    {
      Avg(above[Mirror(x, |cur|)], below[Mirror(x, |cur|)])
    }

    function HSum(x: nat): byte
      requires Valid() && x < |cur|
    {
      Avg(H(x - 1), H(x + 1))
    }

    function VSum(x: nat): byte
      requires Valid() && x < |cur|
    {
      Avg(V(x - 1), V(x + 1))
    }

    function Pixel(yOdd: bool, x: nat): Rgb
      requires Valid() && x < |cur|
    {
      if !yOdd then
        if x % 2 == 0 then Rgb(HSum(x), H(x), V(x)) else Rgb(H(x), Avg(HSum(x), V(x)), VSum(x))
      else
        if x % 2 == 0 then Rgb(VSum(x), Avg(HSum(x), V(x)), H(x)) else Rgb(V(x), H(x), HSum(x))
    }
  }

  function Row(raw: seq<byte>, w: nat, y: nat): (row: seq<byte>)
    requires (y + 1) * w <= |raw|
    ensures |row| == w
  {
    RowEnd(y, w);
    raw[y * w..(y + 1) * w]
  }

  lemma RowEnd(y: nat, w: nat)
    ensures 0 <= y * w && (y + 1) * w == y * w + w
  {
  }

  lemma RowFits(y: nat, h: nat, w: nat)
    requires y < h
    ensures (y + 1) * w <= h * w
  {
  }

  function LinesAt(raw: seq<byte>, w: nat, h: nat, y: nat): (lines: Lines)
    requires |raw| == h * w && w >= 2 && h >= 2 && y < h
    ensures lines.Valid() && |lines.cur| == w
  {
    RowFits(Mirror(y - 1, h), h, w);
    RowFits(y, h, w);
    RowFits(Mirror(y + 1, h), h, w);
    Lines(Row(raw, w, Mirror(y - 1, h)), Row(raw, w, y), Row(raw, w, Mirror(y + 1, h)))
  }

  /** The colours of a pixel of the image. */
  function Demosaic(raw: seq<byte>, w: nat, h: nat, y: nat, x: nat): Rgb
    requires |raw| == h * w && w >= 2 && h >= 2 && y < h && x < w
  {
    LinesAt(raw, w, h, y).Pixel(y % 2 == 1, x)
  }

  // ---------------------------------------------------------------- what averaging twice loses

  /** An average of averages is the average of the four samples, rounded down, or one below: one below
      exactly if both pairs were rounded and the four add up to a multiple of four. */
  lemma AverageOfAverages(a: byte, b: byte, c: byte, d: byte)
    ensures Avg(Avg(a, b), Avg(c, d))
      == (a + b + c + d) / 4 - Loss(a, b, c, d)
  {
    var p, q := (a + b) / 2, (c + d) / 2;
    assert a + b == 2 * p + (a + b) % 2 && c + d == 2 * q + (c + d) % 2;
  }

  /** By how much the average of averages of two pairs is below the average of the four. */
  function Loss(a: byte, b: byte, c: byte, d: byte): nat {
    if (a + b) % 2 == 1 && (c + d) % 2 == 1 && (a + b + c + d) % 4 == 0 then 1 else 0
  }

  /** The channels of configurations 2 and 3 that four samples make up: those beside, above and below the
      pixel, and those at its corners. */
  lemma FourSamples(lines: Lines, yOdd: bool, x: nat)
    requires lines.Valid() && x < |lines.cur| && yOdd == (x % 2 == 0)
    ensures var n := |lines.cur|; var (l, r) := (Mirror(x - 1, n), Mirror(x + 1, n)); var p := lines.Pixel(yOdd, x);
      && p.g == (lines.cur[l] + lines.cur[r] + lines.above[x] + lines.below[x]) / 4
              - Loss(lines.cur[l], lines.cur[r], lines.above[x], lines.below[x])
      && (if yOdd then p.r else p.b)
         == (lines.above[l] + lines.below[l] + lines.above[r] + lines.below[r]) / 4
            - Loss(lines.above[l], lines.below[l], lines.above[r], lines.below[r])
  {
    var n := |lines.cur|;
    var l, r := Mirror(x - 1, n), Mirror(x + 1, n);
    AverageOfAverages(lines.cur[l], lines.cur[r], lines.above[x], lines.below[x]);
    AverageOfAverages(lines.above[l], lines.below[l], lines.above[r], lines.below[r]);
  }

  // ---------------------------------------------------------------- the image's colours

  /** The sample in line `y` and column `x`. */
  function Sample(raw: seq<byte>, w: nat, h: nat, y: nat, x: nat): byte
    requires |raw| == h * w && y < h && x < w
  {
    RowFits(y, h, w);
    RowEnd(y, w);
    raw[y * w + x]
  }

  lemma LineSamples(raw: seq<byte>, w: nat, h: nat, y: nat, x: nat)
    requires |raw| == h * w && w >= 2 && h >= 2 && y < h && x < w
    ensures var u, d := if y == 0 then 1 else y - 1, if y == h - 1 then h - 2 else y + 1;
      var lines := LinesAt(raw, w, h, y);
      && lines.cur[x] == Sample(raw, w, h, y, x)
      && lines.above[x] == Sample(raw, w, h, u, x) && lines.below[x] == Sample(raw, w, h, d, x)
  {
    RowSample(raw, w, h, Mirror(y - 1, h), x);
    RowSample(raw, w, h, y, x);
    RowSample(raw, w, h, Mirror(y + 1, h), x);
  }

  lemma RowSample(raw: seq<byte>, w: nat, h: nat, y: nat, x: nat)
    requires |raw| == h * w && y < h && x < w
    ensures (y + 1) * w <= |raw| && Row(raw, w, y)[x] == Sample(raw, w, h, y, x)
  {
    RowFits(y, h, w);
    RowEnd(y, w);
  }

  /** The nine samples of a pixel and its neighbours, mirrored at the borders. */
  datatype Around = Around(c: byte, l: byte, r: byte, u: byte, d: byte, ul: byte, ur: byte, dl: byte, dr: byte)

  function AroundAt(raw: seq<byte>, w: nat, h: nat, y: nat, x: nat): Around
    requires |raw| == h * w && w >= 2 && h >= 2 && y < h && x < w
  {
    var u, d := if y == 0 then 1 else y - 1, if y == h - 1 then h - 2 else y + 1;
    var l, r := if x == 0 then 1 else x - 1, if x == w - 1 then w - 2 else x + 1;
    Around(Sample(raw, w, h, y, x), Sample(raw, w, h, y, l), Sample(raw, w, h, y, r),
           Sample(raw, w, h, u, x), Sample(raw, w, h, d, x),
           Sample(raw, w, h, u, l), Sample(raw, w, h, u, r), Sample(raw, w, h, d, l), Sample(raw, w, h, d, r))
  }

  /** The lines seen from column `x`. */
  lemma LinesAround(raw: seq<byte>, w: nat, h: nat, y: nat, x: nat)
    requires |raw| == h * w && w >= 2 && h >= 2 && y < h && x < w
    ensures Sees(LinesAt(raw, w, h, y), x, AroundAt(raw, w, h, y, x))
  {
    LineSamples(raw, w, h, y, x);
    LineSamples(raw, w, h, y, Mirror(x - 1, w));
    LineSamples(raw, w, h, y, Mirror(x + 1, w));
  }

  /** Every channel of every pixel: the pixel's own sample, the mean of two, or that of four, with what
      averaging twice loses. */
  lemma Channels(raw: seq<byte>, w: nat, h: nat, y: nat, x: nat)
    requires |raw| == h * w && w >= 2 && h >= 2 && y < h && x < w
    ensures var a := AroundAt(raw, w, h, y, x); var p := Demosaic(raw, w, h, y, x);
      && (y % 2 == 0 && x % 2 == 0 ==> p.r == (a.l + a.r) / 2 && p.g == a.c && p.b == (a.u + a.d) / 2)
      && (y % 2 == 1 && x % 2 == 1 ==> p.r == (a.u + a.d) / 2 && p.g == a.c && p.b == (a.l + a.r) / 2)
      && (y % 2 == 0 && x % 2 == 1 ==> p.r == a.c)
      && (y % 2 == 1 && x % 2 == 0 ==> p.b == a.c)
      && (y % 2 != x % 2 ==>
            && p.g == (a.l + a.r + a.u + a.d) / 4 - Loss(a.l, a.r, a.u, a.d)
            && (if y % 2 == 0 then p.b else p.r)
               == (a.ul + a.dl + a.ur + a.dr) / 4 - Loss(a.ul, a.dl, a.ur, a.dr))
  {
    LinesAround(raw, w, h, y, x);
    PixelChannels(LinesAt(raw, w, h, y), y % 2 == 1, x, AroundAt(raw, w, h, y, x));
  }

  ghost predicate Sees(lines: Lines, x: nat, a: Around)
    requires lines.Valid() && x < |lines.cur|
  {
    && lines.H(x) == a.c && lines.H(x - 1) == a.l && lines.H(x + 1) == a.r
    && lines.V(x) == Avg(a.u, a.d) && lines.V(x - 1) == Avg(a.ul, a.dl) && lines.V(x + 1) == Avg(a.ur, a.dr)
  }

  lemma PixelChannels(lines: Lines, yOdd: bool, x: nat, a: Around)
    requires lines.Valid() && x < |lines.cur| && Sees(lines, x, a)
    ensures var p := lines.Pixel(yOdd, x);
      && (!yOdd && x % 2 == 0 ==> p.r == (a.l + a.r) / 2 && p.g == a.c && p.b == (a.u + a.d) / 2)
      && (yOdd && x % 2 == 1 ==> p.r == (a.u + a.d) / 2 && p.g == a.c && p.b == (a.l + a.r) / 2)
      && (!yOdd && x % 2 == 1 ==> p.r == a.c)
      && (yOdd && x % 2 == 0 ==> p.b == a.c)
      && (yOdd == (x % 2 == 0) ==>
            && p.g == (a.l + a.r + a.u + a.d) / 4 - Loss(a.l, a.r, a.u, a.d)
            && (if yOdd then p.r else p.b) == (a.ul + a.dl + a.ur + a.dr) / 4 - Loss(a.ul, a.dl, a.ur, a.dr))
  {
    AverageOfAverages(a.l, a.r, a.u, a.d);
    AverageOfAverages(a.ul, a.dl, a.ur, a.dr);
  }

  /** The image of a scene of one colour. */
  ghost predicate OneColour(raw: seq<byte>, w: nat, h: nat, red: byte, green: byte, blue: byte)
    requires |raw| == h * w
  {
    forall y: nat, x: nat | y < h && x < w ::
      Sample(raw, w, h, y, x) == if (y + x) % 2 == 0 then green else if y % 2 == 0 then red else blue
  }

  /** It comes out in that colour everywhere. */
  lemma ColoursKept(raw: seq<byte>, w: nat, h: nat, red: byte, green: byte, blue: byte, y: nat, x: nat)
    requires |raw| == h * w && w >= 2 && h >= 2 && y < h && x < w && OneColour(raw, w, h, red, green, blue)
    ensures Demosaic(raw, w, h, y, x) == Rgb(red, green, blue)
  {
    AroundOneColour(raw, w, h, red, green, blue, y, x);
    LinesAround(raw, w, h, y, x);
    OneColourPixel(LinesAt(raw, w, h, y), y % 2 == 1, x, red, green, blue, AroundAt(raw, w, h, y, x));
  }

  /** What surrounds a pixel in such an image. */
  function AroundIn(yOdd: bool, xOdd: bool, red: byte, green: byte, blue: byte): Around {
    var odd, even := if yOdd then red else blue, if yOdd then blue else red;
    if yOdd == xOdd then Around(green, even, even, odd, odd, green, green, green, green)
    else Around(even, green, green, green, green, odd, odd, odd, odd)
  }

  lemma OneColourPixel(lines: Lines, yOdd: bool, x: nat, red: byte, green: byte, blue: byte, a: Around)
    requires lines.Valid() && x < |lines.cur| && Sees(lines, x, a) && a == AroundIn(yOdd, x % 2 == 1, red, green, blue)
    ensures lines.Pixel(yOdd, x) == Rgb(red, green, blue)
  {
  }

  lemma AroundOneColour(raw: seq<byte>, w: nat, h: nat, red: byte, green: byte, blue: byte, y: nat, x: nat)
    requires |raw| == h * w && w >= 2 && h >= 2 && y < h && x < w && OneColour(raw, w, h, red, green, blue)
    ensures AroundAt(raw, w, h, y, x) == AroundIn(y % 2 == 1, x % 2 == 1, red, green, blue)
  {
    var u, d := if y == 0 then 1 else y - 1, if y == h - 1 then h - 2 else y + 1;
    var l, r := if x == 0 then 1 else x - 1, if x == w - 1 then w - 2 else x + 1;
    OneColourLine(raw, w, h, red, green, blue, y, l, x, r);
    OneColourLine(raw, w, h, red, green, blue, u, l, x, r);
    OneColourLine(raw, w, h, red, green, blue, d, l, x, r);
  }

  lemma OneColourLine(raw: seq<byte>, w: nat, h: nat, red: byte, green: byte, blue: byte,
                      y: nat, l: nat, x: nat, r: nat)
    requires |raw| == h * w && y < h && l < w && x < w && r < w && OneColour(raw, w, h, red, green, blue)
    requires l % 2 != x % 2 && r % 2 != x % 2
    ensures var other := if y % 2 == 0 then red else blue;
      if y % 2 == x % 2
      then Sample(raw, w, h, y, x) == green && Sample(raw, w, h, y, l) == Sample(raw, w, h, y, r) == other
      else Sample(raw, w, h, y, x) == other && Sample(raw, w, h, y, l) == Sample(raw, w, h, y, r) == green
  {
    OneSample(raw, w, h, red, green, blue, y, x);
    OneSample(raw, w, h, red, green, blue, y, l);
    OneSample(raw, w, h, red, green, blue, y, r);
  }

  lemma OneSample(raw: seq<byte>, w: nat, h: nat, red: byte, green: byte, blue: byte, y: nat, x: nat)
    requires |raw| == h * w && y < h && x < w && OneColour(raw, w, h, red, green, blue)
    ensures Sample(raw, w, h, y, x) == if y % 2 == x % 2 then green else if y % 2 == 0 then red else blue
  {
    SameParity(y, x);
    var sample := Sample(raw, w, h, y, x);
    assert sample == if (y + x) % 2 == 0 then green else if y % 2 == 0 then red else blue;
  }

  lemma SameParity(y: nat, x: nat)
    ensures (y + x) % 2 == 0 <==> y % 2 == x % 2
  {
  }

  // ---------------------------------------------------------------- the registers

  /** The three low bytes of a register. */
  predicate Holds(reg: nat, p: byte, c: byte, n: byte) {
    reg < TWO_TO_THE_32 && reg % 0x100_0000 == p * 0x1_0000 + c * 0x100 + n
  }

  lemma Parts(reg: nat, p: byte, c: byte, n: byte)
    requires Holds(reg, p, c, n)
    ensures reg / 0x1_0000 % 0x100 == p && reg / 0x100 % 0x100 == c && reg % 0x100 == n
  {
    var q := reg / 0x100_0000;
    assert reg == q * 0x100_0000 + p * 0x1_0000 + c * 0x100 + n;
    assert reg / 0x1_0000 == q * 0x100 + p;
    assert reg / 0x100 == q * 0x1_0000 + p * 0x100 + c;
  }

  lemma Put(reg: nat, p: byte, c: byte, n: byte)
    requires Holds(reg, p, c, 0)
    ensures reg % 0x100 == 0 && Holds(reg + n, p, c, n)
  {
    var q := reg / 0x100_0000;
    assert reg == q * 0x100_0000 + p * 0x1_0000 + c * 0x100;
    assert reg + n == q * 0x100_0000 + (p * 0x1_0000 + c * 0x100 + n);
  }

  lemma Shift(reg: nat, p: byte, c: byte, n: byte)
    requires Holds(reg, p, c, n)
    ensures Holds(reg * 0x100 % TWO_TO_THE_32, c, n, 0)
  {
    var q := reg / 0x100_0000;
    assert reg == q * 0x100_0000 + p * 0x1_0000 + c * 0x100 + n;
    var low := p * 0x100_0000 + c * 0x1_0000 + n * 0x100;
    assert reg * 0x100 == q * TWO_TO_THE_32 + low;
    assert reg * 0x100 % TWO_TO_THE_32 == low;
    assert low == p * 0x100_0000 + (c * 0x1_0000 + n * 0x100);
  }

  // ---------------------------------------------------------------- the loops

  predicate PixelAt(dst: seq<byte>, d: nat, p: Rgb)
    requires d + 3 <= |dst|
  {
    dst[d] == p.r && dst[d + 1] == p.g && dst[d + 2] == p.b
  }

  method WritePixel(dst: array<byte>, d: nat, r: byte, g: byte, b: byte)
    requires d + 3 <= dst.Length
    modifies dst
    ensures dst[..] == old(dst[..])[d := r][d + 1 := g][d + 2 := b]
  {
    dst[d] := r;
    dst[d + 1] := g;
    dst[d + 2] := b;
  }

  /** The body of the loop over a line, with the registers complete. */
  method EmitPixel(dst: array<byte>, d: nat, hVals: nat, vSums: nat, yOdd: bool, x: nat, ghost lines: Lines)
    requires d + 3 <= dst.Length && lines.Valid() && x < |lines.cur|
    requires Full(lines, x, hVals, vSums)
    modifies dst
    ensures PixelAt(dst[..], d, lines.Pixel(yOdd, x))
    ensures forall k | 0 <= k < dst.Length && !(d <= k < d + 3) :: dst[k] == old(dst[k])
  {
    Parts(hVals, lines.H(x - 1), lines.H(x), lines.H(x + 1));
    Parts(vSums, lines.V(x - 1), lines.V(x), lines.V(x + 1));
    var hSum: byte := (hVals / 0x1_0000 % 0x100 + hVals % 0x100) / 2;
    var vMid: byte := vSums / 0x100 % 0x100;
    if !yOdd {
      if x % 2 == 0 {
        WritePixel(dst, d, hSum, hVals / 0x100 % 0x100, vMid);
      } else {
        WritePixel(dst, d, hVals / 0x100 % 0x100, (hSum + vMid) / 2, (vSums / 0x1_0000 % 0x100 + vSums % 0x100) / 2);
      }
    } else {
      if x % 2 == 0 {
        WritePixel(dst, d, (vSums / 0x1_0000 % 0x100 + vSums % 0x100) / 2, (hSum + vMid) / 2, hVals / 0x100 % 0x100);
      } else {
        WritePixel(dst, d, vMid, hVals / 0x100 % 0x100, hSum);
      }
    }
  }

  /** After the loop: the last column, where the next value is the previous one. */
  method EmitLastPixel(dst: array<byte>, d: nat, hVals: nat, vSums: nat, yOdd: bool, x: nat, ghost lines: Lines)
    requires d + 3 <= dst.Length && lines.Valid() && x == |lines.cur| - 1
    requires Full(lines, x, hVals, vSums)
    modifies dst
    ensures PixelAt(dst[..], d, lines.Pixel(yOdd, x))
    ensures forall k | 0 <= k < dst.Length && !(d <= k < d + 3) :: dst[k] == old(dst[k])
  {
    Parts(hVals, lines.H(x - 1), lines.H(x), lines.H(x + 1));
    Parts(vSums, lines.V(x - 1), lines.V(x), lines.V(x + 1));
    var hSum: byte := hVals % 0x100;
    var vMid: byte := vSums / 0x100 % 0x100;
    if !yOdd {
      if x % 2 == 0 {
        WritePixel(dst, d, hSum, hVals / 0x100 % 0x100, vMid);
      } else {
        WritePixel(dst, d, hVals / 0x100 % 0x100, (hSum + vMid) / 2, vSums % 0x100);
      }
    } else {
      if x % 2 == 0 {
        WritePixel(dst, d, vSums % 0x100, (hSum + vMid) / 2, hVals / 0x100 % 0x100);
      } else {
        WritePixel(dst, d, vMid, hVals / 0x100 % 0x100, hSum);
      }
    }
  }

  /** The lines at the three pointers. */
  ghost predicate At(raw: seq<byte>, lines: Lines, prev: nat, cur: nat, next: nat) {
    var w := |lines.cur|;
    && lines.Valid() && prev + w <= |raw| && cur + w <= |raw| && next + w <= |raw|
    && lines.above == raw[prev..prev + w] && lines.cur == raw[cur..cur + w] && lines.below == raw[next..next + w]
  }

  /** The first registers of a line: the second column stands in for the one before the first. */
  method InitRegisters(cur0: byte, cur1: byte, above0: byte, above1: byte, below0: byte, below1: byte)
    returns (hVals: nat, vSums: nat)
    ensures Holds(hVals, cur1, cur0, 0) && Holds(vSums, Avg(above1, below1), Avg(above0, below0), 0)
  {
    hVals := cur0 as int * 0x100;
    hVals := hVals + cur1 as int * 0x1_0000;
    Packed(cur1, cur0);
    var sum0: nat, sum1: nat := above0 as int + below0 as int, above1 as int + below1 as int;
    Halves(sum0);
    Halves(sum1);
    vSums := (sum0 * 0x80) / 0x100 % 0x100 * 0x100;
    vSums := vSums + (sum1 * 0x8000) / 0x1_0000 % 0x100 * 0x1_0000;
    assert vSums == Avg(above0, below0) * 0x100 + Avg(above1, below1) * 0x1_0000;
    Packed(Avg(above1, below1), Avg(above0, below0));
  }

  lemma Packed(p: byte, c: byte)
    ensures Holds(c * 0x100 + p * 0x1_0000, p, c, 0)
  {
  }

  lemma Halves(s: nat)
    requires s < 0x200
    ensures (s * 0x80) / 0x100 % 0x100 == s / 2 && (s * 0x8000) / 0x1_0000 % 0x100 == s / 2
  {
  }

  /** The first `n` pixels of a line have been written from `d0` on. */
  ghost predicate LineShown(dst: seq<byte>, d0: nat, lines: Lines, yOdd: bool, n: nat)
    requires lines.Valid() && n <= |lines.cur| && d0 + 3 * |lines.cur| <= |dst|
  {
    forall x: nat | x < n :: PixelAt(dst, d0 + 3 * x, lines.Pixel(yOdd, x))
  }

  lemma OneMoreShown(before: seq<byte>, dst: seq<byte>, d0: nat, lines: Lines, yOdd: bool, n: nat)
    requires lines.Valid() && n < |lines.cur| && d0 + 3 * |lines.cur| <= |dst| == |before|
    requires LineShown(before, d0, lines, yOdd, n) && PixelAt(dst, d0 + 3 * n, lines.Pixel(yOdd, n))
    requires forall k | 0 <= k < |dst| && !(d0 + 3 * n <= k < d0 + 3 * n + 3) :: dst[k] == before[k]
    ensures LineShown(dst, d0, lines, yOdd, n + 1)
  {
    forall x: nat | x < n + 1 ensures PixelAt(dst, d0 + 3 * x, lines.Pixel(yOdd, x)) {
      if x < n { assert PixelAt(before, d0 + 3 * x, lines.Pixel(yOdd, x)); }
    }
  }

  /** One line. The pointers come back as they are after it. */
  method ConvertLine(raw: seq<byte>, dst: array<byte>, prev0: nat, cur0: nat, next0: nat, d0: nat, yOdd: bool, w: nat,
                     ghost lines: Lines)
    returns (prev: nat, cur: nat, next: nat, d: nat)
    requires At(raw, lines, prev0, cur0, next0) && w == |lines.cur| && d0 + 3 * w <= dst.Length
    modifies dst
    ensures prev == prev0 + w && cur == cur0 + w && next == next0 + w && d == d0 + 3 * w
    ensures LineShown(dst[..], d0, lines, yOdd, w)
    ensures forall k | 0 <= k < dst.Length && !(d0 <= k < d0 + 3 * w) :: dst[k] == old(dst[k])
  {
    var hVals: nat, vSums: nat := StartLine(raw, prev0, cur0, next0, lines);
    prev, cur, next, d := prev0 + 1, cur0 + 1, next0 + 1, d0;
    for x := 0 to w - 1
      invariant prev == prev0 + 1 + x && cur == cur0 + 1 + x && next == next0 + 1 + x && d == d0 + 3 * x
      invariant AtColumn(lines, x, hVals, vSums) && LineShown(dst[..], d0, lines, yOdd, x)
      invariant forall k | 0 <= k < dst.Length && !(d0 <= k < d) :: dst[k] == old(dst[k])
    {
      hVals, vSums := NextPixel(raw, dst, prev, cur, next, d, hVals, vSums, yOdd, x, lines, prev0, cur0, next0, d0);
      prev, cur, next, d := prev + 1, cur + 1, next + 1, d + 3;
    }
    LastPixel(dst, d, hVals, vSums, yOdd, w - 1, lines, d0);
    d := d + 3;
  }

  /** Before column `x + 1` is put in. */
  predicate AtColumn(lines: Lines, x: int, hVals: nat, vSums: nat)
    requires lines.Valid() && 0 <= x < |lines.cur|
  {
    Holds(hVals, lines.H(x - 1), lines.H(x), 0) && Holds(vSums, lines.V(x - 1), lines.V(x), 0)
  }

  method StartLine(raw: seq<byte>, prev: nat, cur: nat, next: nat, ghost lines: Lines) returns (hVals: nat, vSums: nat)
    requires At(raw, lines, prev, cur, next)
    ensures AtColumn(lines, 0, hVals, vSums)
  {
    Neighbours(raw, lines, prev, cur, next, 0);
    Neighbours(raw, lines, prev, cur, next, 1);
    hVals, vSums := InitRegisters(raw[cur], raw[cur + 1], raw[prev], raw[prev + 1], raw[next], raw[next + 1]);
  }

  /** The body of the loop over a line. */
  method NextPixel(raw: seq<byte>, dst: array<byte>, prev: nat, cur: nat, next: nat, d: nat, hVals0: nat, vSums0: nat,
                   yOdd: bool, x: nat, ghost lines: Lines, ghost prev0: nat, ghost cur0: nat, ghost next0: nat,
                   ghost d0: nat)
    returns (hVals: nat, vSums: nat)
    requires At(raw, lines, prev0, cur0, next0) && x + 1 < |lines.cur| && AtColumn(lines, x, hVals0, vSums0)
    requires prev == prev0 + 1 + x && cur == cur0 + 1 + x && next == next0 + 1 + x
    requires d == d0 + 3 * x && d0 + 3 * |lines.cur| <= dst.Length && LineShown(dst[..], d0, lines, yOdd, x)
    modifies dst
    ensures AtColumn(lines, x + 1, hVals, vSums) && LineShown(dst[..], d0, lines, yOdd, x + 1)
    ensures forall k | 0 <= k < dst.Length && !(d <= k < d + 3) :: dst[k] == old(dst[k])
  {
    Neighbours(raw, lines, prev0, cur0, next0, x + 1);
    hVals, vSums := EmitColumn(dst, d, hVals0, vSums0, raw[cur], raw[prev], raw[next], yOdd, x, lines, d0);
  }

  method EmitColumn(dst: array<byte>, d: nat, hVals0: nat, vSums0: nat, right: byte, above: byte, below: byte,
                    yOdd: bool, x: nat, ghost lines: Lines, ghost d0: nat)
    returns (hVals: nat, vSums: nat)
    requires lines.Valid() && x + 1 < |lines.cur| && AtColumn(lines, x, hVals0, vSums0)
    requires right == lines.H(x + 1) && Avg(above, below) == lines.V(x + 1)
    requires d == d0 + 3 * x && d0 + 3 * |lines.cur| <= dst.Length && LineShown(dst[..], d0, lines, yOdd, x)
    modifies dst
    ensures AtColumn(lines, x + 1, hVals, vSums) && LineShown(dst[..], d0, lines, yOdd, x + 1)
    ensures forall k | 0 <= k < dst.Length && !(d <= k < d + 3) :: dst[k] == old(dst[k])
  {
    PutColumn(lines, x, hVals0, vSums0);
    hVals := hVals0 + right;
    vSums := vSums0 + (above as int + below as int) / 2;
    ghost var before := dst[..];
    EmitPixel(dst, d, hVals, vSums, yOdd, x, lines);
    OneMoreShown(before, dst[..], d0, lines, yOdd, x);
    ShiftColumn(lines, x, hVals, vSums);
    hVals := hVals * 0x100 % TWO_TO_THE_32;
    vSums := vSums * 0x100 % TWO_TO_THE_32;
  }

  /** The registers hold column `x` and its neighbours. */
  predicate Full(lines: Lines, x: nat, hVals: nat, vSums: nat)
    requires lines.Valid() && x < |lines.cur|
  {
    && Holds(hVals, lines.H(x - 1), lines.H(x), lines.H(x + 1))
    && Holds(vSums, lines.V(x - 1), lines.V(x), lines.V(x + 1))
  }

  lemma PutColumn(lines: Lines, x: nat, hVals: nat, vSums: nat)
    requires lines.Valid() && x < |lines.cur| && AtColumn(lines, x, hVals, vSums)
    ensures Full(lines, x, hVals + lines.H(x + 1), vSums + lines.V(x + 1))
  {
    Put(hVals, lines.H(x - 1), lines.H(x), lines.H(x + 1));
    Put(vSums, lines.V(x - 1), lines.V(x), lines.V(x + 1));
  }

  lemma ShiftColumn(lines: Lines, x: nat, hVals: nat, vSums: nat)
    requires lines.Valid() && x + 1 < |lines.cur| && Full(lines, x, hVals, vSums)
    ensures AtColumn(lines, x + 1, hVals * 0x100 % TWO_TO_THE_32, vSums * 0x100 % TWO_TO_THE_32)
  {
    Shift(hVals, lines.H(x - 1), lines.H(x), lines.H(x + 1));
    Shift(vSums, lines.V(x - 1), lines.V(x), lines.V(x + 1));
  }

  lemma LastColumn(lines: Lines, x: nat, hVals: nat, vSums: nat)
    requires lines.Valid() && x == |lines.cur| - 1 && AtColumn(lines, x, hVals, vSums)
    ensures hVals / 0x1_0000 % 0x100 == lines.H(x + 1) && vSums / 0x1_0000 % 0x100 == lines.V(x + 1)
  {
    Parts(hVals, lines.H(x - 1), lines.H(x), 0);
    Parts(vSums, lines.V(x - 1), lines.V(x), 0);
  }

  /** What follows the loop over a line. */
  method LastPixel(dst: array<byte>, d: nat, hVals0: nat, vSums0: nat, yOdd: bool, x: nat, ghost lines: Lines,
                   ghost d0: nat)
    requires lines.Valid() && x == |lines.cur| - 1 && d == d0 + 3 * x && d0 + 3 * |lines.cur| <= dst.Length
    requires LineShown(dst[..], d0, lines, yOdd, x)
    requires AtColumn(lines, x, hVals0, vSums0)
    modifies dst
    ensures LineShown(dst[..], d0, lines, yOdd, x + 1)
    ensures forall k | 0 <= k < dst.Length && !(d <= k < d + 3) :: dst[k] == old(dst[k])
  {
    LastColumn(lines, x, hVals0, vSums0);
    PutColumn(lines, x, hVals0, vSums0);
    var hVals := hVals0 + hVals0 / 0x1_0000 % 0x100;
    var vSums := vSums0 + vSums0 / 0x1_0000 % 0x100;
    ghost var before := dst[..];
    EmitLastPixel(dst, d, hVals, vSums, yOdd, x, lines);
    OneMoreShown(before, dst[..], d0, lines, yOdd, x);
  }

  lemma Neighbours(raw: seq<byte>, lines: Lines, prev: nat, cur: nat, next: nat, x: nat)
    requires At(raw, lines, prev, cur, next) && x < |lines.cur|
    ensures lines.H(x) == raw[cur + x] && lines.V(x) == Avg(raw[prev + x], raw[next + x])
  {
  }

  predicate ShowsPixel(dst: seq<byte>, raw: seq<byte>, w: nat, h: nat, y: nat, x: nat)
    requires |raw| == h * w && w >= 2 && h >= 2 && y < h && x < w && |dst| == 3 * (h * w)
  {
    RowFits(y, h, w);
    RowEnd(y, w);
    PixelAt(dst, 3 * (y * w) + 3 * x, Demosaic(raw, w, h, y, x))
  }

  lemma LinesAtPointers(raw: seq<byte>, w: nat, h: nat, y: nat, prev: nat, cur: nat, next: nat)
    requires |raw| == h * w && w >= 2 && h >= 2 && y < h
    requires prev == Mirror(y - 1, h) * w && cur == y * w && next == Mirror(y + 1, h) * w
    ensures At(raw, LinesAt(raw, w, h, y), prev, cur, next)
  {
    RowFits(Mirror(y - 1, h), h, w);
    RowFits(y, h, w);
    RowFits(Mirror(y + 1, h), h, w);
    RowEnd(Mirror(y - 1, h), w);
    RowEnd(y, w);
    RowEnd(Mirror(y + 1, h), w);
  }

  /** A line that has been written leaves those before it alone. */
  lemma RowDone(before: seq<byte>, dst: seq<byte>, raw: seq<byte>, w: nat, h: nat, y: nat)
    requires |raw| == h * w && w >= 2 && h >= 2 && y < h && |before| == |dst| == 3 * (h * w)
    requires 3 * (y * w) + 3 * w <= |dst|
    requires LineShown(dst, 3 * (y * w), LinesAt(raw, w, h, y), y % 2 == 1, w)
    requires forall k | 0 <= k < |dst| && !(3 * (y * w) <= k < 3 * (y * w) + 3 * w) :: dst[k] == before[k]
    requires forall v: nat, x: nat | v < y && x < w :: ShowsPixel(before, raw, w, h, v, x)
    ensures forall v: nat, x: nat | v < y + 1 && x < w :: ShowsPixel(dst, raw, w, h, v, x)
  {
    forall v: nat, x: nat | v < y + 1 && x < w ensures ShowsPixel(dst, raw, w, h, v, x) {
      if v < y {
        assert ShowsPixel(before, raw, w, h, v, x);
        RowFits(v, y, w);
        RowEnd(v, w);
      }
    }
  }

  /** Where the pointers are before line `y`. The one to the line above is kept for the last line only. */
  predicate PointersAt(w: nat, h: nat, y: nat, prev: nat, cur: nat, next: nat, d: nat) {
    cur == y * w && next == (y + 1) * w && d == 3 * (y * w) && (y == h - 1 && h >= 2 ==> prev == (h - 2) * w)
  }

  ghost predicate LinesShown(dst: seq<byte>, raw: seq<byte>, w: nat, h: nat, n: nat)
    requires |raw| == h * w && w >= 2 && h >= 2 && n <= h && |dst| == 3 * (h * w)
  {
    forall y: nat, x: nat | y < n && x < w :: ShowsPixel(dst, raw, w, h, y, x)
  }

  /** How the pointers are set before line `y`, and where they are after it. */
  lemma PointersNext(w: nat, h: nat, y: nat, prev0: nat, cur: nat, next0: nat, d: nat, prev: int, next: nat)
    requires w >= 2 && h >= 3 && y < h && PointersAt(w, h, y, prev0, cur, next0, d)
    requires prev == if 0 < y < h - 1 then cur - w else if y == 0 then next0 else prev0
    requires next == if 0 < y < h - 1 || y == 0 then next0 else prev
    ensures prev == Mirror(y - 1, h) * w && cur == y * w && next == Mirror(y + 1, h) * w
    ensures PointersAt(w, h, y + 1, prev + w, cur + w, if y < h - 1 then next + w else (y + 2) * w, d + 3 * w)
    ensures d + 3 * w <= 3 * (h * w)
  {
    RowFits(y, h, w);
    RowEnd(y, w);
    RowEnd(y + 1, w);
    if y > 0 { RowEnd(y - 1, w); }
    if 0 < y == h - 2 { assert Mirror(y - 1, h) == h - 3; RowEnd(h - 3, w); }
  }

  /** The three bytes of a pixel of an image. */
  predicate HasColour(dst: seq<byte>, w: nat, h: nat, y: nat, x: nat, red: byte, green: byte, blue: byte)
    requires y < h && x < w && |dst| == 3 * (h * w)
  {
    RowFits(y, h, w);
    RowEnd(y, w);
    dst[3 * (y * w + x)] == red && dst[3 * (y * w + x) + 1] == green && dst[3 * (y * w + x) + 2] == blue
  }

  lemma SceneShown(dst: seq<byte>, raw: seq<byte>, w: nat, h: nat, red: byte, green: byte, blue: byte)
    requires w >= 2 && h >= 2 && |raw| == h * w && |dst| == 3 * (h * w) && LinesShown(dst, raw, w, h, h)
    requires OneColour(raw, w, h, red, green, blue)
    ensures forall y: nat, x: nat | y < h && x < w :: HasColour(dst, w, h, y, x, red, green, blue)
  {
    forall y: nat, x: nat | y < h && x < w ensures HasColour(dst, w, h, y, x, red, green, blue) {
      assert ShowsPixel(dst, raw, w, h, y, x);
      ColoursKept(raw, w, h, red, green, blue, y, x);
      RowFits(y, h, w);
      RowEnd(y, w);
    }
  }

  /** convert_bayer_to_rgb: every pixel gets the colours that its configuration defines, so that a scene of
      one colour is shown in that colour. */
  method ConvertBayerToRgb(raw: seq<byte>, dst: array<byte>, w: nat, h: nat)
    requires w >= 2 && h >= 3 && |raw| == h * w && dst.Length == 3 * (h * w)
    modifies dst
    ensures forall y: nat, x: nat | y < h && x < w :: ShowsPixel(dst[..], raw, w, h, y, x)
    ensures forall red: byte, green: byte, blue: byte | OneColour(raw, w, h, red, green, blue) ::
      forall y: nat, x: nat | y < h && x < w :: HasColour(dst[..], w, h, y, x, red, green, blue)
  {
    var cur: nat, next: nat, prev: nat, d: nat := 0, w, 0, 0;
    for y := 0 to h
      invariant y < h ==> PointersAt(w, h, y, prev, cur, next, d)
      invariant LinesShown(dst[..], raw, w, h, y)
    {
      ghost var (prev0, next0) := (prev, next);
      if y > 0 && y < h - 1 {
        RowEnd(y - 1, w);
        prev := cur - w;
      } else if y == 0 {
        prev := next;
      } else {
        next := prev;
      }
      PointersNext(w, h, y, prev0, cur, next0, d, prev, next);
      prev, cur, next, d := ConvertLineAt(raw, dst, w, h, y, prev, cur, next, d);
    }
    forall red: byte, green: byte, blue: byte | OneColour(raw, w, h, red, green, blue)
      ensures forall y: nat, x: nat | y < h && x < w :: HasColour(dst[..], w, h, y, x, red, green, blue)
    {
      SceneShown(dst[..], raw, w, h, red, green, blue);
    }
  }

  method ConvertLineAt(raw: seq<byte>, dst: array<byte>, w: nat, h: nat, y: nat, prev0: nat, cur0: nat, next0: nat,
                       d0: nat)
    returns (prev: nat, cur: nat, next: nat, d: nat)
    requires w >= 2 && h >= 3 && y < h && |raw| == h * w && dst.Length == 3 * (h * w)
    requires prev0 == Mirror(y - 1, h) * w && cur0 == y * w && next0 == Mirror(y + 1, h) * w && d0 == 3 * (y * w)
    requires d0 + 3 * w <= dst.Length && LinesShown(dst[..], raw, w, h, y)
    modifies dst
    ensures prev == prev0 + w && cur == cur0 + w && next == next0 + w && d == d0 + 3 * w
    ensures LinesShown(dst[..], raw, w, h, y + 1)
  {
    LinesAtPointers(raw, w, h, y, prev0, cur0, next0);
    ghost var before := dst[..];
    prev, cur, next, d := ConvertLine(raw, dst, prev0, cur0, next0, d0, y % 2 == 1, w, LinesAt(raw, w, h, y));
    RowDone(before, dst[..], raw, w, h, y);
  }
}
