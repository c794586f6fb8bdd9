/**
 * The fixed Hama palette and the colour arithmetic of image import:
 * `hexToRgb`, the nearest-palette-colour search and per-channel quantisation.
 */
module Colors {
  import opened JsNumbers

  /** A palette: a non-empty list of colour literals. */
  type Palette = p: seq<string> | |p| > 0 witness ["#ffffff"]

  /** The 24 bead colours, in the order the palette shows them and the nearest-colour search visits them. */
  const HamaPalette: seq<string> := [
    "#ffffff", "#f8d5d8", "#ee5d6c", "#bc1f3f", "#f68c34", "#ffd661", "#e0f0a2", "#8dc63f",
    "#2f8f5b", "#57c7d4", "#1f7ca6", "#3353a1", "#6957a8", "#b986cb", "#8a4d2a", "#5f3a1f",
    "#1e1e1e", "#9ca2a8", "#dce2ea", "#f8b9a0", "#e1785e", "#c95a3f", "#fbe2b7", "#ecc594"
  ]

  datatype Rgb = Rgb(r: int, g: int, b: int)

  predicate IsByte(n: int) {
    0 <= n <= 255
  }

  /** A well-formed colour literal `#rrggbb`. */
  predicate IsHexColor(s: string) {
    |s| == 7 && s[0] == '#' && HexDigitsBetween(s, 1, 7)
  }

  /** The byte written by the two hexadecimal digits `hi` and `lo`. */
  function HexByte(hi: char, lo: char): (n: int)
    requires IsHexDigit(hi) && IsHexDigit(lo)
    ensures IsByte(n)
  {
    16 * HexDigitValue(hi) + HexDigitValue(lo)
  }

  /**
   * The text after the first character: `String.prototype.slice(1)` for a
   * string whose first character is a single UTF-16 code unit.
   */
  function Tail(s: string): (t: string)
    ensures |t| == if s == [] then 0 else |s| - 1
    ensures forall i :: 0 <= i < |t| ==> t[i] == s[i + 1]
  {
    if s == [] then [] else s[1..]
  }

  /**
   * `hexToRgb`: parse everything after the first character as a base-16
   * number and take bits 16-23, 8-15 and 0-7 of it. On a 32-bit signed
   * value, `>> k` is floor division by 2^k (Dafny's `/` with a positive
   * divisor) and `& 255` keeps the low byte (Dafny's `%` is never negative).
   */
  function HexToRgb(hex: string): (c: Rgb)
    ensures IsByte(c.r) && IsByte(c.g) && IsByte(c.b)
  {
    var n := ToInt32(ParseIntHex(Tail(hex)));
    Rgb((n / 0x1_0000) % 256, (n / 0x100) % 256, n % 256)
  }

  /** On a well-formed `#rrggbb`, `hexToRgb` returns the bytes `rr`, `gg` and `bb`. */
  lemma HexToRgbOfHexColor(hex: string)
    requires IsHexColor(hex)
    ensures HexToRgb(hex) == Rgb(HexByte(hex[1], hex[2]), HexByte(hex[3], hex[4]), HexByte(hex[5], hex[6]))
  {
    ParsedHexColor(hex);
    HexToRgbOfParsed(hex, HexByte(hex[1], hex[2]), HexByte(hex[3], hex[4]), HexByte(hex[5], hex[6]));
  }

  lemma ParsedHexColor(hex: string)
    requires IsHexColor(hex)
    ensures ParseIntHex(Tail(hex))
      == Num(HexByte(hex[1], hex[2]) * 0x1_0000 + HexByte(hex[3], hex[4]) * 0x100 + HexByte(hex[5], hex[6]))
  {
    var d := Tail(hex);
    assert d == hex[1..];
    ParsedSixDigits(d);
    assert d[0] == hex[1] && d[1] == hex[2] && d[2] == hex[3] && d[3] == hex[4] && d[4] == hex[5] && d[5] == hex[6];
  }

  lemma ParsedSixDigits(d: string)
    requires |d| == 6 && HexDigitsBetween(d, 0, 6)
    ensures ParseIntHex(d) == Num(HexByte(d[0], d[1]) * 0x1_0000 + HexByte(d[2], d[3]) * 0x100 + HexByte(d[4], d[5]))
  {
    ParseIntHexOfDigits(d);
    SixDigitValue(d);
  }

  /** A colour whose digits parse to the three bytes `hi`, `mid` and `lo` converts to exactly those bytes. */
  lemma HexToRgbOfParsed(hex: string, hi: int, mid: int, lo: int)
    requires IsByte(hi) && IsByte(mid) && IsByte(lo)
    requires ParseIntHex(Tail(hex)) == Num(hi * 0x1_0000 + mid * 0x100 + lo)
    ensures HexToRgb(hex) == Rgb(hi, mid, lo)
  {
    var v := hi * 0x1_0000 + mid * 0x100 + lo;
    assert ToInt32(ParseIntHex(Tail(hex))) == v;
    DivModOfDigits(hi, mid, lo, v);
  }

  lemma SixDigitValue(d: string)
    requires |d| == 6 && HexDigitsBetween(d, 0, 6)
    ensures HexValue(d, 0, 6) == HexByte(d[0], d[1]) * 0x1_0000 + HexByte(d[2], d[3]) * 0x100 + HexByte(d[4], d[5])
  {
    assert HexValue(d, 0, 1) == HexDigitValue(d[0]);
    assert HexValue(d, 0, 2) == HexByte(d[0], d[1]);
    assert HexValue(d, 0, 3) == 16 * HexByte(d[0], d[1]) + HexDigitValue(d[2]);
    assert HexValue(d, 0, 4) == HexByte(d[0], d[1]) * 0x100 + HexByte(d[2], d[3]);
    assert HexValue(d, 0, 5) == 16 * (HexByte(d[0], d[1]) * 0x100 + HexByte(d[2], d[3])) + HexDigitValue(d[4]);
  }

  lemma DivModOfDigits(hi: int, mid: int, lo: int, v: int)
    requires IsByte(hi) && IsByte(mid) && IsByte(lo) && v == hi * 0x1_0000 + mid * 0x100 + lo
    ensures (v / 0x1_0000) % 256 == hi && (v / 0x100) % 256 == mid && v % 256 == lo
  {
    assert v / 0x1_0000 == hi;
    assert v / 0x100 == hi * 0x100 + mid;
    assert (hi * 0x100 + mid) % 256 == mid;
    assert v % 256 == lo;
  }

  // ---------------------------------------------------------------------------
  // Nearest palette colour

  /** The squared Euclidean distance between (`r`, `g`, `b`) and a palette colour. */
  function SquaredDistance(r: real, g: real, b: real, c: Rgb): real {
    (r - c.r as real) * (r - c.r as real)
    + (g - c.g as real) * (g - c.g as real)
    + (b - c.b as real) * (b - c.b as real)
  }

  /** The distance of (`r`, `g`, `b`) to each entry of `palette`, in palette order. */
  function Distances(palette: seq<string>, r: real, g: real, b: real): (ds: seq<real>)
    ensures |ds| == |palette|
  {
    if palette == [] then []
    else [SquaredDistance(r, g, b, HexToRgb(palette[0]))] + Distances(palette[1..], r, g, b)
  }

  /** Entry `i` of the distances is the distance to palette entry `i`. */
  lemma {:induction false} DistanceAt(palette: seq<string>, r: real, g: real, b: real, i: nat)
    requires i < |palette|
    ensures Distances(palette, r, g, b)[i] == SquaredDistance(r, g, b, HexToRgb(palette[i]))
  {
    if i > 0 {
      DistanceAt(palette[1..], r, g, b, i - 1);
    }
  }

  /** The best distance found so far: `Infinity` before any entry is seen. */
  datatype BestDistance = Infinity | Finite(d: real)

  predicate Below(d: real, best: BestDistance) {
    best.Infinity? || d < best.d
  }

  /**
   * The scan of `nearestPaletteColor` over the distances `ds` from entry `i`
   * on, holding the index `best` of the current best entry and its distance:
   * an entry replaces the best only when it is strictly closer.
   */
  function ArgMinFrom(ds: seq<real>, i: nat, best: nat, bestDistance: BestDistance): (k: nat)
    requires i <= |ds| && best < |ds|
    ensures k < |ds|
    decreases |ds| - i
  {
    if i == |ds| then best
    else if Below(ds[i], bestDistance) then ArgMinFrom(ds, i + 1, i, Finite(ds[i]))
    else ArgMinFrom(ds, i + 1, best, bestDistance)
  }

  /** `k` is the first index of a least element of `ds`. */
  predicate IsEarliestMinimum(ds: seq<real>, k: nat) {
    && k < |ds|
    && (forall j :: 0 <= j < |ds| ==> ds[k] <= ds[j])
    && (forall j :: 0 <= j < k ==> ds[j] > ds[k])
  }

  /** What the scan knows when it reaches entry `i`: `best` is the earliest least entry among those seen. */
  predicate ScanSoFar(ds: seq<real>, i: nat, best: nat, bestDistance: BestDistance)
    requires i <= |ds| && best < |ds|
  {
    if bestDistance.Infinity? then i == 0
    else
      && best < i
      && bestDistance.d == ds[best]
      && (forall j :: 0 <= j < i ==> ds[best] <= ds[j])
      && (forall j :: 0 <= j < best ==> ds[j] > ds[best])
  }

  lemma {:induction false} ArgMinFromIsEarliestMinimum(ds: seq<real>, i: nat, best: nat, bestDistance: BestDistance)
    requires i <= |ds| && best < |ds|
    requires ScanSoFar(ds, i, best, bestDistance)
    requires i == |ds| ==> bestDistance.Finite?
    ensures IsEarliestMinimum(ds, ArgMinFrom(ds, i, best, bestDistance))
    decreases |ds| - i
  {
    if i < |ds| {
      if Below(ds[i], bestDistance) {
        ArgMinFromIsEarliestMinimum(ds, i + 1, i, Finite(ds[i]));
      } else {
        ArgMinFromIsEarliestMinimum(ds, i + 1, best, bestDistance);
      }
    }
  }

  /** The index of the colour `nearestPaletteColor(r, g, b)` returns when searching `palette`. */
  function NearestIndex(palette: Palette, r: real, g: real, b: real): (k: nat)
    ensures k < |palette|
  {
    ArgMinFrom(Distances(palette, r, g, b), 0, 0, Infinity)
  }

  /**
   * `nearestPaletteColor` picks an entry no other entry is strictly closer
   * than, and the earliest such entry on ties.
   */
  lemma NearestIndexIsEarliestMinimum(palette: Palette, r: real, g: real, b: real)
    ensures IsEarliestMinimum(Distances(palette, r, g, b), NearestIndex(palette, r, g, b))
  {
    ArgMinFromIsEarliestMinimum(Distances(palette, r, g, b), 0, 0, Infinity);
  }

  /**
   * The same in terms of the colours: no palette entry is strictly closer to
   * (`r`, `g`, `b`) than the chosen one, and every earlier entry is strictly
   * farther.
   */
  lemma NearestIsClosest(palette: Palette, r: real, g: real, b: real)
    ensures var k := NearestIndex(palette, r, g, b);
      forall j :: 0 <= j < |palette| ==>
        && SquaredDistance(r, g, b, HexToRgb(palette[k])) <= SquaredDistance(r, g, b, HexToRgb(palette[j]))
        && (j < k ==> SquaredDistance(r, g, b, HexToRgb(palette[j])) > SquaredDistance(r, g, b, HexToRgb(palette[k])))
  {
    var k := NearestIndex(palette, r, g, b);
    NearestIndexIsEarliestMinimum(palette, r, g, b);
    DistanceAt(palette, r, g, b, k);
    forall j | 0 <= j < |palette|
      ensures Distances(palette, r, g, b)[j] == SquaredDistance(r, g, b, HexToRgb(palette[j]))
    {
      DistanceAt(palette, r, g, b, j);
    }
  }

  /** The earliest least index is unique, so `IsEarliestMinimum` determines the choice: any such index is the one chosen. */
  lemma NearestIndexIsUnique(palette: Palette, r: real, g: real, b: real, k: nat)
    requires IsEarliestMinimum(Distances(palette, r, g, b), k)
    ensures k == NearestIndex(palette, r, g, b)
  {
    NearestIndexIsEarliestMinimum(palette, r, g, b);
  }

  /**
   * `nearestPaletteColor`: a linear scan over the palette with a running
   * best. The global `hamaPalette` it reads is passed in; the editor
   * always passes `HamaPalette`.
   */
  method NearestPaletteColor(palette: Palette, r: real, g: real, b: real) returns (best: string)
    ensures best == palette[NearestIndex(palette, r, g, b)]
  {
    ghost var ds := Distances(palette, r, g, b);
    best := palette[0];
    var bestDistance := Infinity;
    ghost var bestIndex: nat := 0;
    var i := 0;
    while i < |palette|
      invariant i <= |palette|
      invariant bestIndex < |palette| && best == palette[bestIndex]
      invariant ArgMinFrom(ds, i, bestIndex, bestDistance) == NearestIndex(palette, r, g, b)
    {
      var hex := palette[i];
      var distance := SquaredDistance(r, g, b, HexToRgb(hex));
      DistanceAt(palette, r, g, b, i);
      if Below(distance, bestDistance) {
        bestDistance := Finite(distance);
        best := hex;
        bestIndex := i;
      }
      i := i + 1;
    }
  }

  // ---------------------------------------------------------------------------
  // Quantisation

  /** The distance between two neighbouring levels of a channel quantised to `levels` levels. */
  function Step(levels: int): (s: real)
    requires levels > 1
    ensures s > 0.0
  {
    255.0 / (levels - 1) as real
  }

  /** `x` is a whole multiple of the step for `levels` levels. */
  predicate OnStepGrid(x: real, levels: int)
    requires levels > 1
  {
    (x / Step(levels)).Floor as real == x / Step(levels)
  }

  /**
   * `quantize`: with one level or fewer the value passes through; otherwise
   * it is rounded to the nearest multiple of 255/(levels-1), halves upwards.
   */
  function Quantize(value: real, levels: int): real
  {
    if levels <= 1 then value
    else (MathRound(value / Step(levels)) as real) * Step(levels)
  }

  /**
   * With one level or fewer nothing changes; otherwise the result lies on the
   * step grid and within half a step of the value, the upper half open.
   */
  lemma QuantizeIsNearestStep(value: real, levels: int)
    ensures levels <= 1 ==> Quantize(value, levels) == value
    ensures levels > 1 ==> OnStepGrid(Quantize(value, levels), levels)
    ensures levels > 1 ==>
      var q := Quantize(value, levels);
      q - Step(levels) / 2.0 <= value < q + Step(levels) / 2.0
  {
    if levels > 1 {
      var step := Step(levels);
      var k := MathRound(value / step);
      var q := (k as real) * step;
      assert Quantize(value, levels) == q;
      QuantizeFacts(value, step, k, q);
      assert (q / step).Floor == k;
    }
  }

  /** Rounding `value / step` to `k` puts the multiple `q` of the step within half a step of `value`. */
  lemma QuantizeFacts(value: real, step: real, k: int, q: real)
    requires step > 0.0
    requires (k as real) - 0.5 <= value / step < (k as real) + 0.5
    requires q == (k as real) * step
    ensures q / step == k as real
    ensures q - step / 2.0 <= value < q + step / 2.0
  {
    DivisionUndoesMultiplication(k as real, step);
    DivisionUndoesMultiplication(value, step);
    HalfStepBounds(k as real, value / step, step, value);
  }

  lemma DivisionUndoesMultiplication(a: real, c: real)
    requires c > 0.0
    ensures (a * c) / c == a
    ensures (a / c) * c == a
  {
  }

  /** Within half a unit of `a`, scaled by `c`: within half of `c` of `a * c`. */
  lemma HalfStepBounds(a: real, x: real, c: real, value: real)
    requires c > 0.0 && a - 0.5 <= x < a + 0.5 && x * c == value
    ensures a * c - c / 2.0 <= value < a * c + c / 2.0
  {
    HalfStepProducts(a, c, a * c);
    ScaledBetween(a - 0.5, a + 0.5, x, c, a * c - c / 2.0, a * c + c / 2.0, value);
  }

  lemma HalfStepProducts(a: real, c: real, p: real)
    requires p == a * c
    ensures (a - 0.5) * c == p - c / 2.0
    ensures (a + 0.5) * c == p + c / 2.0
  {
  }

  /** Scaling by a positive `c` keeps `x` between `u` and `v`; the products are passed in as plain values. */
  lemma ScaledBetween(u: real, v: real, x: real, c: real, lo: real, hi: real, q: real)
    requires c > 0.0 && u <= x < v && u * c == lo && v * c == hi && q == x * c
    ensures lo <= q < hi
  {
    MultiplyPreservesOrder(u, x, c);
    MultiplyPreservesStrictOrder(x, v, c);
  }

  /** The top level, `levels - 1` steps up, is exactly 255. */
  lemma TopLevelIsFull(levels: int)
    requires levels > 1
    ensures (levels - 1) as real * Step(levels) == 255.0
  {
  }

  /** A value between 0 and `top` steps lies between 0 and `top` once divided by the step. */
  lemma ScaledValueBounds(value: real, step: real, top: real)
    requires step > 0.0 && 0.0 <= value <= top * step
    ensures 0.0 <= value / step <= top
  {
    var x := value / step;
    assert value == x * step;
    if x > top {
      MultiplyPreservesStrictOrder(top, x, step);
    }
    if x < 0.0 {
      MultiplyPreservesStrictOrder(x, 0.0, step);
    }
  }

  /** Quantising a channel value in 0..255 gives a value in 0..255. */
  lemma QuantizeStaysInChannelRange(value: real, levels: int)
    requires 0.0 <= value <= 255.0
    ensures 0.0 <= Quantize(value, levels) <= 255.0
  {
    if levels > 1 {
      var step := Step(levels);
      var top := (levels - 1) as real;
      TopLevelIsFull(levels);
      ScaledValueBounds(value, step, top);
      var k := MathRound(value / step);
      assert 0 <= k <= levels - 1;
      MultiplyPreservesOrder(0.0, k as real, step);
      MultiplyPreservesOrder(k as real, top, step);
      assert Quantize(value, levels) == (k as real) * step;
    }
  }

  /** Quantising twice with the same level count changes nothing more. */
  lemma QuantizeIsIdempotent(value: real, levels: int)
    ensures Quantize(Quantize(value, levels), levels) == Quantize(value, levels)
  {
    if levels > 1 {
      var step := Step(levels);
      var q := Quantize(value, levels);
      var k := MathRound(value / step);
      QuantizeFacts(value, step, k, q);
      assert q / step == k as real;
      assert MathRound(q / step) == k;
    }
  }

  /** With two levels a channel is a threshold at the midpoint: 0..127 become 0, 128..255 become 255. */
  lemma QuantizeTwoLevels(v: int)
    requires 0 <= v <= 255
    ensures Quantize(v as real, 2) == if v <= 127 then 0.0 else 255.0
  {
    var x := v as real / 255.0;
    assert Step(2) == 255.0;
    if v <= 127 {
      assert x <= 127.0 / 255.0;
      assert MathRound(x) == 0;
    } else {
      assert x >= 128.0 / 255.0;
      assert x <= 1.0;
      assert 1.0 <= x + 0.5 < 2.0;
      assert (x + 0.5).Floor == 1;
      assert MathRound(x) == 1;
      assert v as real / Step(2) == x;
      assert Quantize(v as real, 2) == (MathRound(x) as real) * Step(2);
    }
  }
}
