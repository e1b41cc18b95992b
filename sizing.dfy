/**
 * Sizing arithmetic of drawtable.js: the cell size and table size derived
 * from the viewport and the grid dimension, the base font size, and
 * `calculateFontSize`. Sizes are exact reals; `Math.sqrt` is a parameter.
 */
module Sizing {
  import opened Text

  /** Content longer than this many UTF-16 code units is drawn smaller. */
  const MaxContentLength: nat := 16

  /** No cell font is scaled below this many pixels. */
  const MinFontSize: real := 10.0

  /** What the model needs of `Math.sqrt`: positive on positive arguments. */
  ghost predicate PositiveOnPositives(sqrt: real -> real)
  {
    forall x :: 0.0 < x ==> 0.0 < sqrt(x)
  }

  /** ... and strictly increasing on positive arguments. */
  ghost predicate IncreasingOnPositives(sqrt: real -> real)
  {
    forall x, y :: 0.0 < x < y ==> sqrt(x) < sqrt(y)
  }

  function Min(a: nat, b: nat): (m: nat)
    ensures m <= a && m <= b && (m == a || m == b)
  {
    if a <= b then a else b
  }

  function Max(a: real, b: real): (m: real)
    ensures m >= a && m >= b && (m == a || m == b)
  {
    if a >= b then a else b
  }

  /**
   * `Math.floor(0.7 * Math.min(w, h) / n)`: the largest whole cell size
   * whose n-fold multiple still fits in 70% of the smaller viewport side.
   */
  function CellSize(w: nat, h: nat, n: nat): (c: nat)
    requires n >= 1
    ensures (c * n) as real <= 0.7 * Min(w, h) as real < ((c + 1) * n) as real
  {
    var m := Min(w, h);
    FloorFits(m, n);
    (7 * m) / (10 * n)
  }

  /** The floor of 7m / 10n, times n, fits 0.7·m, and the next whole value does not. */
  lemma FloorFits(m: nat, n: nat)
    requires n >= 1
    ensures (7 * m) / (10 * n) >= 0
    ensures (((7 * m) / (10 * n)) * n) as real <= 0.7 * m as real < (((7 * m) / (10 * n) + 1) * n) as real
  {
    var c := (7 * m) / (10 * n);
    FloorBounds(7 * m, 10 * n);
    Tenfold(c, n);
    TenthsToReal(c * n, n, m);
  }

  lemma FloorBounds(a: nat, d: nat)
    requires d >= 1
    ensures 0 <= a / d && (a / d) * d <= a < (a / d) * d + d
  {
  }

  lemma Tenfold(c: int, n: int)
    ensures c * (10 * n) == 10 * (c * n) && (c + 1) * n == c * n + n
  {
  }

  lemma TenthsToReal(x: int, n: int, m: int)
    requires 10 * x <= 7 * m < 10 * x + 10 * n
    ensures x as real <= 0.7 * m as real < (x + n) as real
  {
  }

  /** The derived sizes of one table: cell size, table width and height, base font size. */
  datatype Layout = Layout(cellSize: nat, tableWidth: nat, tableHeight: nat, baseFontSize: real)

  /** The sizing part of `generateTableHTML` for a viewport of w×h and an n×n grid. */
  function ComputeLayout(w: nat, h: nat, n: nat): (l: Layout)
    requires n >= 1
    ensures l.cellSize == CellSize(w, h, n)
    ensures l.tableWidth == l.tableHeight == l.cellSize * n
    ensures l.tableWidth as real <= 0.7 * Min(w, h) as real
    ensures 0.7 * Min(w, h) as real < (l.tableWidth + n) as real
    ensures l.baseFontSize * 5.0 == l.cellSize as real
  {
    var c := CellSize(w, h, n);
    assert (c + 1) * n == c * n + n;
    Layout(c, c * n, c * n, c as real / 5.0)
  }

  /** The scale factor `Math.sqrt(len * 1.2 / 16)` applied to long content. */
  function ScaleFactor(len: nat, sqrt: real -> real): real
  {
    sqrt(len as real * 1.2 / MaxContentLength as real)
  }

  /** `calculateFontSize` for content of `len` UTF-16 code units. */
  function FontSizeForLength(len: nat, baseFontSize: real, sqrt: real -> real): (r: real)
    requires PositiveOnPositives(sqrt)
    ensures len <= MaxContentLength ==> r == baseFontSize
    ensures len > MaxContentLength ==> r >= MinFontSize
    ensures len > MaxContentLength ==> r >= baseFontSize / ScaleFactor(len, sqrt)
    ensures len > MaxContentLength ==> r == MinFontSize || r == baseFontSize / ScaleFactor(len, sqrt)
  {
    if len <= MaxContentLength then baseFontSize
    else
      assert ScaleFactor(len, sqrt) > 0.0;
      Max(baseFontSize / ScaleFactor(len, sqrt), MinFontSize)
  }

  /**
   * `calculateFontSize(cellContent, cellSize, baseFontSize)`; `cellSize`
   * is accepted and not used, as in the source.
   */
  function CalculateFontSize(content: string, cellSize: int, baseFontSize: real, sqrt: real -> real): (r: real)
    requires PositiveOnPositives(sqrt)
    ensures Utf16Length(content) <= MaxContentLength ==> r == baseFontSize
    ensures Utf16Length(content) > MaxContentLength ==> r >= MinFontSize
  {
    FontSizeForLength(Utf16Length(content), baseFontSize, sqrt)
  }

  /** The font size depends on the content only through its length, and not on the cell size. */
  lemma FontSizeDependsOnLength(c1: string, c2: string, cs1: int, cs2: int, baseFontSize: real, sqrt: real -> real)
    requires PositiveOnPositives(sqrt)
    requires Utf16Length(c1) == Utf16Length(c2)
    ensures CalculateFontSize(c1, cs1, baseFontSize, sqrt) == CalculateFontSize(c2, cs2, baseFontSize, sqrt)
  {
  }

  /**
   * For long content and a fixed base, the font size does not grow with the
   * length; it strictly shrinks while above the 10 px floor, and once at
   * the floor it stays there.
   */
  lemma FontSizeMonotone(l1: nat, l2: nat, baseFontSize: real, sqrt: real -> real)
    requires PositiveOnPositives(sqrt) && IncreasingOnPositives(sqrt)
    requires MaxContentLength < l1 <= l2
    ensures FontSizeForLength(l2, baseFontSize, sqrt) <= FontSizeForLength(l1, baseFontSize, sqrt)
    ensures l1 < l2 && FontSizeForLength(l1, baseFontSize, sqrt) > MinFontSize ==>
              FontSizeForLength(l2, baseFontSize, sqrt) < FontSizeForLength(l1, baseFontSize, sqrt)
    ensures FontSizeForLength(l1, baseFontSize, sqrt) == MinFontSize ==>
              FontSizeForLength(l2, baseFontSize, sqrt) == MinFontSize
  {
    var s1, s2 := ScaleFactor(l1, sqrt), ScaleFactor(l2, sqrt);
    assert 0.0 < s1 <= s2;
    if baseFontSize > 0.0 {
      DivideByLarger(baseFontSize, s1, s2);
    } else {
      assert baseFontSize / s1 <= 0.0 && baseFontSize / s2 <= 0.0;
    }
  }

  lemma DivideByLarger(b: real, s1: real, s2: real)
    requires 0.0 < b && 0.0 < s1 <= s2
    ensures b / s2 <= b / s1
    ensures s1 < s2 ==> b / s2 < b / s1
  {
    var q1, q2 := b / s1, b / s2;
    assert q1 * s1 == b && q2 * s2 == b;
    if s1 < s2 {
      assert q2 * s1 < q2 * s2;
    }
  }

  /** The case w = 1000, h = 800, n = 3: cell size 186, table side 558, base font 37.2, kept by short content. */
  lemma WorkedExample(sqrt: real -> real)
    requires PositiveOnPositives(sqrt)
    ensures ComputeLayout(1000, 800, 3) == Layout(186, 558, 558, 37.2)
    ensures CalculateFontSize("X", 186, 37.2, sqrt) == 37.2
  {
  }
}
