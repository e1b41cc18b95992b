/**
 * The DOM-independent core of drawtable.js: `generateTableHTML` (title
 * paragraphs, sizes and the row/cell loops) and `generateRandomTable`
 * (collect trimmed cell values, shuffle them, write them back into the
 * cells of a table laid out from the unshuffled values). The form fields
 * become an explicit n×n grid, the title field a string, and the viewport
 * a width and a height.
 */
module DrawTable {
  import opened Text
  import opened Grid
  import opened Sizing
  import opened Shuffle

  /** One `<td>` of the output table: the text it shows and its font size in px. */
  datatype Cell = Cell(content: string, fontSize: real)

  /** One `<p>` of the title block. */
  datatype Paragraph = Paragraph(text: string)

  /** What `generateTableHTML` emits, as structure: the sizes, the title paragraphs, and the rows of cells. */
  datatype Table = Table(layout: Layout, title: seq<Paragraph>, rows: seq<seq<Cell>>)

  function Texts(ps: seq<Paragraph>): (ts: seq<string>)
    ensures |ts| == |ps| && forall i :: 0 <= i < |ps| ==> ts[i] == ps[i].text
  {
    seq(|ps|, i requires 0 <= i < |ps| => ps[i].text)
  }

  /**
   * The title block: the title split on '\n', one paragraph per line, in
   * order; joining the paragraph texts with '\n' restores the title.
   */
  function TitleBlock(title: string): (ps: seq<Paragraph>)
    ensures |ps| == NewlineCount(title) + 1
    ensures forall i :: 0 <= i < |ps| ==> '\n' !in ps[i].text
    ensures Join(Texts(ps)) == title
  {
    var lines := Split(title);
    var ps := seq(|lines|, i requires 0 <= i < |lines| => Paragraph(lines[i]));
    assert Texts(ps) == lines;
    JoinSplit(title);
    ps
  }

  /** A title made of '\n'-free lines yields exactly those lines as paragraphs. */
  lemma TitleBlockOfLines(lines: seq<string>)
    requires |lines| >= 1
    requires forall i :: 0 <= i < |lines| ==> '\n' !in lines[i]
    ensures Texts(TitleBlock(Join(lines))) == lines
  {
    SplitJoin(lines);
    assert Texts(TitleBlock(Join(lines))) == Split(Join(lines));
  }

  /** The cell (i, j) of a table laid out by `layout`, showing `value`. */
  function SizedCell(value: string, layout: Layout, sqrt: real -> real): Cell
    requires PositiveOnPositives(sqrt)
  {
    Cell(value, CalculateFontSize(value, layout.cellSize, layout.baseFontSize, sqrt))
  }

  /**
   * `generateTableHTML(tableSize)` for a w×h viewport, the title field
   * `title` and the n×n field values `grid`. The loops emit n rows of
   * n cells in row-major order, each with its own font size.
   */
  method GenerateTableHTML(w: nat, h: nat, n: nat, title: string, grid: seq<seq<string>>, sqrt: real -> real)
    returns (t: Table)
    requires n >= 1 && IsSquare(grid, n) && PositiveOnPositives(sqrt)
    ensures t.layout == ComputeLayout(w, h, n)
    ensures t.title == TitleBlock(title)
    ensures IsSquare(t.rows, n)
    ensures forall i, j :: 0 <= i < n && 0 <= j < n ==> t.rows[i][j] == SizedCell(grid[i][j], t.layout, sqrt)
  {
    var layout := ComputeLayout(w, h, n);
    var paragraphs := TitleBlock(title);
    var rows: seq<seq<Cell>> := [];
    var i := 0;
    while i < n
      invariant 0 <= i <= n && |rows| == i
      invariant forall r :: 0 <= r < i ==> |rows[r]| == n
      invariant forall r, c :: 0 <= r < i && 0 <= c < n ==> rows[r][c] == SizedCell(grid[r][c], layout, sqrt)
    {
      var row: seq<Cell> := [];
      var j := 0;
      while j < n
        invariant 0 <= j <= n && |row| == j
        invariant forall c :: 0 <= c < j ==> row[c] == SizedCell(grid[i][c], layout, sqrt)
      {
        var cellValue := grid[i][j];
        var fontSize := CalculateFontSize(cellValue, layout.cellSize, layout.baseFontSize, sqrt);
        row := row + [Cell(cellValue, fontSize)];
        j := j + 1;
      }
      rows := rows + [row];
      i := i + 1;
    }
    t := Table(layout, paragraphs, rows);
  }

  /**
   * The cells in the order the markup lists them (the order in which
   * `querySelectorAll` finds them): the k-th shows field (k / n, k % n).
   */
  lemma EmissionOrder(t: Table, n: nat, grid: seq<seq<string>>, sqrt: real -> real, k: nat)
    requires n >= 1 && IsSquare(grid, n) && PositiveOnPositives(sqrt)
    requires IsSquare(t.rows, n)
    requires forall i, j :: 0 <= i < n && 0 <= j < n ==> t.rows[i][j] == SizedCell(grid[i][j], t.layout, sqrt)
    requires k < n * n
    ensures k / n < n && RowMajor(t.rows, n)[k] == SizedCell(grid[k / n][k % n], t.layout, sqrt)
  {
    var i, j := k / n, k % n;
    DivMod(k, n);
    RowMajorAt(t.rows, n, k);
    assert t.rows[i][j] == SizedCell(grid[i][j], t.layout, sqrt);
  }

  /** What one collected entry becomes: the trimmed value, or " " when nothing is left. */
  function CellText(value: string): (r: string)
    ensures r != []
    ensures BlankBetween(value, 0, |value|) <==> r == " "
    ensures !BlankBetween(value, 0, |value|) ==> r == Trim(value)
  {
    var t := Trim(value);
    if t == [] then " " else t
  }

  function CellTexts(values: seq<string>): (r: seq<string>)
    ensures |r| == |values| && forall k :: 0 <= k < |values| ==> r[k] == CellText(values[k])
  {
    seq(|values|, k requires 0 <= k < |values| => CellText(values[k]))
  }

  lemma CellTextsAppend(a: seq<string>, b: seq<string>)
    ensures CellTexts(a + b) == CellTexts(a) + CellTexts(b)
  {
  }

  /** One more field of row i: the collected prefix of that row grows by its `CellText`. */
  lemma CollectFieldStep(row: seq<string>, j: nat)
    requires j < |row|
    ensures CellTexts(row[..j + 1]) == CellTexts(row[..j]) + [CellText(row[j])]
  {
    assert row[..j + 1] == row[..j] + [row[j]];
    CellTextsAppend(row[..j], [row[j]]);
  }

  /** One more row: the collected list grows by that row's `CellTexts`. */
  lemma CollectRowStep(grid: seq<seq<string>>, i: nat)
    requires i < |grid|
    ensures CellTexts(Flatten(grid[..i + 1])) == CellTexts(Flatten(grid[..i])) + CellTexts(grid[i])
  {
    assert grid[..i + 1] == grid[..i] + [grid[i]];
    FlattenSnoc(grid[..i], grid[i]);
    CellTextsAppend(Flatten(grid[..i]), grid[i]);
  }

  /** The list `generateRandomTable` collects: one entry per field, in row-major order; none is empty. */
  function CollectedCells(grid: seq<seq<string>>, n: nat): (cells: seq<string>)
    requires IsSquare(grid, n)
    ensures |cells| == n * n
    ensures forall k :: 0 <= k < |cells| ==> cells[k] != []
  {
    CellTexts(RowMajor(grid, n))
  }

  /** Field (i, j) is collected at index i·n + j, as its `CellText`. */
  lemma CollectedCellAt(grid: seq<seq<string>>, n: nat, i: nat, j: nat)
    requires IsSquare(grid, n) && i < n && j < n
    ensures i * n + j < n * n && CollectedCells(grid, n)[i * n + j] == CellText(grid[i][j])
  {
    var k := i * n + j;
    RowMajorEntry(grid, n, i, j);
    assert CellTexts(RowMajor(grid, n))[k] == CellText(RowMajor(grid, n)[k]);
  }

  /** The collecting loop of `generateRandomTable`: one push per field, row by row. */
  method CollectCells(grid: seq<seq<string>>, n: nat) returns (cells: seq<string>)
    requires IsSquare(grid, n)
    ensures cells == CollectedCells(grid, n)
  {
    cells := [];
    var i := 0;
    while i < n
      invariant 0 <= i <= n
      invariant cells == CellTexts(Flatten(grid[..i]))
    {
      ghost var done := cells;
      var j := 0;
      while j < n
        invariant 0 <= j <= n
        invariant cells == done + CellTexts(grid[i][..j])
      {
        var cellValue := Trim(grid[i][j]);
        var entry := if cellValue == [] then " " else cellValue;
        assert entry == CellText(grid[i][j]);
        CollectFieldStep(grid[i], j);
        assert cells + [entry] == done + (CellTexts(grid[i][..j]) + [entry]);
        cells := cells + [entry];
        j := j + 1;
      }
      assert grid[i][..j] == grid[i];
      CollectRowStep(grid, i);
      i := i + 1;
    }
    assert grid[..n] == grid;
  }

  function Contents(cs: seq<Cell>): (r: seq<string>)
    ensures |r| == |cs| && forall k :: 0 <= k < |cs| ==> r[k] == cs[k].content
  {
    seq(|cs|, k requires 0 <= k < |cs| => cs[k].content)
  }

  function FontSizes(cs: seq<Cell>): (r: seq<real>)
    ensures |r| == |cs| && forall k :: 0 <= k < |cs| ==> r[k] == cs[k].fontSize
  {
    seq(|cs|, k requires 0 <= k < |cs| => cs[k].fontSize)
  }

  /**
   * The `forEach` of `generateRandomTable` over the cell divs in document
   * order: the k-th div gets `cells[k]` as its content and keeps its font size.
   */
  method Refill(divs: seq<Cell>, cells: seq<string>) returns (r: seq<Cell>)
    requires |divs| == |cells|
    ensures Contents(r) == cells
    ensures FontSizes(r) == FontSizes(divs)
  {
    r := divs;
    var index := 0;
    while index < |r|
      invariant 0 <= index <= |r| == |divs|
      invariant forall k :: 0 <= k < |r| ==> r[k].fontSize == divs[k].fontSize
      invariant forall k :: 0 <= k < index ==> r[k].content == cells[k]
    {
      r := r[index := r[index].(content := cells[index])];
      index := index + 1;
    }
  }

  /**
   * `generateRandomTable()` with the random choices `js`. The table is laid
   * out from the field values as they are; `shown` lists its cell divs in
   * document order after the refill: the k-th keeps its font size and shows
   * the k-th entry of the shuffled collected list.
   */
  method GenerateRandomTable(w: nat, h: nat, n: nat, title: string, grid: seq<seq<string>>,
                             sqrt: real -> real, js: seq<nat>)
    returns (t: Table, shown: seq<Cell>)
    requires n >= 1 && IsSquare(grid, n) && PositiveOnPositives(sqrt)
    requires ValidChoices(n * n, js)
    ensures t.layout == ComputeLayout(w, h, n)
    ensures t.title == TitleBlock(title)
    ensures IsSquare(t.rows, n)
    ensures forall i, j :: 0 <= i < n && 0 <= j < n ==> t.rows[i][j] == SizedCell(grid[i][j], t.layout, sqrt)
    ensures FontSizes(shown) == FontSizes(RowMajor(t.rows, n))
    ensures Contents(shown) == Shuffled(CollectedCells(grid, n), js)
    ensures multiset(Contents(shown)) == multiset(CollectedCells(grid, n))
  {
    var cells := CollectCells(grid, n);
    t := GenerateTableHTML(w, h, n, title, grid, sqrt);
    var a := new string[|cells|](k requires 0 <= k < |cells| => cells[k]);
    assert a[..] == cells;
    ShuffleArray(a, js);
    shown := Refill(RowMajor(t.rows, n), a[..]);
    ShuffledPermutes(cells, js);
  }

  /**
   * The font size of the div showing entry i·n + j of the shuffled list is
   * the one computed for field (i, j) before the shuffle, whatever text it
   * now shows.
   */
  lemma ShownFontAt(t: Table, shown: seq<Cell>, grid: seq<seq<string>>, n: nat, sqrt: real -> real, i: nat, j: nat)
    requires n >= 1 && IsSquare(grid, n) && PositiveOnPositives(sqrt)
    requires IsSquare(t.rows, n)
    requires forall i, j :: 0 <= i < n && 0 <= j < n ==> t.rows[i][j] == SizedCell(grid[i][j], t.layout, sqrt)
    requires FontSizes(shown) == FontSizes(RowMajor(t.rows, n))
    requires i < n && j < n
    ensures i * n + j < |shown|
    ensures shown[i * n + j].fontSize == CalculateFontSize(grid[i][j], t.layout.cellSize, t.layout.baseFontSize, sqrt)
  {
    var k := i * n + j;
    RowMajorEntry(t.rows, n, i, j);
    assert FontSizes(shown)[k] == FontSizes(RowMajor(t.rows, n))[k];
  }
}
