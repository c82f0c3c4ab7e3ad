/** `render_svg` of scripts/make_screenshots.py: the screen becomes a canvas
    rectangle, one rectangle per run of cells whose background differs from
    the canvas, and per row one text line of spans, a span per run of cells
    with the same foreground colour and weight. The SVG markup itself is not
    modelled; the picture is the `Svg` value below. */
module Render {
  import opened Wrappers
  import opened Palette
  import opened Screen
  import opened RunLength
  import opened Emulator

  /** Cell size and margin in pixels (`cell_w`, `cell_h`, `padding`). */
  datatype Layout = Layout(cellW: nat, cellH: nat, padding: nat)

  const DefaultLayout: Layout := Layout(9, 16, 10)

  /** A filled rectangle. */
  datatype Rect = Rect(x: int, y: int, width: int, height: int, fill: Rgb)

  /** A `tspan`: its fill, if any, whether it is bold, and its text. */
  datatype Span = Span(fill: Option<Rgb>, bold: bool, text: string)

  /** A `text` element: its position and its spans. */
  datatype TextLine = TextLine(x: int, y: int, spans: seq<Span>)

  datatype Svg = Svg(width: int, height: int, background: Rgb, rects: seq<Rect>, lines: seq<TextLine>)

  /** What decides where a text span ends. */
  datatype Attr = Attr(fg: Rgb, bold: bool)

  function Backgrounds(row: seq<Cell>): seq<Rgb> {
    seq(|row|, x requires 0 <= x < |row| => row[x].bg)
  }

  function Attrs(row: seq<Cell>): seq<Attr> {
    seq(|row|, x requires 0 <= x < |row| => Attr(row[x].fg, row[x].bold))
  }

  /** The character drawn for a cell: NUL is drawn as a space. */
  function Glyph(c: char): char {
    if c != '\0' then c else ' '
  }

  function Glyphs(row: seq<Cell>): string {
    seq(|row|, x requires 0 <= x < |row| => Glyph(row[x].ch))
  }

  /** The runs whose key is not the canvas colour bg0, in order. */
  function Painted(rs: seq<Run<Rgb>>, bg0: Rgb): seq<Run<Rgb>> {
    if rs == [] then []
    else if rs[0].key != bg0 then [rs[0]] + Painted(rs[1..], bg0)
    else Painted(rs[1..], bg0)
  }

  /** Painted keeps exactly the runs not of the canvas colour. */
  lemma {:induction false} PaintedMembers(rs: seq<Run<Rgb>>, bg0: Rgb)
    ensures forall r :: r in Painted(rs, bg0) <==> r in rs && r.key != bg0
    decreases |rs|
  {
    if rs != [] {
      PaintedMembers(rs[1..], bg0);
      assert rs == [rs[0]] + rs[1..];
    }
  }

  /** The background runs of a row that get a rectangle. */
  function BgRuns(row: seq<Cell>, bg0: Rgb): seq<Run<Rgb>> {
    Painted(Runs(Backgrounds(row)), bg0)
  }

  function RectOf(r: Run<Rgb>, y: nat, layout: Layout): Rect {
    Rect(layout.padding + r.start * layout.cellW, layout.padding + y * layout.cellH,
         r.len * layout.cellW, layout.cellH, r.key)
  }

  function RectsOf(ps: seq<Run<Rgb>>, y: nat, layout: Layout): seq<Rect> {
    if ps == [] then [] else [RectOf(ps[0], y, layout)] + RectsOf(ps[1..], y, layout)
  }

  /** The rectangles of row y. */
  function RowRects(row: seq<Cell>, y: nat, bg0: Rgb, layout: Layout): seq<Rect> {
    RectsOf(BgRuns(row, bg0), y, layout)
  }

  /** The rectangles of rows y.. of the grid, row by row. */
  function GridRects(cells: seq<seq<Cell>>, y: nat, bg0: Rgb, layout: Layout): seq<Rect>
    decreases |cells| - y
  {
    if y >= |cells| then [] else RowRects(cells[y], y, bg0, layout) + GridRects(cells, y + 1, bg0, layout)
  }

  function SpanOf(r: Run<Attr>, text: string): Span
    requires r.start + r.len <= |text|
  {
    Span(Some(r.key.fg), r.key.bold, text[r.start..r.start + r.len])
  }

  function SpansOf(rs: seq<Run<Attr>>, text: string): seq<Span>
    requires Within(rs, |text|)
  {
    seq(|rs|, k requires 0 <= k < |rs| => SpanOf(rs[k], text))
  }

  /** The spans of a row: one per maximal run of equal attributes. */
  function Spans(row: seq<Cell>): (spans: seq<Span>)
    ensures |spans| == |Runs(Attrs(row))|
  {
    SpansOf(Runs(Attrs(row)), Glyphs(row))
  }

  function Line(row: seq<Cell>, y: nat, layout: Layout): TextLine {
    TextLine(layout.padding, layout.padding + y * layout.cellH, Spans(row))
  }

  /** The canvas colour of a screen without rows. */
  const Black: Rgb := Rgb(0, 0, 0)

  /** The canvas colour: the background of the top-left cell. A screen
      always has a row, so the fallback to black is never taken. */
  function Canvas(t: Term): (c: Rgb)
    requires WellFormed(t)
    ensures c == t.cells[0][0].bg
  {
    if t.cells != [] then t.cells[0][0].bg else Black
  }

  /** `render_svg(screen, cell_w, cell_h, padding)`. */
  function RenderSvg(t: Term, layout: Layout): Svg
    requires WellFormed(t)
  {
    var bg0 := Canvas(t);
    Svg(layout.padding * 2 + t.cols * layout.cellW, layout.padding * 2 + t.rows * layout.cellH,
        bg0, GridRects(t.cells, 0, bg0, layout),
        seq(t.rows, y requires 0 <= y < t.rows => Line(t.cells[y], y, layout)))
  }

  /** The text of a line: its spans' texts in order. */
  function Joined(spans: seq<Span>): string {
    if spans == [] then "" else spans[0].text + Joined(spans[1..])
  }

  // ----- Background rectangles -----

  /** A cell lies under a rectangle exactly when its background differs from
      the canvas, and then the rectangle has the cell's colour. */
  lemma BgRunsExact(row: seq<Cell>, bg0: Rgb)
    ensures forall x :: 0 <= x < |row| ==>
      ((exists r :: r in BgRuns(row, bg0) && Covers(r, x)) <==> row[x].bg != bg0)
    ensures forall r, x :: r in BgRuns(row, bg0) && Covers(r, x) ==>
      (0 <= x < |row| && row[x].bg == r.key)
  {
    var keys := Backgrounds(row);
    var rs := Runs(keys);
    var ps := BgRuns(row, bg0);
    RunsTile(keys);
    PaintedMembers(rs, bg0);
    forall r, x | r in ps && Covers(r, x)
      ensures 0 <= x < |row| && row[x].bg == r.key
    {
      var k :| 0 <= k < |rs| && rs[k] == r;
      TilingKeys(rs, keys, 0, k, x);
    }
    forall x | 0 <= x < |row|
      ensures (exists r :: r in ps && Covers(r, x)) <==> row[x].bg != bg0
    {
      if row[x].bg != bg0 {
        TilingCovers(rs, keys, 0, x);
        var k :| 0 <= k < |rs| && Covers(rs[k], x) && rs[k].key == keys[x];
        assert rs[k] in ps;
      }
    }
  }

  /** Rectangles never overlap and appear left to right. */
  lemma BgRunsDisjoint(row: seq<Cell>, bg0: Rgb)
    ensures forall i, j :: 0 <= i < j < |BgRuns(row, bg0)| ==>
      BgRuns(row, bg0)[i].start + BgRuns(row, bg0)[i].len <= BgRuns(row, bg0)[j].start
  {
    var keys := Backgrounds(row);
    var rs := Runs(keys);
    RunsTile(keys);
    TilingShape(rs, keys, 0);
    AscendingRuns(rs);
    PaintedAscending(rs, bg0);
  }

  predicate Ascending(rs: seq<Run<Rgb>>) {
    forall i, j :: 0 <= i < j < |rs| ==> rs[i].start + rs[i].len <= rs[j].start
  }

  lemma AscendingRuns(rs: seq<Run<Rgb>>)
    requires forall k :: 0 <= k < |rs| ==> 1 <= rs[k].len
    requires forall k :: 0 <= k < |rs| - 1 ==> rs[k].start + rs[k].len == rs[k + 1].start
    ensures Ascending(rs)
  {
    forall i, j | 0 <= i < j < |rs|
      ensures rs[i].start + rs[i].len <= rs[j].start
    {
      var m := i + 1;
      while m < j
        invariant i + 1 <= m <= j
        invariant rs[i].start + rs[i].len <= rs[m].start
      {
        m := m + 1;
      }
    }
  }

  lemma {:induction false} PaintedAscending(rs: seq<Run<Rgb>>, bg0: Rgb)
    requires Ascending(rs)
    ensures Ascending(Painted(rs, bg0))
    decreases |rs|
  {
    if rs != [] {
      PaintedAscending(rs[1..], bg0);
      var p := Painted(rs[1..], bg0);
      if rs[0].key != bg0 {
        PaintedMembers(rs[1..], bg0);
        var q := [rs[0]] + p;
        forall i, j | 0 <= i < j < |q|
          ensures q[i].start + q[i].len <= q[j].start
        {
          if i == 0 {
            assert q[j] in rs[1..];
          }
        }
      }
    }
  }

  /** A row of one background colour gets a rectangle exactly when that
      colour is not the canvas colour, and then one spanning the row. */
  lemma UniformRowRects(row: seq<Cell>, bg: Rgb, bg0: Rgb)
    requires row != [] && forall x :: 0 <= x < |row| ==> row[x].bg == bg
    ensures BgRuns(row, bg0) == if bg == bg0 then [] else [Run(0, |row|, bg)]
  {
    var keys := Backgrounds(row);
    assert forall j :: 0 <= j < |keys| ==> keys[j] == bg;
    UniformOneRun(keys, bg);
    var rs := [Run(0, |row|, bg)];
    assert rs[1..] == [];
    assert Painted(rs[1..], bg0) == [];
  }

  // ----- Text spans -----

  /** The spans of a row hold its glyphs in order, each is nonempty and
      filled, and neighbours differ in colour or weight. */
  lemma SpansPartitionRow(row: seq<Cell>)
    ensures Joined(Spans(row)) == Glyphs(row)
    ensures forall k :: 0 <= k < |Spans(row)| ==>
      Spans(row)[k].text != [] && Spans(row)[k].fill.Some?
    ensures forall k :: 0 <= k < |Spans(row)| - 1 ==>
      (Spans(row)[k].fill != Spans(row)[k + 1].fill || Spans(row)[k].bold != Spans(row)[k + 1].bold)
  {
    var keys := Attrs(row);
    var rs := Runs(keys);
    var text := Glyphs(row);
    RunsTile(keys);
    TilingShape(rs, keys, 0);
    TilingPieces(rs, keys, 0, text);
    JoinedPieces(rs, text);
    assert text[0..] == text;
    var sp := Spans(row);
    forall k | 0 <= k < |sp|
      ensures sp[k].text != [] && sp[k].fill.Some?
    {
      assert sp[k] == SpanOf(rs[k], text);
    }
    forall k | 0 <= k < |sp| - 1
      ensures sp[k].fill != sp[k + 1].fill || sp[k].bold != sp[k + 1].bold
    {
      assert sp[k] == SpanOf(rs[k], text) && sp[k + 1] == SpanOf(rs[k + 1], text);
    }
  }

  /** Every cell of the k-th span's run is drawn in that span's colour and
      weight. */
  lemma SpanCell(row: seq<Cell>, k: nat, x: int)
    requires k < |Spans(row)| && Covers(Runs(Attrs(row))[k], x)
    ensures 0 <= x < |row|
    ensures Some(row[x].fg) == Spans(row)[k].fill && row[x].bold == Spans(row)[k].bold
    ensures Glyph(row[x].ch) in Spans(row)[k].text
  {
    var keys := Attrs(row);
    var rs := Runs(keys);
    var text := Glyphs(row);
    RunsTile(keys);
    TilingKeys(rs, keys, 0, k, x);
    assert Spans(row)[k] == SpanOf(rs[k], text);
    assert keys[x] == Attr(row[x].fg, row[x].bold);
    assert text[rs[k].start..rs[k].start + rs[k].len][x - rs[k].start] == text[x];
  }

  lemma {:induction false} JoinedPieces(rs: seq<Run<Attr>>, text: string)
    requires Within(rs, |text|)
    ensures Joined(SpansOf(rs, text)) == Pieces(rs, text)
    decreases |rs|
  {
    if rs != [] {
      var tail := rs[1..];
      JoinedPieces(tail, text);
      assert SpansOf(rs, text)[1..] == SpansOf(tail, text);
    }
  }

  /** A row of one colour and weight is a single span. */
  lemma UniformRowSpan(row: seq<Cell>, a: Attr)
    requires row != [] && forall x :: 0 <= x < |row| ==> Attr(row[x].fg, row[x].bold) == a
    ensures Spans(row) == [Span(Some(a.fg), a.bold, Glyphs(row))]
  {
    UniformOneRun(Attrs(row), a);
    assert Glyphs(row)[0..|row|] == Glyphs(row);
  }

  /** Spans of runs that lie within text do not see what follows it. */
  lemma SpansOfExtend(rs: seq<Run<Attr>>, text: string, more: string)
    requires Within(rs, |text|)
    ensures SpansOf(rs, text + more) == SpansOf(rs, text)
  {
    forall k | 0 <= k < |rs|
      ensures SpanOf(rs[k], text + more) == SpanOf(rs[k], text)
    {
      assert (text + more)[rs[k].start..rs[k].start + rs[k].len] == text[rs[k].start..rs[k].start + rs[k].len];
    }
  }

  lemma SpansOfSnoc(rs: seq<Run<Attr>>, r: Run<Attr>, text: string)
    requires Within(rs, |text|) && r.start + r.len <= |text|
    ensures Within(rs + [r], |text|)
    ensures SpansOf(rs + [r], text) == SpansOf(rs, text) + [SpanOf(r, text)]
  {
    assert forall k :: 0 <= k < |rs| ==> (rs + [r])[k] == rs[k];
  }

  /** The spans after one more glyph of colour fg and weight bold: the last
      span grows when it has that colour and weight, otherwise a new span
      starts. */
  function AddGlyph(sp: seq<Span>, fg: Rgb, bold: bool, g: char): seq<Span> {
    if sp != [] && sp[|sp| - 1].fill == Some(fg) && sp[|sp| - 1].bold == bold then
      sp[..|sp| - 1] + [sp[|sp| - 1].(text := sp[|sp| - 1].text + [g])]
    else
      sp + [Span(Some(fg), bold, [g])]
  }

  lemma SpansOfGrow(rs: seq<Run<Attr>>, text: string, g: char)
    requires rs != [] && Within(rs, |text|)
    requires rs[|rs| - 1].start + rs[|rs| - 1].len == |text|
    ensures Within(Append(rs, rs[|rs| - 1].key, |text|), |text + [g]|)
    ensures SpansOf(Append(rs, rs[|rs| - 1].key, |text|), text + [g])
      == AddGlyph(SpansOf(rs, text), rs[|rs| - 1].key.fg, rs[|rs| - 1].key.bold, g)
  {
    var text' := text + [g];
    var n := |rs| - 1;
    var init := rs[..n];
    var last := rs[n].(len := rs[n].len + 1);
    var sp := SpansOf(rs, text);
    assert init + [rs[n]] == rs;
    SpansOfSnoc(init, rs[n], text);
    SpansOfExtend(init, text, [g]);
    SpansOfSnoc(init, last, text');
    assert text'[last.start..last.start + last.len] == text[rs[n].start..rs[n].start + rs[n].len] + [g];
    assert sp[..n] == SpansOf(init, text);
  }

  lemma SpansOfStart(rs: seq<Run<Attr>>, a: Attr, text: string, g: char)
    requires Within(rs, |text|)
    requires rs != [] ==> rs[|rs| - 1].key != a
    ensures Within(Append(rs, a, |text|), |text + [g]|)
    ensures SpansOf(Append(rs, a, |text|), text + [g]) == AddGlyph(SpansOf(rs, text), a.fg, a.bold, g)
  {
    var text' := text + [g];
    var sp := SpansOf(rs, text);
    var r := Run(|text|, 1, a);
    SpansOfExtend(rs, text, [g]);
    SpansOfSnoc(rs, r, text');
    assert text'[|text|..|text| + 1] == [g];
    if rs != [] {
      assert sp[|sp| - 1] == SpanOf(rs[|rs| - 1], text);
    }
  }

  /** One more cell either lengthens the last span, when it has the same
      colour and weight, or starts a new one. */
  lemma SpansSnoc(row: seq<Cell>, c: Cell)
    ensures Spans(row + [c]) == AddGlyph(Spans(row), c.fg, c.bold, Glyph(c.ch))
  {
    var a := Attr(c.fg, c.bold);
    var keys := Attrs(row);
    var text := Glyphs(row);
    assert Attrs(row + [c]) == keys + [a];
    assert Glyphs(row + [c]) == text + [Glyph(c.ch)];
    var rs := Runs(keys);
    RunsSnoc(keys, a);
    RunsTile(keys);
    TilingShape(rs, keys, 0);
    if rs != [] && rs[|rs| - 1].key == a {
      SpansOfGrow(rs, text, Glyph(c.ch));
    } else {
      SpansOfStart(rs, a, text, Glyph(c.ch));
    }
  }

  lemma {:induction false} RectsOfIndex(ps: seq<Run<Rgb>>, y: nat, layout: Layout)
    ensures |RectsOf(ps, y, layout)| == |ps|
    ensures forall k :: 0 <= k < |ps| ==> RectsOf(ps, y, layout)[k] == RectOf(ps[k], y, layout)
    decreases |ps|
  {
    if ps != [] {
      RectsOfIndex(ps[1..], y, layout);
    }
  }

  lemma MulMono(a: nat, b: nat, c: nat)
    requires a <= b
    ensures a * c <= b * c
  {
  }

  /** Where the rectangles of row y of a grid `width` cells wide lie. */
  predicate InRow(q: Rect, width: nat, y: nat, bg0: Rgb, layout: Layout) {
    q.fill != bg0 && q.y == layout.padding + y * layout.cellH && q.height == layout.cellH &&
    layout.padding <= q.x && q.x + q.width <= layout.padding + width * layout.cellW
  }

  /** The rectangle of a run that is not in the canvas colour and lies
      within the row. */
  lemma RunRectPlaced(r: Run<Rgb>, width: nat, y: nat, bg0: Rgb, layout: Layout)
    requires r.key != bg0 && r.start + r.len <= width
    ensures InRow(RectOf(r, y, layout), width, y, bg0, layout)
  {
    MulMono(r.start + r.len, width, layout.cellW);
    assert r.start * layout.cellW + r.len * layout.cellW == (r.start + r.len) * layout.cellW;
  }

  /** The painted runs of a row lie within it and are not in the canvas
      colour. */
  lemma BgRunsWithin(row: seq<Cell>, bg0: Rgb)
    ensures forall k :: 0 <= k < |BgRuns(row, bg0)| ==>
      BgRuns(row, bg0)[k].key != bg0 && BgRuns(row, bg0)[k].start + BgRuns(row, bg0)[k].len <= |row|
  {
    var rs := Runs(Backgrounds(row));
    var ps := Painted(rs, bg0);
    PaintedMembers(rs, bg0);
    forall k | 0 <= k < |ps|
      ensures ps[k].key != bg0 && ps[k].start + ps[k].len <= |row|
    {
      assert ps[k] in rs;
    }
  }

  /** Every rectangle of a row has a colour other than the canvas colour,
      is one cell high at the row's height, and lies horizontally within the
      row's cells. */
  lemma RowRectsPlaced(row: seq<Cell>, y: nat, bg0: Rgb, layout: Layout)
    ensures forall q :: q in RowRects(row, y, bg0, layout) ==> InRow(q, |row|, y, bg0, layout)
  {
    var ps := BgRuns(row, bg0);
    BgRunsWithin(row, bg0);
    RectsOfIndex(ps, y, layout);
    forall q | q in RowRects(row, y, bg0, layout)
      ensures InRow(q, |row|, y, bg0, layout)
    {
      var k :| 0 <= k < |ps| && RectsOf(ps, y, layout)[k] == q;
      RunRectPlaced(ps[k], |row|, y, bg0, layout);
    }
  }

  /** The rectangles of rows y.. of a grid of rows `width` cells wide lie
      within those rows and columns, and none has the canvas colour. */
  lemma {:induction false} GridRectsPlaced(cells: seq<seq<Cell>>, width: nat, y: nat, bg0: Rgb, layout: Layout)
    requires forall r :: 0 <= r < |cells| ==> |cells[r]| == width
    ensures forall q :: q in GridRects(cells, y, bg0, layout) ==>
      q.fill != bg0 && q.height == layout.cellH &&
      layout.padding <= q.x && q.x + q.width <= layout.padding + width * layout.cellW &&
      layout.padding + y * layout.cellH <= q.y && q.y + q.height <= layout.padding + |cells| * layout.cellH
    decreases |cells| - y
  {
    if y < |cells| {
      var here := RowRects(cells[y], y, bg0, layout);
      RowRectsPlaced(cells[y], y, bg0, layout);
      GridRectsPlaced(cells, width, y + 1, bg0, layout);
      MulMono(y, y + 1, layout.cellH);
      MulMono(y + 1, |cells|, layout.cellH);
      assert (y + 1) * layout.cellH == y * layout.cellH + layout.cellH;
    }
  }

  /** Every rectangle of the picture lies inside the canvas, within the
      padding, and is painted in a colour other than the canvas colour. */
  lemma RectsInCanvas(t: Term, layout: Layout)
    requires WellFormed(t)
    ensures var svg := RenderSvg(t, layout);
      forall q :: q in svg.rects ==>
        q.fill != svg.background && q.height == layout.cellH &&
        layout.padding <= q.x && q.x + q.width <= svg.width - layout.padding &&
        layout.padding <= q.y && q.y + q.height <= svg.height - layout.padding
  {
    GridRectsPlaced(t.cells, t.cols, 0, Canvas(t), layout);
  }

  // ----- The whole picture -----

  /** A grid whose every cell has the canvas colour gets no rectangles. */
  lemma {:induction false} UniformGridNoRects(cells: seq<seq<Cell>>, y: nat, bg0: Rgb, layout: Layout)
    requires forall r, x :: 0 <= r < |cells| && 0 <= x < |cells[r]| ==> cells[r][x].bg == bg0
    ensures GridRects(cells, y, bg0, layout) == []
    decreases |cells| - y
  {
    if y < |cells| {
      UniformGridNoRects(cells, y + 1, bg0, layout);
      BgRunsExact(cells[y], bg0);
      var rs := Runs(Backgrounds(cells[y]));
      var ps := Painted(rs, bg0);
      PaintedMembers(rs, bg0);
      if ps != [] {
        RunsTile(Backgrounds(cells[y]));
        TilingShape(rs, Backgrounds(cells[y]), 0);
        assert ps[0] in rs;
        assert Covers(ps[0], ps[0].start);
      }
    }
  }

  /** Each text line of the picture is its row's glyphs, placed one cell
      height below the previous one. */
  lemma LinesShowRows(t: Term, layout: Layout, y: nat)
    requires WellFormed(t) && y < t.rows
    ensures |RenderSvg(t, layout).lines| == t.rows
    ensures Joined(RenderSvg(t, layout).lines[y].spans) == Glyphs(t.cells[y])
    ensures RenderSvg(t, layout).lines[y].y == layout.padding + y * layout.cellH
  {
    SpansPartitionRow(t.cells[y]);
  }

  /** A freshly reset screen renders as the bare canvas in the default
      background, each row one unbolded span of spaces in the default
      foreground. */
  lemma BlankScreen(rows: nat, cols: nat, layout: Layout)
    requires rows >= 1 && cols >= 1
    ensures RenderSvg(Initial(rows, cols), layout).background == DefaultBg
    ensures RenderSvg(Initial(rows, cols), layout).rects == []
    ensures forall y :: 0 <= y < rows ==>
      RenderSvg(Initial(rows, cols), layout).lines[y].spans == [Span(Some(DefaultFg), false, seq(cols, _ => ' '))]
  {
    var t := Initial(rows, cols);
    UniformGridNoRects(t.cells, 0, DefaultBg, layout);
    forall y | 0 <= y < rows
      ensures Spans(t.cells[y]) == [Span(Some(DefaultFg), false, seq(cols, _ => ' '))]
    {
      UniformRowSpan(t.cells[y], Attr(DefaultFg, false));
      assert Glyphs(t.cells[y]) == seq(cols, _ => ' ');
    }
  }

  // ----- The loops of render_svg -----

  /** The rectangles for the runs of keys[x..]. */
  function RectsAfter(keys: seq<Rgb>, x: nat, bg0: Rgb, y: nat, layout: Layout): seq<Rect>
    requires x <= |keys|
  {
    RectsOf(Painted(RunsFrom(keys, x), bg0), y, layout)
  }

  /** A maximal run not of the canvas colour yields the next rectangle ... */
  lemma RunPainted(keys: seq<Rgb>, start: nat, n: nat, bg0: Rgb, y: nat, layout: Layout)
    requires start < |keys| && n == RunLen(keys, start) && keys[start] != bg0
    ensures RectsAfter(keys, start, bg0, y, layout)
      == [RectOf(Run(start, n, keys[start]), y, layout)] + RectsAfter(keys, start + n, bg0, y, layout)
  {
    var r := Run(start, n, keys[start]);
    var rest := RunsFrom(keys, start + n);
    assert RunsFrom(keys, start) == [r] + rest;
    assert ([r] + rest)[1..] == rest;
    assert ([r] + Painted(rest, bg0))[1..] == Painted(rest, bg0);
  }

  /** ... and one of the canvas colour yields none. */
  lemma RunSkipped(keys: seq<Rgb>, start: nat, n: nat, bg0: Rgb, y: nat, layout: Layout)
    requires start < |keys| && n == RunLen(keys, start) && keys[start] == bg0
    ensures RectsAfter(keys, start, bg0, y, layout) == RectsAfter(keys, start + n, bg0, y, layout)
  {
    var r := Run(start, n, keys[start]);
    var rest := RunsFrom(keys, start + n);
    assert RunsFrom(keys, start) == [r] + rest;
    assert ([r] + rest)[1..] == rest;
  }

  /** The inner loop of the background pass: the end of the run of cells
      that share the background of cell `start`. */
  method RunEnd(row: seq<Cell>, start: nat) returns (x: nat)
    requires start < |row|
    ensures x == start + RunLen(Backgrounds(row), start)
  {
    ghost var keys := Backgrounds(row);
    var bg := row[start].bg;
    x := start;
    while x < |row| && row[x].bg == bg
      invariant start <= x <= |row|
      invariant forall j :: start <= j < x ==> keys[j] == bg
    {
      x := x + 1;
    }
    RunLenUnique(keys, start, x - start);
  }

  /** The background loop for one row: runs of equal background, a
      rectangle for each run whose colour is not the canvas colour. */
  method RowRectsLoop(row: seq<Cell>, y: nat, bg0: Rgb, layout: Layout) returns (rects: seq<Rect>)
    ensures rects == RowRects(row, y, bg0, layout)
  {
    ghost var keys := Backgrounds(row);
    ghost var all := RectsAfter(keys, 0, bg0, y, layout);
    rects := [];
    var x := 0;
    while x < |row|
      invariant x <= |row|
      invariant rects + RectsAfter(keys, x, bg0, y, layout) == all
      decreases |row| - x
    {
      var next, emitted := NextRect(row, x, bg0, y, layout);
      AppendAssoc(rects, emitted, RectsAfter(keys, next, bg0, y, layout));
      rects := rects + emitted;
      x := next;
    }
  }

  /** One step of the background pass: from the run starting at `start`,
      the end of that run and the rectangle it yields, if any. */
  method NextRect(row: seq<Cell>, start: nat, bg0: Rgb, y: nat, layout: Layout)
    returns (next: nat, emitted: seq<Rect>)
    requires start < |row|
    ensures start < next <= |row|
    ensures |emitted| <= 1
    ensures RectsAfter(Backgrounds(row), start, bg0, y, layout)
      == emitted + RectsAfter(Backgrounds(row), next, bg0, y, layout)
  {
    ghost var keys := Backgrounds(row);
    var bg := row[start].bg;
    assert keys[start] == bg;
    next := RunEnd(row, start);
    if bg != bg0 {
      emitted := [Rect(layout.padding + start * layout.cellW, layout.padding + y * layout.cellH,
                       (next - start) * layout.cellW, layout.cellH, bg)];
      assert emitted == [RectOf(Run(start, next - start, keys[start]), y, layout)];
      RunPainted(keys, start, next - start, bg0, y, layout);
    } else {
      emitted := [];
      RunSkipped(keys, start, next - start, bg0, y, layout);
    }
  }

  /** A glyph added after the pending text: it joins the pending text when
      the colour and weight are unchanged, and otherwise follows it in a
      new span. */
  lemma AddAfterPending(spans: seq<Span>, fill: Option<Rgb>, bold: bool, buffer: string,
                        fg: Rgb, b: bool, g: char)
    ensures AddGlyph(spans + [Span(fill, bold, buffer)], fg, b, g)
      == if fill == Some(fg) && bold == b then spans + [Span(fill, bold, buffer + [g])]
         else (spans + [Span(fill, bold, buffer)]) + [Span(Some(fg), b, [g])]
  {
    assert (spans + [Span(fill, bold, buffer)])[..|spans|] == spans;
  }

  /** The spans the text loop has produced after the first n cells, with
      the pending text counted as a last span. */
  function FoldSpans(row: seq<Cell>, n: nat): seq<Span>
    requires n <= |row|
  {
    if n == 0 then []
    else AddGlyph(FoldSpans(row, n - 1), row[n - 1].fg, row[n - 1].bold, Glyph(row[n - 1].ch))
  }

  /** Flushing on every change of colour or weight yields exactly the spans
      of the maximal runs. */
  lemma {:induction false} FoldSpansAreRuns(row: seq<Cell>, n: nat)
    requires n <= |row|
    ensures FoldSpans(row, n) == Spans(row[..n])
    decreases n
  {
    if n == 0 {
      assert row[..0] == [] && Runs(Attrs([])) == [];
    } else {
      var prefix, c := row[..n - 1], row[n - 1];
      FoldSpansAreRuns(row, n - 1);
      SpansSnoc(prefix, c);
      TakeSnoc(row, n);
      assert FoldSpans(row, n) == AddGlyph(Spans(prefix), c.fg, c.bold, Glyph(c.ch));
    }
  }

  /** The text loop for one row: the pending text is flushed as a span
      whenever the colour or weight changes, and once at the end. */
  method RowSpansLoop(row: seq<Cell>) returns (spans: seq<Span>)
    ensures spans == Spans(row)
  {
    spans := [];
    var currentFg: Option<Rgb> := None;
    var currentBold := false;
    var buffer := "";
    for x := 0 to |row|
      invariant x == 0 ==> spans == [] && buffer == "" && currentFg == None && !currentBold
      invariant x > 0 ==>
        currentFg == Some(row[x - 1].fg) && currentBold == row[x - 1].bold && buffer != ""
        && spans + [Span(currentFg, currentBold, buffer)] == FoldSpans(row, x)
    {
      var cell := row[x];
      var ch := if cell.ch != '\0' then cell.ch else ' ';
      ghost var spans0, fg0, bold0, buffer0 := spans, currentFg, currentBold, buffer;
      ghost var pending := spans + [Span(currentFg, currentBold, buffer)];
      AddAfterPending(spans, currentFg, currentBold, buffer, cell.fg, cell.bold, ch);
      if currentFg != Some(cell.fg) || cell.bold != currentBold {
        if buffer != "" {
          spans := spans + [Span(currentFg, currentBold, buffer)];
          buffer := "";
        }
        currentFg := Some(cell.fg);
        currentBold := cell.bold;
      }
      buffer := buffer + [ch];
      if x == 0 {
        assert spans == [] && buffer == [ch];
      } else if fg0 == Some(cell.fg) && bold0 == cell.bold {
        assert spans == spans0 && buffer == buffer0 + [ch];
      } else {
        assert spans == pending && buffer == [ch];
      }
    }
    if buffer != "" {
      spans := spans + [Span(currentFg, currentBold, buffer)];
    }
    FoldSpansAreRuns(row, |row|);
    assert row[..|row|] == row;
  }

  /** The first pass of `render_svg`: the rectangles of every row. */
  method GridRectsLoop(cells: seq<seq<Cell>>, bg0: Rgb, layout: Layout) returns (rects: seq<Rect>)
    ensures rects == GridRects(cells, 0, bg0, layout)
  {
    rects := [];
    for y := 0 to |cells|
      invariant rects + GridRects(cells, y, bg0, layout) == GridRects(cells, 0, bg0, layout)
    {
      var rowRects := RowRectsLoop(cells[y], y, bg0, layout);
      ghost var rest := GridRects(cells, y + 1, bg0, layout);
      AppendAssoc(rects, rowRects, rest);
      rects := rects + rowRects;
    }
  }

  /** The second pass of `render_svg`: one text line per row. */
  method TextLinesLoop(cells: seq<seq<Cell>>, layout: Layout) returns (lines: seq<TextLine>)
    ensures |lines| == |cells|
    ensures forall y :: 0 <= y < |cells| ==> lines[y] == Line(cells[y], y, layout)
  {
    lines := [];
    for y := 0 to |cells|
      invariant |lines| == y
      invariant forall r :: 0 <= r < y ==> lines[r] == Line(cells[r], r, layout)
    {
      var spans := RowSpansLoop(cells[y]);
      lines := lines + [TextLine(layout.padding, layout.padding + y * layout.cellH, spans)];
    }
  }

  /** `render_svg` over the emulator's grid. */
  method RenderScreen(screen: TerminalEmulator, layout: Layout) returns (svg: Svg)
    requires screen.Valid()
    ensures svg == RenderSvg(screen.Snapshot(), layout)
  {
    var width := layout.padding * 2 + screen.cols * layout.cellW;
    var height := layout.padding * 2 + screen.rows * layout.cellH;
    var bg0 := if screen.cells != [] then screen.cells[0][0].bg else Black;
    var rects := GridRectsLoop(screen.cells, bg0, layout);
    var lines := TextLinesLoop(screen.cells, layout);
    svg := Svg(width, height, bg0, rects, lines);
  }

  lemma TakeSnoc<T>(s: seq<T>, n: nat)
    requires 0 < n <= |s|
    ensures s[..n] == s[..n - 1] + [s[n - 1]]
  {
  }

  lemma AppendAssoc<T>(a: seq<T>, b: seq<T>, c: seq<T>)
    ensures a + (b + c) == (a + b) + c
  {
  }
}
