/** The terminal emulator of scripts/make_screenshots.py as values: the whole
    state of a `TerminalEmulator` is a `Term`, and each operation of the
    class is a function from the old state to the new one. The class in
    emulator.dfy is proved to follow these functions. */
module Screen {
  import opened Wrappers
  import opened Palette
  import opened GraphicRendition
  import opened CsiParams

  type Byte = b: int | 0 <= b < 256

  const BEL: Byte := 0x07
  const BS: Byte := 0x08
  const TAB: Byte := 0x09
  const LF: Byte := 0x0A
  const CR: Byte := 0x0D
  const ESC: Byte := 0x1B
  const BACKSLASH: Byte := 0x5C

  /** One character position: glyph, colours and weight. */
  datatype Cell = Cell(ch: char, fg: Rgb, bg: Rgb, bold: bool)

  datatype ParserState = Normal | Escape | Csi | Osc

  /** A cursor position (`(cx, cy)`). */
  datatype Pos = Pos(x: int, y: int)

  /** Every field of a `TerminalEmulator`. */
  datatype Term = Term(
    rows: nat,
    cols: nat,
    cells: seq<seq<Cell>>,
    cx: int,
    cy: int,
    saved: Option<Pos>,
    pen: Pen,
    state: ParserState,
    csiBuf: string,
    oscActive: bool)

  /** The cell a write with the pending attributes produces. */
  function PenCell(ch: char, p: Pen): Cell {
    Cell(ch, p.fg, p.bg, p.bold)
  }

  const DefaultCell: Cell := Cell(' ', DefaultFg, DefaultBg, false)

  function Row(cols: nat, c: Cell): seq<Cell> {
    seq(cols, _ => c)
  }

  /** The state invariant: the grid keeps its shape, the cursor row is on the
      grid and the column is on it or one past its end (a pending wrap),
      the saved cursor obeys the same bounds, and `osc_active` records
      whether the parser is inside an OSC string. */
  predicate WellFormed(t: Term) {
    t.rows >= 1 && t.cols >= 1 &&
    |t.cells| == t.rows &&
    (forall y :: 0 <= y < t.rows ==> |t.cells[y]| == t.cols) &&
    0 <= t.cy < t.rows && 0 <= t.cx <= t.cols &&
    (t.saved.Some? ==> 0 <= t.saved.value.x <= t.cols && 0 <= t.saved.value.y < t.rows) &&
    t.oscActive == (t.state == Osc)
  }

  /** The grid dimensions, fixed for the life of an emulator. */
  predicate SameShape(t: Term, r: Term) {
    r.rows == t.rows && r.cols == t.cols
  }

  /** `reset`: a blank grid of default cells, cursor home, nothing saved,
      default attributes, parser in its normal state. */
  function Initial(rows: nat, cols: nat): (t: Term)
    ensures rows >= 1 && cols >= 1 ==> WellFormed(t)
  {
    Term(rows, cols, seq(rows, _ => Row(cols, DefaultCell)), 0, 0, None, DefaultPen, Normal, "", false)
  }

  function Min(a: int, b: int): int { if a <= b then a else b }
  function Max(a: int, b: int): int { if a >= b then a else b }

  /** One `_scroll` step: drop the top row, append a blank row in the
      pending attributes. */
  function ScrollOnce(t: Term): (r: Term)
    requires WellFormed(t)
    ensures WellFormed(r) && SameShape(t, r)
  {
    t.(cells := t.cells[1..] + [Row(t.cols, PenCell(' ', t.pen))])
  }

  /** `_scroll(count)`. */
  function Scroll(t: Term, count: nat): (r: Term)
    requires WellFormed(t)
    ensures WellFormed(r) && SameShape(t, r)
    decreases count
  {
    if count == 0 then t else Scroll(ScrollOnce(t), count - 1)
  }

  /** `_newline`: column 0 of the next row, scrolling at the bottom. */
  function Newline(t: Term): (r: Term)
    requires WellFormed(t)
    ensures WellFormed(r) && r.cx == 0 && SameShape(t, r)
  {
    if t.cy + 1 >= t.rows then Scroll(t.(cx := 0, cy := t.rows - 1), 1)
    else t.(cx := 0, cy := t.cy + 1)
  }

  /** `_put_char`: wrap first when the column is past the end, then write
      the character with the pending attributes and advance. (The source's
      second guard, `cy >= rows`, cannot hold here: Newline keeps cy on the
      grid.) */
  function PutChar(t: Term, ch: char): (r: Term)
    requires WellFormed(t)
    ensures WellFormed(r) && SameShape(t, r)
  {
    var t1 := if t.cx >= t.cols then Newline(t) else t;
    t1.(cells := t1.cells[t1.cy := t1.cells[t1.cy][t1.cx := PenCell(ch, t1.pen)]], cx := t1.cx + 1)
  }

  /** The cells of row `cy` in columns [start, stop) rewritten as blanks in
      the pending attributes. */
  function EraseLine(t: Term, start: int, stop: int): (r: Term)
    requires WellFormed(t)
    ensures WellFormed(r) && SameShape(t, r)
  {
    var old_row := t.cells[t.cy];
    var row := seq(t.cols, x requires 0 <= x < t.cols =>
      if start <= x < stop then PenCell(' ', t.pen) else old_row[x]);
    t.(cells := t.cells[t.cy := row])
  }

  /** The cursor-positioning finals: `H`/`f` go to a 1-based row and column,
      `A`/`B`/`C`/`D` move up, down, right and left by a count. The cursor
      stays within the bounds of the invariant: `H`, `f` and `C` put it on
      the grid, while `A`, `B` and a zero count of `D` keep a cursor that
      sits just past the last column (where a write wraps) there. */
  function MoveCursor(t: Term, final: char, ps: seq<nat>): (r: Term)
    requires WellFormed(t)
    ensures WellFormed(r) && SameShape(t, r)
    ensures r == t.(cx := r.cx, cy := r.cy)
  {
    if final == 'H' || final == 'f' then
      var row: int := if |ps| >= 1 then ps[0] else 1;
      var col: int := if |ps| >= 2 then ps[1] else 1;
      t.(cy := Max(0, Min(t.rows - 1, row - 1)), cx := Max(0, Min(t.cols - 1, col - 1)))
    else if final == 'A' then t.(cy := Max(0, t.cy - Count(ps)))
    else if final == 'B' then t.(cy := Min(t.rows - 1, t.cy + Count(ps)))
    else if final == 'C' then t.(cx := Min(t.cols - 1, t.cx + Count(ps)))
    else if final == 'D' then t.(cx := Max(0, t.cx - Count(ps)))
    else t
  }

  /** `ESC [ mode K`: erase the cursor row from the cursor to the end
      (mode 0), from the start through the cursor (mode 1) or whole (mode 2);
      any other mode does nothing. */
  function EraseInLine(t: Term, mode: nat): (r: Term)
    requires WellFormed(t)
    ensures WellFormed(r) && SameShape(t, r)
    ensures r == t.(cells := r.cells)
  {
    if mode == 0 then EraseLine(t, t.cx, t.cols)
    else if mode == 1 then EraseLine(t, 0, Min(t.cx + 1, t.cols))
    else if mode == 2 then EraseLine(t, 0, t.cols)
    else t
  }

  /** A count parameter: the first parameter, 1 when there is none. */
  function Count(ps: seq<nat>): nat {
    if ps != [] then ps[0] else 1
  }

  /** A mode parameter: the first parameter, 0 when there is none. */
  function Mode(ps: seq<nat>): nat {
    if ps != [] then ps[0] else 0
  }

  /** `_handle_csi`: dispatch on the final byte. */
  function HandleCsi(t: Term, final: char, raw: string): (r: Term)
    requires WellFormed(t)
    ensures WellFormed(r) && SameShape(t, r)
    ensures r.state == t.state || r.state == Normal
  {
    var ps := ParseParams(raw);
    if final in "HfABCD" then MoveCursor(t, final, ps)
    else if final == 'J' then
      if Mode(ps) == 2 then Initial(t.rows, t.cols) else t
    else if final == 'K' then EraseInLine(t, Mode(ps))
    else if final == 'm' then t.(pen := ApplySgr(t.pen, ps))
    else if final == 's' then t.(saved := Some(Pos(t.cx, t.cy)))
    else if final == 'u' then
      if t.saved.Some? then t.(cx := t.saved.value.x, cy := t.saved.value.y) else t
    else t
  }

  predicate IsPrintable(b: Byte) {
    0x20 <= b <= 0x7E || b >= 0xA0
  }

  predicate IsFinal(ch: char) {
    '@' <= ch <= '~'
  }

  /** One byte of `feed`, apart from the two-byte OSC terminator, which
      Feed handles because it looks at the following byte. */
  function Step(t: Term, b: Byte): (r: Term)
    requires WellFormed(t)
    ensures WellFormed(r) && SameShape(t, r)
  {
    match t.state
    case Normal =>
      if b == ESC then t.(state := Escape)
      else if b == CR then t.(cx := 0)
      else if b == LF then Newline(t)
      else if b == BS then t.(cx := Max(0, t.cx - 1))
      else if b == TAB then t.(cx := Min(t.cols - 1, (t.cx / 8 + 1) * 8))
      else if b == BEL then t
      else if IsPrintable(b) then PutChar(t, b as char)
      else t
    case Escape =>
      if b == '[' as int then t.(state := Csi, csiBuf := "")
      else if b == ']' as int then t.(oscActive := true, state := Osc)
      else t.(state := Normal)
    case Osc =>
      if b == BEL then EndOsc(t) else t
    case Csi =>
      var ch := b as char;
      if IsFinal(ch) then HandleCsi(t, ch, t.csiBuf).(state := Normal)
      else t.(csiBuf := t.csiBuf + [ch])
  }

  /** ESC immediately followed by '\' in the same chunk ends an OSC string. */
  predicate OscTerminatorAhead(t: Term, data: seq<Byte>) {
    t.state == Osc && |data| > 1 && data[0] == ESC && data[1] == BACKSLASH
  }

  /** Leaving an OSC string. */
  function EndOsc(t: Term): (r: Term)
    requires WellFormed(t)
    ensures WellFormed(r) && SameShape(t, r)
  {
    t.(oscActive := false, state := Normal)
  }

  /** `feed(data)`: the state after the bytes of one chunk. */
  function Feed(t: Term, data: seq<Byte>): (r: Term)
    requires WellFormed(t)
    ensures WellFormed(r) && SameShape(t, r)
    decreases |data|
  {
    if data == [] then t
    else if OscTerminatorAhead(t, data) then Feed(EndOsc(t), data[2..])
    else Feed(Step(t, data[0]), data[1..])
  }
}
