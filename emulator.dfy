/** The `TerminalEmulator` class of scripts/make_screenshots.py, as a class
    whose fields the methods update in place. Each method is proved to take
    the state from `Snapshot()` to the corresponding function of Screen, and
    to keep the state invariant `Valid()`. */
module Emulator {
  import opened Wrappers
  import opened Palette
  import opened GraphicRendition
  import opened CsiParams
  import opened Screen

  class TerminalEmulator {
    const cols: nat
    const rows: nat
    var cells: seq<seq<Cell>>
    var cx: int
    var cy: int
    var saved: Option<Pos>
    var currentFg: Rgb
    var currentBg: Rgb
    var bold: bool
    var state: ParserState
    var csiBuf: string
    var oscActive: bool

    /** The pending attributes. */
    function CurrentPen(): Pen
      reads this
    {
      Pen(currentFg, currentBg, bold)
    }

    /** The whole state as a value. */
    function Snapshot(): Term
      reads this
    {
      Term(rows, cols, cells, cx, cy, saved, CurrentPen(), state, csiBuf, oscActive)
    }

    ghost predicate Valid()
      reads this
    {
      WellFormed(Snapshot())
    }

    /** `TerminalEmulator(cols, rows)`: a blank grid of the given size. */
    constructor (cols: nat, rows: nat)
      requires rows >= 1 && cols >= 1
      ensures Snapshot() == Initial(rows, cols)
      ensures Valid()
    {
      this.cols := cols;
      this.rows := rows;
      new;
      Reset();
    }

    /** `reset`. */
    method Reset()
      modifies this
      ensures Snapshot() == Initial(rows, cols)
    {
      cells := seq(rows, _ => Row(cols, DefaultCell));
      cx := 0;
      cy := 0;
      saved := None;
      currentFg := DefaultFg;
      currentBg := DefaultBg;
      bold := false;
      state := Normal;
      csiBuf := "";
      oscActive := false;
    }

    /** `_scroll(count)`: drop the top row and append a blank one, count times. */
    method Scroll(count: nat)
      requires Valid()
      modifies this`cells
      ensures Snapshot() == Screen.Scroll(old(Snapshot()), count)
      ensures Valid()
    {
      for k := 0 to count
        invariant Valid()
        invariant Screen.Scroll(Snapshot(), count - k) == Screen.Scroll(old(Snapshot()), count)
      {
        cells := cells[1..] + [Row(cols, PenCell(' ', CurrentPen()))];
      }
    }

    /** `_newline`. */
    method Newline()
      requires Valid()
      modifies this`cx, this`cy, this`cells
      ensures Snapshot() == Screen.Newline(old(Snapshot()))
      ensures Valid()
    {
      cx := 0;
      cy := cy + 1;
      if cy >= rows {
        cy := rows - 1;
        Scroll(1);
      }
    }

    /** `_put_char`. */
    method PutChar(ch: char)
      requires Valid()
      modifies this`cx, this`cy, this`cells
      ensures Snapshot() == Screen.PutChar(old(Snapshot()), ch)
      ensures Valid()
    {
      if cx >= cols {
        Newline();
      }
      cells := cells[cy := cells[cy][cx := Cell(ch, currentFg, currentBg, bold)]];
      cx := cx + 1;
    }

    /** The loop of `ESC [ K`: blank columns [start, stop) of the cursor row. */
    method EraseLine(start: int, stop: int)
      requires Valid() && 0 <= start <= stop <= cols
      modifies this`cells
      ensures Snapshot() == Screen.EraseLine(old(Snapshot()), start, stop)
      ensures Valid()
    {
      var x := start;
      while x < stop
        invariant start <= x <= stop
        invariant Valid()
        invariant forall y :: 0 <= y < rows && y != cy ==> cells[y] == old(cells)[y]
        invariant forall j :: 0 <= j < cols ==>
          cells[cy][j] == if start <= j < x then PenCell(' ', CurrentPen()) else old(cells)[cy][j]
      {
        if 0 <= cy < rows {
          cells := cells[cy := cells[cy][x := Cell(' ', currentFg, currentBg, bold)]];
        }
        x := x + 1;
      }
      ghost var spec := Screen.EraseLine(old(Snapshot()), start, stop).cells;
      assert cells[cy] == spec[cy];
      assert forall y :: 0 <= y < rows ==> cells[y] == spec[y];
    }

    /** `_handle_csi`. */
    method HandleCsi(final: char, raw: string)
      requires Valid()
      modifies this
      ensures Snapshot() == Screen.HandleCsi(old(Snapshot()), final, raw)
      ensures Valid()
    {
      var ints := ParseParams(raw);
      if final in "HfABCD" {
        MoveCursor(final, ints);
      } else if final == 'J' {
        var mode := if ints != [] then ints[0] else 0;
        if mode == 2 {
          Reset();
        }
      } else if final == 'K' {
        var mode := if ints != [] then ints[0] else 0;
        EraseInLine(mode);
      } else if final == 'm' {
        ApplySgr(ints);
      } else if final == 's' {
        saved := Some(Pos(cx, cy));
      } else if final == 'u' {
        if saved.Some? {
          cx, cy := saved.value.x, saved.value.y;
        }
      }
    }

    /** The cursor-positioning branches of `_handle_csi`. */
    method MoveCursor(final: char, ints: seq<nat>)
      requires Valid()
      modifies this`cx, this`cy
      ensures Snapshot() == Screen.MoveCursor(old(Snapshot()), final, ints)
      ensures Valid()
    {
      if final == 'H' || final == 'f' {
        var row: int := if |ints| >= 1 then ints[0] else 1;
        var col: int := if |ints| >= 2 then ints[1] else 1;
        cy := Max(0, Min(rows - 1, row - 1));
        cx := Max(0, Min(cols - 1, col - 1));
      } else if final == 'A' {
        cy := Max(0, cy - (if ints != [] then ints[0] else 1));
      } else if final == 'B' {
        cy := Min(rows - 1, cy + (if ints != [] then ints[0] else 1));
      } else if final == 'C' {
        cx := Min(cols - 1, cx + (if ints != [] then ints[0] else 1));
      } else if final == 'D' {
        cx := Max(0, cx - (if ints != [] then ints[0] else 1));
      }
    }

    /** The `K` branch of `_handle_csi`: pick the columns the mode names
        and blank them. */
    method EraseInLine(mode: nat)
      requires Valid()
      modifies this`cells
      ensures Snapshot() == Screen.EraseInLine(old(Snapshot()), mode)
      ensures Valid()
    {
      if mode == 0 || mode == 1 || mode == 2 {
        var start, end;
        if mode == 0 {
          start, end := cx, cols;
        } else if mode == 1 {
          start, end := 0, cx + 1;
        } else {
          start, end := 0, cols;
        }
        EraseLine(start, Min(end, cols));
      }
    }

    /** `_apply_sgr`: walk the parameters left to right; the extended colour
        forms consume their arguments. */
    method ApplySgr(params: seq<nat>)
      modifies this`currentFg, this`currentBg, this`bold
      ensures CurrentPen() == GraphicRendition.ApplySgr(old(CurrentPen()), params)
    {
      var ps := if params == [] then [0] else params;
      var i := 0;
      while i < |ps|
        invariant 0 <= i <= |ps|
        invariant Sgr(CurrentPen(), ps[i..]) == Sgr(old(CurrentPen()), ps)
      {
        ghost var step := SgrStep(CurrentPen(), ps[i..]);
        ghost var i0 := i;
        assert ps[i..][0] == ps[i];
        assert 1 < |ps[i..]| ==> ps[i..][1] == ps[i + 1];
        assert 2 < |ps[i..]| ==> ps[i..][2] == ps[i + 2];
        assert 4 < |ps[i..]| ==> ps[i..][3] == ps[i + 3] && ps[i..][4] == ps[i + 4];
        var p := ps[i];
        if p == 0 {
          currentFg := DefaultFg;
          currentBg := DefaultBg;
          bold := false;
        } else if p == 1 {
          bold := true;
        } else if 30 <= p <= 37 {
          currentFg := BaseColors[p - 30];
        } else if 90 <= p <= 97 {
          currentFg := BaseColors[p - 90 + 8];
        } else if p == 39 {
          currentFg := DefaultFg;
        } else if 40 <= p <= 47 {
          currentBg := BaseColors[p - 40];
        } else if 100 <= p <= 107 {
          currentBg := BaseColors[p - 100 + 8];
        } else if p == 49 {
          currentBg := DefaultBg;
        } else if p == 38 || p == 48 {
          var isFg := p == 38;
          if i + 1 < |ps| && ps[i + 1] == 2 && i + 4 < |ps| {
            var color := Rgb(ps[i + 2], ps[i + 3], ps[i + 4]);
            if isFg {
              currentFg := color;
            } else {
              currentBg := color;
            }
            i := i + 4;
          } else if i + 1 < |ps| && ps[i + 1] == 5 && i + 2 < |ps| {
            var color := ColorFromIndex(ps[i + 2]);
            if isFg {
              currentFg := color;
            } else {
              currentBg := color;
            }
            i := i + 2;
          }
        }
        i := i + 1;
        assert CurrentPen() == step.0 && i == i0 + step.1;
        assert ps[i0..][step.1..] == ps[i..];
      }
    }

    /** `feed(data)`: interpret the bytes of one chunk in order. */
    method Feed(data: seq<Byte>)
      requires Valid()
      modifies this
      ensures Snapshot() == Screen.Feed(old(Snapshot()), data)
      ensures Valid()
    {
      var i := 0;
      while i < |data|
        invariant 0 <= i <= |data|
        invariant Valid()
        invariant Screen.Feed(Snapshot(), data[i..]) == Screen.Feed(old(Snapshot()), data)
      {
        ghost var before := Snapshot();
        ghost var i0 := i;
        var b := data[i];
        assert data[i..][0] == b;
        assert |data[i..]| > 1 ==> data[i..][1] == data[i + 1];
        if state == Normal {
          if b == ESC {
            state := Escape;
          } else if b == CR {
            cx := 0;
          } else if b == LF {
            Newline();
          } else if b == BS {
            cx := Max(0, cx - 1);
          } else if b == TAB {
            cx := Min(cols - 1, (cx / 8 + 1) * 8);
          } else if b == BEL {
          } else if IsPrintable(b) {
            PutChar(b as char);
          }
          i := i + 1;
        } else if state == Escape {
          if b == '[' as int {
            state := Csi;
            csiBuf := "";
          } else if b == ']' as int {
            oscActive := true;
            state := Osc;
          } else {
            state := Normal;
          }
          i := i + 1;
        } else if state == Osc {
          if b == BEL {
            oscActive := false;
            state := Normal;
          } else if b == ESC && i + 1 < |data| && data[i + 1] == BACKSLASH {
            oscActive := false;
            state := Normal;
            i := i + 1;
          }
          i := i + 1;
        } else if state == Csi {
          var ch := b as char;
          if '@' <= ch <= '~' {
            HandleCsi(ch, csiBuf);
            state := Normal;
          } else {
            csiBuf := csiBuf + [ch];
          }
          i := i + 1;
        }
        if OscTerminatorAhead(before, data[i0..]) {
          assert Snapshot() == EndOsc(before) && i == i0 + 2;
          assert data[i0..][2..] == data[i..];
        } else {
          assert Snapshot() == Step(before, b) && i == i0 + 1;
          assert data[i0..][1..] == data[i..];
        }
      }
    }
  }

  /** Python's list indexing: an index in -n..-1 counts from the end. */
  function Wrap(i: int, n: nat): (k: int)
    requires 0 <= i + n && i < n
    ensures 0 <= k < n && (k == i || k == i + n)
  {
    if i < 0 then i + n else i
  }

  /** Whether position k of a length-n list is visited by the indices
      lo..hi-1 once negative indices count from the end. */
  predicate Hit(k: int, lo: int, hi: int, n: nat) {
    (lo <= k < hi) || (lo <= k - n < hi)
  }

  /** `fill_rect`: the rectangle of width w and height h at column x, row y,
      clipped at the right and bottom edges, filled with one cell. A negative
      x or y indexes from the far edge as Python lists do; one beyond the
      grid raises on the very first write, which `raised` reports, and then
      nothing has been written. */
  method FillRect(screen: TerminalEmulator, x: int, y: int, w: int, h: int,
                  ch: char, fg: Rgb, bg: Rgb, bold: bool) returns (raised: bool)
    requires screen.Valid()
    modifies screen`cells
    ensures screen.Valid()
    ensures raised <==>
      y < Min(screen.rows, y + h) && x < Min(screen.cols, x + w) &&
      (y + screen.rows < 0 || x + screen.cols < 0)
    ensures raised ==> screen.cells == old(screen.cells)
    ensures !raised ==> forall yy, xx :: 0 <= yy < screen.rows && 0 <= xx < screen.cols ==>
      screen.cells[yy][xx] ==
        if Hit(yy, y, y + h, screen.rows) && Hit(xx, x, x + w, screen.cols) then Cell(ch, fg, bg, bold)
        else old(screen.cells[yy][xx])
  {
    var yStop := Min(screen.rows, y + h);
    var xStop := Min(screen.cols, x + w);
    if y < yStop && x < xStop && (y + screen.rows < 0 || x + screen.cols < 0) {
      return true;
    }
    raised := false;
    var yy := y;
    while yy < yStop
      invariant y <= yy <= Max(y, yStop)
      invariant screen.Valid()
      invariant forall r, c {:trigger screen.cells[r][c]} :: 0 <= r < screen.rows && 0 <= c < screen.cols ==>
        screen.cells[r][c] ==
          if Hit(r, y, yy, screen.rows) && Hit(c, x, xStop, screen.cols) then Cell(ch, fg, bg, bold)
          else old(screen.cells[r][c])
    {
      var xx := x;
      while xx < xStop
        invariant x <= xx <= Max(x, xStop)
        invariant screen.Valid()
        invariant forall r, c {:trigger screen.cells[r][c]} :: 0 <= r < screen.rows && 0 <= c < screen.cols ==>
          screen.cells[r][c] ==
            if (Hit(r, y, yy, screen.rows) && Hit(c, x, xStop, screen.cols)) ||
               (Hit(r, yy, yy + 1, screen.rows) && Hit(c, x, xx, screen.cols))
            then Cell(ch, fg, bg, bold)
            else old(screen.cells[r][c])
      {
        var r, c := Wrap(yy, screen.rows), Wrap(xx, screen.cols);
        screen.cells := screen.cells[r := screen.cells[r][c := Cell(ch, fg, bg, bold)]];
        xx := xx + 1;
      }
      yy := yy + 1;
    }
  }

  /** `draw_text`: the text written along row y from column x, clipped to
      the grid; a missing background keeps each cell's own. */
  method DrawText(screen: TerminalEmulator, x: int, y: int, text: string,
                  fg: Rgb, bg: Option<Rgb>, bold: bool)
    requires screen.Valid()
    modifies screen`cells
    ensures screen.Valid()
    ensures forall yy, xx :: 0 <= yy < screen.rows && 0 <= xx < screen.cols ==>
      screen.cells[yy][xx] ==
        if yy == y && x <= xx < x + |text| then
          Cell(text[xx - x], fg, if bg.Some? then bg.value else old(screen.cells[yy][xx]).bg, bold)
        else old(screen.cells[yy][xx])
  {
    if !(0 <= y < screen.rows) {
      return;
    }
    for i := 0 to |text|
      invariant screen.Valid()
      invariant forall r, c :: 0 <= r < screen.rows && 0 <= c < screen.cols ==>
        screen.cells[r][c] ==
          if r == y && x <= c < x + i then
            Cell(text[c - x], fg, if bg.Some? then bg.value else old(screen.cells[r][c]).bg, bold)
          else old(screen.cells[r][c])
    {
      var xx := x + i;
      if 0 <= xx < screen.cols {
        var cellBg := if bg.Some? then bg.value else screen.cells[y][xx].bg;
        screen.cells := screen.cells[y := screen.cells[y][xx := Cell(text[i], fg, cellBg, bold)]];
      }
    }
  }
}
