/** Properties of the emulator model in Screen: what each operation does to
    the grid, the cursor and the pending attributes, and what it leaves alone. */
module ScreenProps {
  import opened Wrappers
  import opened Palette
  import opened GraphicRendition
  import opened CsiParams
  import opened Screen

  /** `_scroll(n)` shifts every row up by n unchanged and fills the bottom n
      rows with blanks in the pending attributes; nothing else changes. */
  lemma {:induction false} ScrollShifts(t: Term, n: nat)
    requires WellFormed(t)
    ensures var r := Scroll(t, n);
      r == t.(cells := r.cells) &&
      forall y, x :: 0 <= y < t.rows && 0 <= x < t.cols ==>
        r.cells[y][x] == if y + n < t.rows then t.cells[y + n][x] else PenCell(' ', t.pen)
    decreases n
  {
    if n > 0 {
      var s := ScrollOnce(t);
      ScrollShifts(s, n - 1);
      var r := Scroll(s, n - 1);
      forall y, x | 0 <= y < t.rows && 0 <= x < t.cols
        ensures r.cells[y][x] == if y + n < t.rows then t.cells[y + n][x] else PenCell(' ', t.pen)
      {
        if y + n < t.rows {
          assert s.cells[y + n - 1] == t.cells[y + n];
        } else if y + n == t.rows {
          assert s.cells[t.rows - 1] == Row(t.cols, PenCell(' ', t.pen));
        }
      }
    }
  }

  /** `_newline`: column 0 of the next row; on the last row the grid scrolls
      by one and the cursor stays on the last row. */
  lemma NewlineEffect(t: Term)
    requires WellFormed(t)
    ensures var r := Newline(t);
      r == t.(cx := 0, cy := r.cy, cells := r.cells) &&
      (t.cy + 1 < t.rows ==> r.cy == t.cy + 1 && r.cells == t.cells) &&
      (t.cy + 1 == t.rows ==> (r.cy == t.rows - 1 &&
        (forall y, x :: 0 <= y < t.rows - 1 && 0 <= x < t.cols ==> r.cells[y][x] == t.cells[y + 1][x]) &&
        r.cells[t.rows - 1] == Row(t.cols, PenCell(' ', t.pen))))
  {
    if t.cy + 1 >= t.rows {
      ScrollShifts(t.(cx := 0, cy := t.rows - 1), 1);
    }
  }

  /** `_put_char`: the character lands, in the pending attributes, just left
      of the new cursor. Without a pending wrap it is written at the cursor
      and no other cell changes; with one it goes to column 0 of the next
      row, and at the bottom row the grid scrolls by one first. The pending
      attributes, the saved cursor and the parser state are untouched. */
  lemma PutCharEffect(t: Term, ch: char)
    requires WellFormed(t)
    ensures var r := PutChar(t, ch);
      r == t.(cx := r.cx, cy := r.cy, cells := r.cells) &&
      1 <= r.cx <= t.cols && r.cells[r.cy][r.cx - 1] == PenCell(ch, t.pen) &&
      (t.cx < t.cols ==> (r.cy == t.cy && r.cx == t.cx + 1 &&
        forall y, x :: 0 <= y < t.rows && 0 <= x < t.cols && (y != t.cy || x != t.cx) ==>
          r.cells[y][x] == t.cells[y][x])) &&
      (t.cx == t.cols && t.cy + 1 < t.rows ==> (r.cy == t.cy + 1 && r.cx == 1 &&
        forall y, x :: 0 <= y < t.rows && 0 <= x < t.cols && (y != t.cy + 1 || x != 0) ==>
          r.cells[y][x] == t.cells[y][x])) &&
      (t.cx == t.cols && t.cy + 1 == t.rows ==> (r.cy == t.rows - 1 && r.cx == 1 &&
        (forall y, x :: 0 <= y < t.rows - 1 && 0 <= x < t.cols ==> r.cells[y][x] == t.cells[y + 1][x]) &&
        r.cells[t.rows - 1][1..] == Row(t.cols - 1, PenCell(' ', t.pen))))
  {
    if t.cx >= t.cols {
      NewlineEffect(t);
    }
  }

  // ---------------------------------------------------------------------
  // Control sequences, with their parameters written as decimal text.

  /** `ESC [ row ; col H` (or `f`) moves the cursor to the 1-based cell
      (row, col) when it is on the grid and to the nearest edge otherwise;
      a missing parameter counts as 1, and nothing but the cursor changes. */
  lemma {:induction false} CursorPosition(t: Term, row: nat, col: nat)
    requires WellFormed(t)
    ensures var r := HandleCsi(t, 'H', EncodeParams([row, col]));
      r == HandleCsi(t, 'f', EncodeParams([row, col])) &&
      r == t.(cx := r.cx, cy := r.cy) &&
      (1 <= row <= t.rows ==> r.cy == row - 1) && (row > t.rows ==> r.cy == t.rows - 1) &&
      (row == 0 ==> r.cy == 0) &&
      (1 <= col <= t.cols ==> r.cx == col - 1) && (col > t.cols ==> r.cx == t.cols - 1) &&
      (col == 0 ==> r.cx == 0)
    ensures var r := HandleCsi(t, 'H', EncodeParams([row]));
      r == t.(cx := 0, cy := r.cy) && (1 <= row <= t.rows ==> r.cy == row - 1)
    ensures HandleCsi(t, 'H', "") == t.(cx := 0, cy := 0)
  {
    PositionBoth(t, row, col);
    PositionRowOnly(t, row);
    PositionNone(t);
  }

  /** `ESC [ row ; col H` and `ESC [ row ; col f` agree and move only the
      cursor. */
  lemma PositionBoth(t: Term, row: nat, col: nat)
    requires WellFormed(t)
    ensures var r := HandleCsi(t, 'H', EncodeParams([row, col]));
      r == HandleCsi(t, 'f', EncodeParams([row, col])) &&
      r == t.(cx := r.cx, cy := r.cy) &&
      (1 <= row <= t.rows ==> r.cy == row - 1) && (row > t.rows ==> r.cy == t.rows - 1) &&
      (row == 0 ==> r.cy == 0) &&
      (1 <= col <= t.cols ==> r.cx == col - 1) && (col > t.cols ==> r.cx == t.cols - 1) &&
      (col == 0 ==> r.cx == 0)
  {
    ParseEncodeRoundTrip([row, col]);
    MoveDispatch(t, 'H', EncodeParams([row, col]));
    MoveDispatch(t, 'f', EncodeParams([row, col]));
  }

  /** `ESC [ row H` moves to the first column of that row. */
  lemma PositionRowOnly(t: Term, row: nat)
    requires WellFormed(t)
    ensures var r := HandleCsi(t, 'H', EncodeParams([row]));
      r == t.(cx := 0, cy := r.cy) && (1 <= row <= t.rows ==> r.cy == row - 1)
  {
    ParseEncodeRoundTrip([row]);
    MoveDispatch(t, 'H', EncodeParams([row]));
  }

  /** `ESC [ H` moves home. */
  lemma PositionNone(t: Term)
    requires WellFormed(t)
    ensures HandleCsi(t, 'H', "") == t.(cx := 0, cy := 0)
  {
    ParseEncodeRoundTrip([]);
    assert EncodeParams([]) == "";
    MoveDispatch(t, 'H', "");
  }

  /** `ESC [ n A/B/C/D` move the cursor n places up, down, right or left,
      stopping at the grid's edge; without a parameter n is 1; an explicit
      0 leaves the cursor where it is. Only the cursor changes. */
  lemma {:induction false} CursorMoves(t: Term, n: nat)
    requires WellFormed(t)
    ensures var r := HandleCsi(t, 'A', EncodeParams([n]));
      r == t.(cy := if n <= t.cy then t.cy - n else 0)
    ensures var r := HandleCsi(t, 'B', EncodeParams([n]));
      r == t.(cy := if t.cy + n < t.rows then t.cy + n else t.rows - 1)
    ensures var r := HandleCsi(t, 'C', EncodeParams([n]));
      r == t.(cx := if t.cx + n < t.cols then t.cx + n else t.cols - 1)
    ensures var r := HandleCsi(t, 'D', EncodeParams([n]));
      r == t.(cx := if n <= t.cx then t.cx - n else 0)
  {
    var raw := EncodeParams([n]);
    ParseEncodeRoundTrip([n]);
    MoveDispatch(t, 'A', raw);
    MoveDispatch(t, 'B', raw);
    MoveDispatch(t, 'C', raw);
    MoveDispatch(t, 'D', raw);
  }

  /** Without a parameter the cursor moves by one. */
  lemma CursorMovesByDefault(t: Term, final: char)
    requires WellFormed(t) && final in "ABCD"
    ensures HandleCsi(t, final, "") == HandleCsi(t, final, EncodeParams([1]))
  {
    var one := EncodeParams([1]);
    ParseEncodeRoundTrip([1]);
    assert ParseParams("") == [];
    MoveDispatch(t, final, "");
    MoveDispatch(t, final, one);
    MovesByCount(t, final, [], [1]);
  }

  /** The relative moves depend only on the count. */
  lemma MovesByCount(t: Term, final: char, ps: seq<nat>, qs: seq<nat>)
    requires WellFormed(t) && final in "ABCD" && Count(ps) == Count(qs)
    ensures MoveCursor(t, final, ps) == MoveCursor(t, final, qs)
  {
  }

  /** The cursor-positioning finals go to MoveCursor with the parsed
      parameters. */
  lemma MoveDispatch(t: Term, final: char, raw: string)
    requires WellFormed(t) && final in "HfABCD"
    ensures HandleCsi(t, final, raw) == MoveCursor(t, final, ParseParams(raw))
  {
  }

  /** The columns of the cursor row that `ESC [ mode K` erases. */
  predicate Erased(mode: nat, cx: int, x: int) {
    if mode == 0 then cx <= x
    else if mode == 1 then x <= cx
    else mode == 2
  }

  /** `ESC [ mode K` rewrites as blanks in the pending attributes the cursor
      row from the cursor to the end (mode 0, also the default), from the
      start through the cursor (mode 1) or whole (mode 2); other modes do
      nothing. No other row and nothing but the grid changes. */
  lemma {:induction false} EraseInLineEffect(t: Term, mode: nat)
    requires WellFormed(t)
    ensures var r := HandleCsi(t, 'K', EncodeParams([mode]));
      r == t.(cells := r.cells) &&
      forall y, x :: 0 <= y < t.rows && 0 <= x < t.cols ==>
        r.cells[y][x] == if y == t.cy && Erased(mode, t.cx, x) then PenCell(' ', t.pen) else t.cells[y][x]
    ensures HandleCsi(t, 'K', "") == HandleCsi(t, 'K', EncodeParams([0]))
  {
    var raw := EncodeParams([mode]);
    ParseEncodeRoundTrip([mode]);
    KDispatch(t, raw);
    EraseInLineModes(t, mode);
    EraseDefault(t);
  }

  /** With no parameter, `ESC [ K` is `ESC [ 0 K`. */
  lemma EraseDefault(t: Term)
    requires WellFormed(t)
    ensures HandleCsi(t, 'K', "") == HandleCsi(t, 'K', EncodeParams([0]))
  {
    ParseEncodeRoundTrip([0]);
    assert ParseParams("") == [];
    KDispatch(t, "");
    KDispatch(t, EncodeParams([0]));
  }

  /** The final `K` goes to EraseInLine with the mode its parameters
      select. */
  lemma KDispatch(t: Term, raw: string)
    requires WellFormed(t)
    ensures HandleCsi(t, 'K', raw) == EraseInLine(t, Mode(ParseParams(raw)))
  {
  }

  /** `ESC [ raw K` in terms of the mode its parameters select. */
  lemma EraseInLineCells(t: Term, raw: string)
    requires WellFormed(t)
    ensures var mode := Mode(ParseParams(raw));
      var r := HandleCsi(t, 'K', raw);
      r == t.(cells := r.cells) &&
      forall y, x :: 0 <= y < t.rows && 0 <= x < t.cols ==>
        r.cells[y][x] == if y == t.cy && Erased(mode, t.cx, x) then PenCell(' ', t.pen) else t.cells[y][x]
  {
    KDispatch(t, raw);
    EraseInLineModes(t, Mode(ParseParams(raw)));
  }

  /** Erasing in a line with a given mode: the columns Erased selects, in
      the cursor row, become blanks in the pending attributes. */
  lemma EraseInLineModes(t: Term, mode: nat)
    requires WellFormed(t)
    ensures var r := EraseInLine(t, mode);
      r == t.(cells := r.cells) &&
      forall y, x :: 0 <= y < t.rows && 0 <= x < t.cols ==>
        r.cells[y][x] == if y == t.cy && Erased(mode, t.cx, x) then PenCell(' ', t.pen) else t.cells[y][x]
  {
    var r := EraseInLine(t, mode);
    if mode == 0 || mode == 1 || mode == 2 {
      var start := if mode == 0 then t.cx else 0;
      var stop := if mode == 1 then Min(t.cx + 1, t.cols) else t.cols;
      assert r == EraseLine(t, start, stop);
      forall y, x | 0 <= y < t.rows && 0 <= x < t.cols
        ensures r.cells[y][x] == if y == t.cy && Erased(mode, t.cx, x) then PenCell(' ', t.pen) else t.cells[y][x]
      {
        assert Erased(mode, t.cx, x) <==> start <= x < stop;
      }
    }
  }

  /** `ESC [ 2 J` resets the whole emulator (keeping its size); every other
      erase-in-display mode, and the default, does nothing. */
  lemma {:induction false} EraseInDisplay(t: Term, mode: nat)
    requires WellFormed(t)
    ensures HandleCsi(t, 'J', EncodeParams([mode])) == if mode == 2 then Initial(t.rows, t.cols) else t
    ensures HandleCsi(t, 'J', "") == t
  {
    ParseEncodeRoundTrip([mode]);
    ParseEncodeRoundTrip([]);
    assert EncodeParams([]) == "";
  }

  /** `ESC [ s` remembers the cursor; `ESC [ u` moves back to the remembered
      position if there is one and does nothing otherwise. */
  lemma SaveRestore(t: Term, raw: string)
    requires WellFormed(t)
    ensures HandleCsi(t, 's', raw) == t.(saved := Some(Pos(t.cx, t.cy)))
    ensures t.saved.None? ==> HandleCsi(t, 'u', raw) == t
    ensures t.saved.Some? ==>
      HandleCsi(t, 'u', raw) == t.(cx := t.saved.value.x, cy := t.saved.value.y)
  {
  }

  /** The frame of a control sequence: only `m` (and a full reset) changes
      the pending attributes, only `K` (and a full reset) changes the grid,
      only `s` (and a full reset) changes the saved cursor. */
  lemma DispatchFrame(t: Term, final: char, raw: string)
    requires WellFormed(t)
    ensures var r := HandleCsi(t, final, raw);
      var reset := final == 'J' && Mode(ParseParams(raw)) == 2;
      (final != 'm' && !reset ==> r.pen == t.pen) &&
      (final != 'K' && !reset ==> r.cells == t.cells) &&
      (final != 's' && !reset ==> r.saved == t.saved) &&
      (!reset ==> r.state == t.state && r.csiBuf == t.csiBuf)
  {
    var ps := ParseParams(raw);
    if final in "HfABCD" {
      MoveDispatch(t, final, raw);
    } else if final == 'K' {
      assert HandleCsi(t, final, raw) == EraseInLine(t, Mode(ps));
    } else if final == 'J' {
      assert Mode(ps) != 2 ==> HandleCsi(t, final, raw) == t;
    } else if final == 'm' {
      assert HandleCsi(t, final, raw) == t.(pen := ApplySgr(t.pen, ps));
    }
  }

  /** A final byte the emulator does not know changes nothing at all. */
  lemma UnknownFinalIgnored(t: Term, final: char, raw: string)
    requires WellFormed(t) && final !in "HfABCDJKmsu"
    ensures HandleCsi(t, final, raw) == t
  {
    assert final != 'H' && final != 'f' && final != 'A' && final != 'B' && final != 'C' && final != 'D';
    assert final != 'J' && final != 'K' && final != 'm' && final != 's' && final != 'u';
  }

  /** `ESC [ params m` changes only the pending attributes, as the SGR
      codes say: cells already written keep their colours. */
  lemma SgrOnlyChangesPen(t: Term, ops: seq<SgrOp>)
    requires WellFormed(t)
    requires ops != [] && forall i :: 0 <= i < |ops| ==> ValidOp(ops[i])
    ensures HandleCsi(t, 'm', EncodeParams(EncodeOps(ops))) == t.(pen := ApplyOps(t.pen, ops))
  {
    var ps := EncodeOps(ops);
    SgrEncodeRoundTrip(t.pen, ops);
    SgrParamsDispatch(t, ps);
  }

  /** `ESC [ ... m` with its parameters written as decimal text. */
  lemma SgrParamsDispatch(t: Term, ps: seq<nat>)
    requires WellFormed(t) && ps != []
    ensures HandleCsi(t, 'm', EncodeParams(ps)) == t.(pen := Sgr(t.pen, ps))
  {
    ParseEncodeRoundTrip(ps);
    SgrDispatch(t, EncodeParams(ps));
  }

  lemma SgrDispatch(t: Term, raw: string)
    requires WellFormed(t)
    ensures HandleCsi(t, 'm', raw) == t.(pen := ApplySgr(t.pen, ParseParams(raw)))
  {
  }

  // ---------------------------------------------------------------------
  // The parser.

  /** The four-state parser: ESC leaves the normal state; in the escape
      state '[' starts a control sequence with an empty buffer, ']' an OSC
      string, anything else returns to normal; a control sequence collects
      bytes until a final byte in '@'..'~' dispatches it; an OSC string
      ends on BEL (or on ESC '\' within one chunk, see Feed). */
  lemma ParserTransitions(t: Term, b: Byte)
    requires WellFormed(t)
    ensures var r := Step(t, b);
      (t.state == Normal ==> (r.state == Escape <==> b == ESC) && (r.state == Normal <==> b != ESC)) &&
      (t.state == Escape ==>
        (b == '[' as int ==> r.state == Csi && r.csiBuf == "") &&
        (b == ']' as int ==> r.state == Osc) &&
        (b != '[' as int && b != ']' as int ==> r.state == Normal)) &&
      (t.state == Csi ==>
        (IsFinal(b as char) ==> r.state == Normal) &&
        (!IsFinal(b as char) ==> r.state == Csi && r.csiBuf == t.csiBuf + [b as char])) &&
      (t.state == Osc ==> (r.state == Normal <==> b == BEL) && (r.state == Osc <==> b != BEL))
  {
  }

  /** The bytes written as characters: ASCII space through '~' and
      everything from 0xA0 up; the C0 controls, DEL and the C1 range
      0x80..0x9F are not. In the normal state a byte that is neither
      printable nor one of the handled controls changes nothing. */
  lemma PrintableBytes(t: Term, b: Byte)
    requires WellFormed(t) && t.state == Normal
    ensures b < 0x20 || 0x7F <= b < 0xA0 <==> !IsPrintable(b)
    ensures !IsPrintable(b) && b !in {ESC, CR, LF, BS, TAB} ==> Step(t, b) == t
    ensures IsPrintable(b) ==> Step(t, b) == PutChar(t, b as char)
  {
  }

  /** The bytes that end a control sequence are '@' through '~', so the
      parameter bytes (digits, ';', '?', and '<' '=' '>') and the
      intermediates 0x20..0x2F are collected, while letters dispatch; DEL and
      the bytes above it are collected too. */
  lemma FinalBytes(b: Byte)
    ensures 0x20 <= b <= 0x3F ==> !IsFinal(b as char)
    ensures 'A' as int <= b <= 'Z' as int || 'a' as int <= b <= 'z' as int ==> IsFinal(b as char)
    ensures b < 0x40 || b > 0x7E <==> !IsFinal(b as char)
  {
  }

  /** Outside the normal state only a final byte can affect the screen:
      escape, OSC and parameter bytes leave the grid, cursor and attributes
      alone. */
  lemma NonNormalBytesKeepScreen(t: Term, b: Byte)
    requires WellFormed(t)
    requires t.state != Normal
    requires t.state == Csi ==> !IsFinal(b as char)
    ensures var r := Step(t, b);
      r.cells == t.cells && r.cx == t.cx && r.cy == t.cy && r.pen == t.pen && r.saved == t.saved
  {
  }

  /** A chunk inside an OSC string with no terminator in it is swallowed
      whole: the state is unchanged. */
  lemma {:induction false} OscAbsorbs(t: Term, data: seq<Byte>)
    requires WellFormed(t) && t.state == Osc
    requires forall i :: 0 <= i < |data| ==> data[i] != BEL
    requires forall i :: 0 <= i < |data| - 1 ==> !(data[i] == ESC && data[i + 1] == BACKSLASH)
    ensures Feed(t, data) == t
    decreases |data|
  {
    if data != [] {
      assert !OscTerminatorAhead(t, data);
      OscAbsorbs(t, data[1..]);
    }
  }

  /** Feeding a stream in two chunks gives the state of feeding it at once,
      unless the second chunk starts with '\': only then can the split fall
      inside an OSC terminator. */
  lemma {:induction false} FeedConcat(t: Term, a: seq<Byte>, b: seq<Byte>)
    requires WellFormed(t)
    requires b == [] || b[0] != BACKSLASH
    ensures Feed(Feed(t, a), b) == Feed(t, a + b)
    decreases |a|
  {
    if a == [] {
      assert a + b == b;
    } else if OscTerminatorAhead(t, a) {
      assert OscTerminatorAhead(t, a + b);
      assert (a + b)[2..] == a[2..] + b;
      FeedConcat(EndOsc(t), a[2..], b);
    } else {
      assert !OscTerminatorAhead(t, a + b);
      assert (a + b)[0] == a[0];
      assert (a + b)[1..] == a[1..] + b;
      FeedConcat(Step(t, a[0]), a[1..], b);
    }
  }

  /** ... and the exception is real: ESC '\' split across two chunks does
      not end the OSC string. */
  lemma OscTerminatorSplit(t: Term)
    requires WellFormed(t) && t.state == Normal
    ensures Feed(t, [ESC, ']' as int, ESC, BACKSLASH]).state == Normal
    ensures Feed(Feed(t, [ESC, ']' as int, ESC]), [BACKSLASH]).state == Osc
  {
    var t1 := Step(t, ESC);
    var t2 := Step(t1, ']' as int);
    assert t2.state == Osc;
    var whole: seq<Byte> := [ESC, ']' as int, ESC, BACKSLASH];
    assert whole[1..] == [']' as int, ESC, BACKSLASH];
    assert whole[1..][1..] == [ESC, BACKSLASH];
    assert OscTerminatorAhead(t2, [ESC, BACKSLASH]);
    assert [ESC, BACKSLASH][2..] == [];
    assert Feed(t2, [ESC, BACKSLASH]) == EndOsc(t2);
    var part: seq<Byte> := [ESC, ']' as int, ESC];
    assert part[1..] == [']' as int, ESC];
    assert part[1..][1..] == [ESC];
    var t3 := Step(t2, ESC);
    assert t3 == t2;
    assert [ESC][1..] == [];
    assert Feed(t2, [ESC]) == t2;
    assert [BACKSLASH][1..] == [];
    assert Feed(t2, [BACKSLASH]) == Step(t2, BACKSLASH);
  }

  // ---------------------------------------------------------------------
  // Whole streams.

  /** Printable bytes that fit on the cursor row are written there in order,
      in the pending attributes; the cursor ends just after them and no
      other cell changes. */
  lemma {:induction false} PrintableRun(t: Term, text: seq<Byte>)
    requires WellFormed(t) && t.state == Normal
    requires forall i :: 0 <= i < |text| ==> IsPrintable(text[i])
    requires t.cx + |text| <= t.cols
    ensures var r := Feed(t, text);
      r == t.(cx := t.cx + |text|, cells := r.cells) &&
      (forall k :: 0 <= k < |text| ==> r.cells[t.cy][t.cx + k] == PenCell(text[k] as char, t.pen)) &&
      (forall y, x :: 0 <= y < t.rows && 0 <= x < t.cols && (y != t.cy || x < t.cx || x >= t.cx + |text|) ==>
        r.cells[y][x] == t.cells[y][x])
    decreases |text|
  {
    if text != [] {
      var t1 := Step(t, text[0]);
      assert text[0] != ESC && text[0] != CR && text[0] != LF && text[0] != BS && text[0] != TAB && text[0] != BEL;
      assert t1 == PutChar(t, text[0] as char);
      PutCharEffect(t, text[0] as char);
      PrintableRun(t1, text[1..]);
      var r := Feed(t1, text[1..]);
      assert Feed(t, text) == r;
      forall k | 0 <= k < |text|
        ensures r.cells[t.cy][t.cx + k] == PenCell(text[k] as char, t.pen)
      {
        if k > 0 {
          assert text[1..][k - 1] == text[k];
        }
      }
    }
  }

  /** A fresh emulator fed printable text no wider than the grid shows it at
      the start of row 0, in the default attributes. */
  lemma FreshRowZero(rows: nat, cols: nat, text: seq<Byte>)
    requires rows >= 1 && cols >= 1
    requires forall i :: 0 <= i < |text| ==> IsPrintable(text[i])
    requires |text| <= cols
    ensures var r := Feed(Initial(rows, cols), text);
      r.cx == |text| && r.cy == 0 &&
      forall k :: 0 <= k < |text| ==> r.cells[0][k] == Cell(text[k] as char, DefaultFg, DefaultBg, false)
  {
    var t := Initial(rows, cols);
    PrintableRun(t, text);
  }

  /** CR LF moves the cursor to the start of the next row. */
  lemma CarriageReturnLineFeed(t: Term)
    requires WellFormed(t) && t.state == Normal && t.cy + 1 < t.rows
    ensures var r := Feed(t, [CR, LF]); r.cx == 0 && r.cy == t.cy + 1 && r.cells == t.cells
  {
    var data: seq<Byte> := [CR, LF];
    var t1 := Step(t, CR);
    assert t1 == t.(cx := 0);
    FeedCons(t, data);
    assert data[1..] == [LF];
    FeedCons(t1, [LF]);
    assert [LF][1..] == [];
    NewlineEffect(t1);
  }

  /** Outside an OSC terminator, feeding a chunk is one step then the rest. */
  lemma FeedCons(t: Term, data: seq<Byte>)
    requires WellFormed(t) && data != [] && !OscTerminatorAhead(t, data)
    ensures Feed(t, data) == Feed(Step(t, data[0]), data[1..])
  {
  }

  /** The characters of a byte string (`chr(b)` for each byte). */
  function Chars(bs: seq<Byte>): (s: string)
    ensures |s| == |bs|
  {
    seq(|bs|, i requires 0 <= i < |bs| => bs[i] as char)
  }

  /** One parameter byte inside a control sequence is appended to the
      parameter text. */
  lemma CollectStep(t: Term, b: Byte)
    requires WellFormed(t) && t.state == Csi && !IsFinal(b as char)
    ensures Step(t, b) == t.(csiBuf := t.csiBuf + [b as char])
  {
  }

  /** Inside a control sequence, parameter bytes are only collected. */
  lemma {:induction false} CollectParams(t: Term, text: seq<Byte>, rest: seq<Byte>)
    requires WellFormed(t) && t.state == Csi
    requires forall i :: 0 <= i < |text| ==> !IsFinal(text[i] as char)
    ensures Feed(t, text + rest) == Feed(t.(csiBuf := t.csiBuf + Chars(text)), rest)
    decreases |text|
  {
    if text == [] {
      assert t.csiBuf + Chars(text) == t.csiBuf;
      assert text + rest == rest;
    } else {
      FeedCons(t, text + rest);
      var t1 := Step(t, text[0]);
      CollectStep(t, text[0]);
      assert (text + rest)[1..] == text[1..] + rest;
      CollectParams(t1, text[1..], rest);
      assert Chars(text) == [text[0] as char] + Chars(text[1..]);
      assert t1.csiBuf + Chars(text[1..]) == t.csiBuf + Chars(text);
    }
  }

  /** A whole control sequence `ESC [ params final` fed in the normal state
      is dispatched once, with its parameter text, and the parser returns to
      the normal state. */
  lemma ControlSequence(t: Term, params: seq<Byte>, final: Byte)
    requires WellFormed(t) && t.state == Normal
    requires forall i :: 0 <= i < |params| ==> !IsFinal(params[i] as char)
    requires IsFinal(final as char)
    ensures Feed(t, [ESC, '[' as int] + params + [final]) ==
      HandleCsi(t.(state := Csi, csiBuf := Chars(params)), final as char, Chars(params)).(state := Normal)
  {
    var data := [ESC, '[' as int] + params + [final];
    var t1 := Step(t, ESC);
    FeedCons(t, data);
    assert data[1..] == ['[' as int] + params + [final];
    FeedCons(t1, data[1..]);
    assert data[1..][1..] == params + [final];
    var t2 := t.(state := Csi, csiBuf := "");
    CollectParams(t2, params, [final]);
    var t3 := t2.(csiBuf := Chars(params));
    assert "" + Chars(params) == Chars(params);
    FeedCons(t3, [final]);
    assert [final][1..] == [];
  }

  /** A printable byte written where the cursor stands lands in the cell
      under the cursor, in the pending attributes. */
  lemma WriteAtCursor(t: Term, ch: Byte)
    requires WellFormed(t) && t.state == Normal && t.cx < t.cols && IsPrintable(ch)
    ensures Feed(t, [ch]).cells[t.cy][t.cx] == PenCell(ch as char, t.pen)
  {
    PrintableRun(t, [ch]);
    assert Feed(t, [ch]).cells[t.cy][t.cx + 0] == PenCell([ch][0] as char, t.pen);
  }

  /** `ESC [ 5 ; 10 H` puts the cursor on row 4, column 9 (0-based) and
      leaves the parser in the normal state with the attributes unchanged. */
  lemma PositionFiveTen(t: Term)
    requires WellFormed(t) && t.state == Normal && t.rows >= 5 && t.cols >= 10
    ensures var r := Feed(t, [ESC, '[' as int, '5' as int, ';' as int, '1' as int, '0' as int, 'H' as int]);
      r.cy == 4 && r.cx == 9 && r.pen == t.pen && r.state == Normal
  {
    FeedFiveTen(t);
    var t6 := t.(state := Csi, csiBuf := "5;10");
    EncodeFiveTen();
    CursorPosition(t6, 5, 10);
  }

  /** ... so the next printable byte lands exactly there. */
  lemma PositionThenWrite(t: Term, ch: Byte)
    requires WellFormed(t) && t.state == Normal && t.rows >= 5 && t.cols >= 10
    requires IsPrintable(ch)
    ensures var r := Feed(t, [ESC, '[' as int, '5' as int, ';' as int, '1' as int, '0' as int, 'H' as int]);
      r.cy == 4 && r.cx == 9 &&
      Feed(r, [ch]).cells[4][9] == PenCell(ch as char, t.pen)
  {
    var r := Feed(t, [ESC, '[' as int, '5' as int, ';' as int, '1' as int, '0' as int, 'H' as int]);
    PositionFiveTen(t);
    WriteAtCursor(r, ch);
  }

  lemma FeedFiveTen(t: Term)
    requires WellFormed(t) && t.state == Normal
    ensures Feed(t, [ESC, '[' as int, '5' as int, ';' as int, '1' as int, '0' as int, 'H' as int]) ==
      HandleCsi(t.(state := Csi, csiBuf := "5;10"), 'H', "5;10").(state := Normal)
  {
    var params: seq<Byte> := ['5' as int, ';' as int, '1' as int, '0' as int];
    var data: seq<Byte> := [ESC, '[' as int, '5' as int, ';' as int, '1' as int, '0' as int, 'H' as int];
    assert [ESC, '[' as int] + params + ['H' as int] == data;
    var raw := Chars(params);
    assert raw == "5;10";
    ControlSequence(t, params, 'H' as int);
    assert Feed(t, data) == HandleCsi(t.(state := Csi, csiBuf := raw), 'H', raw).(state := Normal);
  }

  lemma EncodeFiveTen()
    ensures EncodeParams([5, 10]) == "5;10"
  {
    assert ToDecimal(10) == "10";
    assert Decimals([5, 10]) == ["5", "10"];
  }
}
