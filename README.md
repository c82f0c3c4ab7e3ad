# Terminal screenshot renderer: a Dafny model

`scripts/make_screenshots.py` drives a command on a pseudo-terminal,
replays the bytes it printed through a small VT100/ANSI terminal emulator
(`TerminalEmulator`) and turns the resulting grid of cells into an SVG
picture (`render_svg`). This project models that core:

- `palette.dfy`: the 16 base colours (`BASE_COLORS`) and
  `color_from_index`, the xterm 256-colour palette. It covers the 6×6×6
  cube and the grey ramp, and is proved invertible on the cube.
- `hexcolor.dfy`: `rgb_hex`, with a parser that is its inverse on byte
  channels.
- `params.dfy`: how `_handle_csi` turns the collected parameter text into
  integers. It has an encoder that round-trips, the finding below, and the
  code as written.
- `sgr.dfy`: `_apply_sgr` (Select Graphic Rendition) as a function on the
  pen, which is the current foreground, background and bold flag. A
  sequence of abstract rendition operations, with their encoding, is the
  partner that it is proved to decode.
- `screen.dfy`: the emulator's state as a value (`Term`). Each private
  method of the class is a function from old state to new state: `feed`
  byte by byte, `_newline`, `_scroll`, `_put_char` and `_handle_csi`.
- `screen_props.dfy`: what those functions promise, with a state
  invariant, `WellFormed`, that every one of them preserves. It covers:
  - cursor addressing and movement, erasing and save/restore;
  - the escape-sequence parser's transitions;
  - feeding input in chunks;
  - writing text.
- `emulator.dfy`: the class `TerminalEmulator`. Its fields are updated in
  place by methods proved to implement the functions of `screen.dfy`. It
  also has `fill_rect` and `draw_text`.
- `runs.dfy`: maximal runs of equal keys. `Tiling` defines what such a
  run list is, and `Runs` is proved to be the only one. Both loops of
  `render_svg` coalesce cells this way.
- `render.dfy`: `render_svg` as a picture value (`Svg`): the canvas,
  background rectangles, and text lines made of spans. Its loops are
  methods proved equal to the functions.

The byte stream is a parameter (`seq<Byte>`); where it comes from is
outside the model.

## Model

| member | source | states |
|---|---|---|
| Palette.Level | scripts/make_screenshots.py:59-61 | the levels of the digits 0..5 are the cube intensities 0, 95, 135, 175, 215, 255 |
| Palette.LevelOf | scripts/make_screenshots.py:59-61 | every cube intensity (0, 95, 135, 175, 215, 255) is `level` of a digit below 6, the inverse of `level` |
| Palette.ColorFromIndex | scripts/make_screenshots.py:49-64 | every palette entry has channels in 0..255, for any index including negative and above 255 |
| Palette.BaseColorsInRange | scripts/make_screenshots.py:29-46 | each of the 16 base colours has byte channels |
| Palette.LevelInjective | scripts/make_screenshots.py:59-61 | `level` is injective on 0..5 |
| Palette.CubeRoundTrip | scripts/make_screenshots.py:54-61 | the cube index of digits (r, g, b) lies in 16..231 and maps back to (level r, level g, level b) |
| Palette.CubeDecode | scripts/make_screenshots.py:54-61 | every index 16..231 yields cube intensities whose digits re-encode to that same index |
| Palette.GreyRamp | scripts/make_screenshots.py:62-64 | indices 232..255 are greys 8 + 10·(idx−232), within 8..238, each 10 brighter than the previous |
| Palette.GreySaturates | scripts/make_screenshots.py:62-64 | indices from 257 up are clamped to white |
| Palette.GreyClamp | scripts/make_screenshots.py:62-64 | every index from 232 up is the grey `8 + 10·(idx−232)` clamped to 255, so 256 gives 248 |
| Palette.PaletteLandmarks | scripts/make_screenshots.py:49-64 | 0..15 give the base colours, negative indices give base colour 7, 16 is black, 231 is white, 232 and 255 are the ends of the grey ramp |
| HexColor.HexDigitValue | scripts/make_screenshots.py:480 | the value of a lower-case hex digit is below 16 and is printed back as that digit |
| HexColor.Hex | scripts/make_screenshots.py:480 | `{:x}` of any natural is non-empty, all hex digits, without a leading zero unless it is the single digit `0`, and reads back as that natural |
| HexColor.Hex2 | scripts/make_screenshots.py:480 | `{:02x}` is at least two hex digits, with a leading zero only when it is exactly two digits, and reads back as the number |
| HexColor.RgbHex | scripts/make_screenshots.py:479-480 | `rgb_hex` is `#` followed by at least six hex digits |
| HexColor.Hex2Byte | scripts/make_screenshots.py:480 | for 0..255 `{:02x}` is exactly two digits whose value is the number |
| HexColor.RgbHexRoundTrip | scripts/make_screenshots.py:479-480 | for byte channels `rgb_hex` is 7 characters and parsing it gives back the colour |
| HexColor.HexWide | scripts/make_screenshots.py:480 | a channel of 256 or more prints as three or more digits |
| HexColor.RgbHexWideChannel | scripts/make_screenshots.py:479-480 | a colour with a channel outside 0..255 gives a string longer than `#rrggbb` |
| CsiParams.Split | scripts/make_screenshots.py:168 | `split(";")` yields at least one field and no field contains `;` |
| CsiParams.NonEmpty | scripts/make_screenshots.py:168 | the kept fields are non-empty fields of the input, no more of them than there were |
| CsiParams.NonEmptyMembers | scripts/make_screenshots.py:168 | a field is kept if and only if it occurs in the input and is non-empty |
| CsiParams.NonEmptyAppend | scripts/make_screenshots.py:168 | the filter works field by field: filtering a concatenation concatenates the filtered parts, so kept fields stay in input order |
| CsiParams.NonEmptySingle | scripts/make_screenshots.py:168 | a single field is kept exactly when it is non-empty |
| CsiParams.NonEmptyBound | scripts/make_screenshots.py:168 | there are no more kept fields than characters in the text |
| CsiParams.ParamValues | scripts/make_screenshots.py:169 | one integer per field, field k giving the k-th integer |
| CsiParams.ParamValuesAppend | scripts/make_screenshots.py:169 | the conversion works field by field, keeping order |
| CsiParams.ParamValue | scripts/make_screenshots.py:169 | a field reads as a non-zero number only if it is a non-empty string of ASCII digits; any other field reads as 0 |
| CsiParams.StripPrivate | scripts/make_screenshots.py:165-167 | a leading `?` is removed, and only a leading `?`; the rest of the text is kept |
| CsiParams.ParseParams | scripts/make_screenshots.py:165-169 | there are never more parameters than characters of parameter text |
| CsiParams.JoinAppend | scripts/make_screenshots.py:168 | joining two field lists with `;` puts one `;` between their joins |
| CsiParams.SplitConcat | scripts/make_screenshots.py:168 | splitting at a `;` splits both sides |
| CsiParams.ParamsConcat | scripts/make_screenshots.py:165-169 | parameter text joined by `;` parses to the concatenation of the parameters of each side |
| CsiParams.ParamsField | scripts/make_screenshots.py:165-169 | a single field gives its value if non-empty and nothing if empty; a `?` before it changes nothing |
| CsiParams.DoubledSeparator | scripts/make_screenshots.py:168 | an empty field between two others is dropped: `a;;b` parses as `a;b` |
| CsiParams.SplitJoin | scripts/make_screenshots.py:168 | joining the split fields with `;` restores the text |
| CsiParams.SplitPrefix | scripts/make_screenshots.py:168 | a `;`-free prefix joins the first field of the rest |
| CsiParams.JoinSplit | scripts/make_screenshots.py:168 | splitting `;`-joined `;`-free fields gives the fields back |
| CsiParams.ToDecimal | scripts/make_screenshots.py:169 | a decimal numeral is non-empty ASCII digits |
| CsiParams.DecimalRoundTrip | scripts/make_screenshots.py:169 | `int` of the numeral of n is n |
| CsiParams.Decimals | scripts/make_screenshots.py:169 | one numeral per number, in order |
| CsiParams.DecimalsParse | scripts/make_screenshots.py:168-169 | numerals survive the empty-field filter and read back as the numbers |
| CsiParams.ParseEncodeRoundTrip | scripts/make_screenshots.py:165-169 | parsing `n1;n2;…` gives back exactly the list n1, n2, … |
| CsiParams.SplitSingle | scripts/make_screenshots.py:168 | a single non-`;` character is one field |
| CsiParams.EmptyFieldsDropped | scripts/make_screenshots.py:165-169 | `;5` parses as [5], the private marker of `?25` is dropped, and empty text gives no parameters |
| CsiParams.ParamValueAsWritten | scripts/make_screenshots.py:169 | one field as written: `int(p)` of an `isdigit` field, 0 for any other, and no value where `int` raises |
| CsiParams.ParamValuesAsWritten | scripts/make_screenshots.py:169 | the list comprehension as written: no result as soon as one field raises |
| CsiParams.RaisesInt | scripts/make_screenshots.py:169 | the fields on which `int` raises after `isdigit` accepted them: those with a superscript digit, and those longer than CPython's default limit of 4300 digits |
| CsiParams.ParseParamsAsWritten | scripts/make_screenshots.py:165-169 | lines 165-169 as written, over the characters of single bytes |
| CsiParams.AsWrittenAgrees | scripts/make_screenshots.py:169 | where the code as written does not raise, it agrees with the model; it raises exactly when some field passes `isdigit` but has a superscript digit or more than 4300 digits |
| CsiParams.LongFieldRaises | scripts/make_screenshots.py:169 | an ASCII digit field of more than 4300 digits makes the code as written raise, while the corrected parse reads its value |
| CsiParams.SuperscriptRaises | scripts/make_screenshots.py:169 | the field `²` makes the code as written raise; the corrected parser reads it as 0 |
| GraphicRendition.Sgr | scripts/make_screenshots.py:213-253 | the loop over the parameters: only a 1 turns bold on and only a 0 turns it off; the foreground changes only if a 0, 30..39 or 90..97 occurs, the background only if a 0, 40..49 or 100..107 occurs |
| GraphicRendition.ApplySgr | scripts/make_screenshots.py:211-253 | an empty list resets the pen to the default colours and weight; otherwise the same frame as the loop |
| GraphicRendition.SgrStep | scripts/make_screenshots.py:215-253 | one step of the `_apply_sgr` loop consumes between 1 and all remaining parameters |
| GraphicRendition.EncodeOp | scripts/make_screenshots.py:217-252 | every rendition operation is encoded as at least one parameter |
| GraphicRendition.EncodeOps | scripts/make_screenshots.py:215-253 | an encoded list has at least one parameter per operation |
| GraphicRendition.SgrStepEncoded | scripts/make_screenshots.py:216-253 | one loop step on an encoded operation applies exactly that operation and consumes exactly its encoding: reset, bold, the four base-colour ranges, 39/49 defaults, `38;2;r;g;b`/`48;2;r;g;b` and `38;5;n`/`48;5;n` |
| GraphicRendition.SgrEncodeRoundTrip | scripts/make_screenshots.py:211-253 | `_apply_sgr` on the encoding of any operation list gives the pen the operations produce |
| GraphicRendition.IgnoredCodes | scripts/make_screenshots.py:215-253 | an unknown code, or a 38/48 without a complete 2 or 5 form, changes nothing and consumes one parameter |
| GraphicRendition.BoldRedThenReset | scripts/make_screenshots.py:211-222 | `1;31` sets bold and red foreground, and an empty list resets to the default pen |
| Screen.Initial | scripts/make_screenshots.py:81-93 | a fresh grid of at least one row and column satisfies the state invariant |
| Screen.ScrollOnce | scripts/make_screenshots.py:150-153 | one scroll keeps the invariant and the shape |
| Screen.Scroll | scripts/make_screenshots.py:150-153 | scrolling keeps the invariant and the shape |
| Screen.Newline | scripts/make_screenshots.py:143-148 | a newline keeps the invariant and returns the cursor to column 0 |
| Screen.PutChar | scripts/make_screenshots.py:155-162 | writing a character keeps the invariant |
| Screen.EraseLine | scripts/make_screenshots.py:197-199 | erasing a column range keeps the invariant |
| Screen.MoveCursor | scripts/make_screenshots.py:171-183 | H/f/A/B/C/D change the cursor and nothing else, keeping it within the invariant's bounds |
| Screen.EraseInLine | scripts/make_screenshots.py:188-199 | K changes the cells and nothing else |
| Screen.Count | scripts/make_screenshots.py:177-183 | the count of A/B/C/D: the first parameter, 1 when there is none (`MovesByCount`, `CursorMovesByDefault`) |
| Screen.Mode | scripts/make_screenshots.py:184-189 | the mode of J and K: the first parameter, 0 when there is none (`KDispatch`, `EraseDefault`, `EraseInDisplay`) |
| Screen.IsPrintable | scripts/make_screenshots.py:112 | the bytes written as characters: 0x20..0x7E and 0xA0 up (`PrintableBytes`) |
| Screen.IsFinal | scripts/make_screenshots.py:136 | the bytes that end a control sequence: `@`..`~` (`FinalBytes`) |
| Screen.OscTerminatorAhead | scripts/make_screenshots.py:129 | the lookahead that ends an OSC string: ESC `\` within the same chunk |
| Screen.HandleCsi | scripts/make_screenshots.py:164-209 | every control sequence keeps the invariant, and the parser is left as it was or in its normal state |
| Screen.Step | scripts/make_screenshots.py:97-141 | every byte keeps the invariant |
| Screen.EndOsc | scripts/make_screenshots.py:129-132 | ending an OSC string keeps the invariant |
| Screen.Feed | scripts/make_screenshots.py:95-141 | feeding any bytes keeps the invariant and the grid size |
| ScreenProps.ScrollShifts | scripts/make_screenshots.py:150-153 | scrolling n lines moves row y+n to row y and fills the bottom n rows with blanks in the current pen; nothing else changes |
| ScreenProps.NewlineEffect | scripts/make_screenshots.py:143-148 | above the last row a newline moves the cursor down without touching cells; on the last row it scrolls once and stays there |
| ScreenProps.PutCharEffect | scripts/make_screenshots.py:155-162 | the character lands in the current pen at the cursor, which then advances; at column `cols` it first wraps to the next line, scrolling on the last row; no other cell changes |
| ScreenProps.PositionBoth | scripts/make_screenshots.py:171-175 | `H` and `f` with a row and a column agree and move only the cursor, clamped to the grid |
| ScreenProps.PositionRowOnly | scripts/make_screenshots.py:171-175 | `H` with only a row goes to column 0 of that row |
| ScreenProps.PositionNone | scripts/make_screenshots.py:171-175 | `H` without parameters goes to the top-left cell |
| ScreenProps.CursorPosition | scripts/make_screenshots.py:171-175 | H and f agree; row and column are 1-based, clamped to the grid, with 0 meaning the first; missing parameters mean 1 |
| ScreenProps.CursorMoves | scripts/make_screenshots.py:176-183 | A/B/C/D move by n and stop at the edges, changing only the cursor |
| ScreenProps.CursorMovesByDefault | scripts/make_screenshots.py:177-183 | A/B/C/D without a parameter move by 1 |
| ScreenProps.MovesByCount | scripts/make_screenshots.py:176-183 | A/B/C/D depend only on the count, the first parameter or 1 |
| ScreenProps.MoveDispatch | scripts/make_screenshots.py:164-183 | H/f/A/B/C/D with any parameter text act as cursor movement on the parsed parameters |
| ScreenProps.EraseInLineEffect | scripts/make_screenshots.py:188-199 | `K` with mode 0/1/2 blanks, in the current pen, the cursor row from the cursor, up to and including the cursor, or entirely; other modes change nothing; no parameter means 0 |
| ScreenProps.EraseDefault | scripts/make_screenshots.py:188-189 | `K` without a parameter is mode 0 |
| ScreenProps.KDispatch | scripts/make_screenshots.py:164-169 | `K` with any parameter text erases in the mode of its first parsed parameter, 0 when there is none |
| ScreenProps.EraseInLineModes | scripts/make_screenshots.py:188-199 | mode 0 blanks the cursor row from the cursor, mode 1 up to and including it, mode 2 whole, in the pending attributes; other modes change nothing; no other row changes |
| ScreenProps.EraseInLineCells | scripts/make_screenshots.py:164-169 | the same for any parameter text, in terms of its first parsed parameter |
| ScreenProps.EraseInDisplay | scripts/make_screenshots.py:184-187 | `J` with mode 2 resets the whole emulator; any other mode, or none, changes nothing |
| ScreenProps.SaveRestore | scripts/make_screenshots.py:202-206 | `s` records the cursor; `u` restores it if one was saved and otherwise changes nothing |
| ScreenProps.DispatchFrame | scripts/make_screenshots.py:164-209 | only `m` changes the pen, only `K` the cells and only `s` the saved cursor, except when `J 2` resets everything |
| ScreenProps.UnknownFinalIgnored | scripts/make_screenshots.py:207-209 | a final byte outside H f A B C D J K m s u is ignored |
| ScreenProps.SgrOnlyChangesPen | scripts/make_screenshots.py:200-201 | `ESC [ … m` with an encoded operation list applies exactly those operations to the pen and changes nothing else |
| ScreenProps.SgrParamsDispatch | scripts/make_screenshots.py:200-201 | `m` with a non-empty parameter list runs the SGR loop on it |
| ScreenProps.SgrDispatch | scripts/make_screenshots.py:200-201 | `m` with any parameter text applies SGR to the parsed parameters and changes only the pen |
| ScreenProps.ParserTransitions | scripts/make_screenshots.py:99-141 | the parser's state machine: ESC enters escape; `[` enters CSI with an empty buffer; `]` enters OSC; other bytes return to normal; CSI collects bytes until a final byte in `@`..`~`; BEL ends OSC |
| ScreenProps.PrintableBytes | scripts/make_screenshots.py:99-113 | a byte is printable unless it is a C0 control, DEL or in 0x80..0x9F; a printable byte writes a character and any other byte except ESC, CR, LF, BS and TAB changes nothing |
| ScreenProps.FinalBytes | scripts/make_screenshots.py:134-140 | a control sequence ends exactly on a byte in `@`..`~`: digits, `;`, `?` and the intermediates 0x20..0x2F are collected, letters dispatch |
| ScreenProps.NonNormalBytesKeepScreen | scripts/make_screenshots.py:115-141 | outside the normal state, no byte except a CSI final byte touches cells, cursor, pen or saved cursor |
| ScreenProps.OscAbsorbs | scripts/make_screenshots.py:125-133 | inside an OSC string, input with no BEL and no ESC `\` is swallowed whole |
| ScreenProps.FeedConcat | scripts/make_screenshots.py:95-141 | feeding a then b equals feeding a+b when b does not begin with `\` |
| ScreenProps.OscTerminatorSplit | scripts/make_screenshots.py:129-132 | ESC `\` ends an OSC string in one chunk but not when split between two |
| ScreenProps.PrintableRun | scripts/make_screenshots.py:112-113 | printable bytes that fit on the line are written left to right in the current pen, the cursor advancing by their number, with no other change |
| ScreenProps.FreshRowZero | scripts/make_screenshots.py:81-93 | on a fresh emulator, text that fits on one line appears in row 0 in the default colours |
| ScreenProps.CarriageReturnLineFeed | scripts/make_screenshots.py:102-105 | CR LF above the last row goes to column 0 of the next row without touching cells |
| ScreenProps.FeedCons | scripts/make_screenshots.py:97-141 | feeding is one step per byte, except at an ESC `\` OSC terminator |
| ScreenProps.CollectStep | scripts/make_screenshots.py:139-140 | one non-final byte in CSI state is appended to the parameter buffer |
| ScreenProps.CollectParams | scripts/make_screenshots.py:134-141 | in CSI state, non-final bytes are appended to the parameter buffer |
| ScreenProps.ControlSequence | scripts/make_screenshots.py:115-141 | ESC `[` params final runs `_handle_csi` on the parameter text and returns to the normal state |
| ScreenProps.WriteAtCursor | scripts/make_screenshots.py:112-113 | a printable byte with the cursor inside the line lands at the cursor |
| ScreenProps.PositionFiveTen | scripts/make_screenshots.py:171-175 | `ESC[5;10H` puts the cursor at row 4, column 9 (0-based), keeping the pen |
| ScreenProps.PositionThenWrite | scripts/make_screenshots.py:112-175 | after `ESC[5;10H` a printable byte lands at row 4, column 9 |
| ScreenProps.FeedFiveTen | scripts/make_screenshots.py:115-141 | the bytes of `ESC[5;10H` reach `_handle_csi('H', "5;10")` |
| ScreenProps.EncodeFiveTen | scripts/make_screenshots.py:168-169 | the parameters 5, 10 are written `5;10` |
| Emulator.TerminalEmulator.constructor | scripts/make_screenshots.py:76-79 | a new emulator is the reset state of the given size |
| Emulator.TerminalEmulator.Reset | scripts/make_screenshots.py:81-93 | `reset` blanks the grid and restores cursor, pen, saved cursor and parser |
| Emulator.TerminalEmulator.Scroll | scripts/make_screenshots.py:150-153 | `_scroll` updates the cells as `Screen.Scroll` and keeps the invariant |
| Emulator.TerminalEmulator.Newline | scripts/make_screenshots.py:143-148 | `_newline` updates cursor and cells as `Screen.Newline` |
| Emulator.TerminalEmulator.PutChar | scripts/make_screenshots.py:155-162 | `_put_char` updates cursor and cells as `Screen.PutChar` |
| Emulator.TerminalEmulator.EraseLine | scripts/make_screenshots.py:197-199 | the erase loop blanks columns start..stop−1 of the cursor row in place |
| Emulator.TerminalEmulator.HandleCsi | scripts/make_screenshots.py:164-209 | `_handle_csi` updates the object as `Screen.HandleCsi` |
| Emulator.TerminalEmulator.MoveCursor | scripts/make_screenshots.py:171-183 | the cursor branches move only `cx`/`cy`, as `Screen.MoveCursor` |
| Emulator.TerminalEmulator.EraseInLine | scripts/make_screenshots.py:188-199 | the `K` branch picks the column range of its mode and changes only the cells |
| Emulator.TerminalEmulator.ApplySgr | scripts/make_screenshots.py:211-253 | the `_apply_sgr` loop leaves the pen that `GraphicRendition.ApplySgr` computes |
| Emulator.TerminalEmulator.Feed | scripts/make_screenshots.py:95-141 | the `feed` loop leaves the object in the state `Screen.Feed` computes |
| Emulator.Wrap | scripts/make_screenshots.py:259 | Python's list index: an index in −n..−1 counts from the end, giving a position in 0..n−1 |
| Emulator.Hit | scripts/make_screenshots.py:257-259 | whether a list position is visited by a range of indices once negative indices count from the end (`FillRect`) |
| Emulator.FillRect | scripts/make_screenshots.py:256-259 | every cell of the clipped rectangle gets the given cell and every other cell is kept; negative coordinates count from the far edge; a rectangle starting beyond −rows or −cols raises before writing anything |
| Emulator.DrawText | scripts/make_screenshots.py:262-269 | character i of the text lands at column x+i of row y where that is on the grid, keeping the cell's background when none is given; nothing else changes |
| RunLength.RunLen | scripts/make_screenshots.py:497-500 | the inner loop stops after at least one cell, all equal to the first, at the end or at the first different cell |
| RunLength.RunsFrom | scripts/make_screenshots.py:494-500 | the runs lie within the row |
| RunLength.RunLenUnique | scripts/make_screenshots.py:497-500 | only one length satisfies those three conditions |
| RunLength.RunsFromTile | scripts/make_screenshots.py:494-500 | the runs from column i tile the rest of the row |
| RunLength.Runs | scripts/make_screenshots.py:494-500 | the maximal runs of a row: a tiling of it (`RunsTile`) and the only one (`RunsUnique`) |
| RunLength.RunsTile | scripts/make_screenshots.py:494-500 | `Runs` of a row tile it: contiguous, in order, each uniform and maximal |
| RunLength.TilingHead | scripts/make_screenshots.py:497-500 | the first run of a tiling starts at its origin and has the maximal length |
| RunLength.TilingUnique | scripts/make_screenshots.py:494-500 | a tiling from column lo is exactly the runs from lo |
| RunLength.RunsUnique | scripts/make_screenshots.py:494-500 | any tiling of a row equals `Runs` of it, so `Runs` is the reference definition's only solution |
| RunLength.TilingShape | scripts/make_screenshots.py:494-500 | runs are non-empty, adjacent, within the row, reach its end, and neighbours differ |
| RunLength.TilingCovers | scripts/make_screenshots.py:494-500 | every column of the row is covered by a run carrying its key |
| RunLength.TilingKeys | scripts/make_screenshots.py:494-500 | every column a run covers lies in the row and has the run's key |
| RunLength.TilingPieces | scripts/make_screenshots.py:533-542 | the runs' slices of the text, concatenated, are the text |
| RunLength.TilingAppend | scripts/make_screenshots.py:533-541 | extending a tiling by one cell extends the last run or opens a new one |
| RunLength.RunsSnoc | scripts/make_screenshots.py:533-541 | the runs of a row plus a cell are its runs with that cell added |
| RunLength.UniformOneRun | scripts/make_screenshots.py:494-500 | a uniform row is one run |
| Render.PaintedMembers | scripts/make_screenshots.py:501 | the painted runs are exactly the runs whose colour is not the canvas colour |
| Render.Spans | scripts/make_screenshots.py:533-542 | one span per attribute run |
| Render.BgRunsExact | scripts/make_screenshots.py:494-507 | a column is under a rectangle iff its background differs from the canvas, and then the rectangle has its colour |
| Render.BgRunsDisjoint | scripts/make_screenshots.py:494-507 | the rectangles of a row do not overlap and appear left to right |
| Render.AscendingRuns | scripts/make_screenshots.py:494-500 | adjacent non-empty runs are in ascending order |
| Render.PaintedAscending | scripts/make_screenshots.py:501 | dropping canvas-coloured runs keeps the order |
| Render.UniformRowRects | scripts/make_screenshots.py:494-507 | a uniform row gives no rectangle in the canvas colour and otherwise one full-width rectangle |
| Render.SpansPartitionRow | scripts/make_screenshots.py:516-542 | the spans' texts concatenated are the row's characters with NUL drawn as space; each span is non-empty and has a fill; neighbouring spans differ in fill or weight |
| Render.SpanCell | scripts/make_screenshots.py:533-541 | every cell of a span has the span's colour and weight, and its glyph is in the span's text |
| Render.JoinedPieces | scripts/make_screenshots.py:520-531 | the texts of the spans are the runs' slices |
| Render.UniformRowSpan | scripts/make_screenshots.py:533-542 | a row of one colour and weight is a single span |
| Render.SpansOfExtend | scripts/make_screenshots.py:533-541 | spans of runs within a prefix ignore text after it |
| Render.SpansOfSnoc | scripts/make_screenshots.py:520-531 | one more run adds one more span |
| Render.SpansOfGrow | scripts/make_screenshots.py:537-541 | a cell with the pending attributes grows the last span |
| Render.SpansOfStart | scripts/make_screenshots.py:537-541 | a cell with new attributes starts a new span |
| Render.SpansSnoc | scripts/make_screenshots.py:533-542 | the spans of a row plus a cell are the spans of the row with that cell's glyph added |
| Render.UniformGridNoRects | scripts/make_screenshots.py:494-507 | a grid all in the canvas colour has no rectangles |
| Render.LinesShowRows | scripts/make_screenshots.py:510-543 | one text line per row, at `padding + y·cell_h`, whose spans spell the row |
| Render.BlankScreen | scripts/make_screenshots.py:483-545 | a fresh screen renders on the default background with no rectangles and one default-coloured span of blanks per row |
| Render.RunPainted | scripts/make_screenshots.py:496-507 | a run whose colour differs from the canvas emits its rectangle before the rest |
| Render.RunSkipped | scripts/make_screenshots.py:496-501 | a run in the canvas colour emits nothing |
| Render.RunEnd | scripts/make_screenshots.py:497-500 | the inner loop ends at the end of the maximal run |
| Render.RowRectsLoop | scripts/make_screenshots.py:495-507 | the row loop emits exactly the row's rectangles |
| Render.NextRect | scripts/make_screenshots.py:496-507 | one outer iteration advances past one run and emits at most one rectangle, the one that run contributes |
| Render.AddAfterPending | scripts/make_screenshots.py:537-541 | the flush-or-extend step on a pending span |
| Render.FoldSpansAreRuns | scripts/make_screenshots.py:516-542 | the cell-by-cell fold of the loop gives the spans of the prefix |
| Render.RowSpansLoop | scripts/make_screenshots.py:516-542 | the buffer-and-flush loop emits exactly the row's spans |
| Render.GridRectsLoop | scripts/make_screenshots.py:494-507 | the background loop emits the rectangles of every row in row order |
| Render.TextLinesLoop | scripts/make_screenshots.py:510-543 | the text loop emits one line per row |
| Render.Canvas | scripts/make_screenshots.py:486 | the canvas colour is the background of the top-left cell |
| Render.RectsOfIndex | scripts/make_screenshots.py:501-507 | one rectangle per painted run, in order |
| Render.BgRunsWithin | scripts/make_screenshots.py:496-501 | every painted run lies within the row and is not in the canvas colour |
| Render.RunRectPlaced | scripts/make_screenshots.py:502-506 | the rectangle of a run spans its cells horizontally and is one cell high at the row's height |
| Render.RowRectsPlaced | scripts/make_screenshots.py:494-507 | every rectangle of row y has a colour other than the canvas colour, lies at `padding + y·cell_h` with height `cell_h`, and lies horizontally within the row |
| Render.GridRectsPlaced | scripts/make_screenshots.py:494-507 | the rectangles of rows y.. lie within those rows and the grid's columns, none in the canvas colour |
| Render.RectsInCanvas | scripts/make_screenshots.py:483-507 | every rectangle of the picture lies inside the canvas within the padding, and none has the canvas colour |
| Render.Glyph | scripts/make_screenshots.py:536 | the character drawn for a cell, NUL drawn as a space (`SpansPartitionRow`) |
| Render.Backgrounds | scripts/make_screenshots.py:498-499 | the keys the background loop compares: each cell's background (`BgRunsExact`) |
| Render.Attrs | scripts/make_screenshots.py:534-537 | the keys the text loop compares: each cell's colour and weight (`SpanCell`) |
| Render.RenderSvg | scripts/make_screenshots.py:483-545 | the picture: a canvas `2·padding + cols·cell_w` by `2·padding + rows·cell_h` in the top-left cell's background, rectangles inside the padding and never in the canvas colour (`RectsInCanvas`), one line per row spelling it (`LinesShowRows`) |
| Render.GridRects | scripts/make_screenshots.py:494-507 | the rectangles of every row in row order, placed within their rows and the grid's columns (`GridRectsPlaced`), none for an all-canvas grid (`UniformGridNoRects`) |
| Render.RowRects | scripts/make_screenshots.py:494-507 | one rectangle per painted run, in order (`RectsOfIndex`), at the row's height and within its cells (`RowRectsPlaced`) |
| Render.BgRuns | scripts/make_screenshots.py:494-501 | the maximal background runs not in the canvas colour: they cover exactly the cells off the canvas colour (`BgRunsExact`), without overlap and left to right (`BgRunsDisjoint`) |
| Render.Line | scripts/make_screenshots.py:510-543 | the text line of row y at `padding + y·cell_h`, whose spans spell the row (`LinesShowRows`, `SpansPartitionRow`) |
| Render.RenderScreen | scripts/make_screenshots.py:483-545 | rendering the emulator gives `RenderSvg` of its state: size `2·padding + cols·cell_w` by `2·padding + rows·cell_h`, canvas colour of the top-left cell, the rectangles and the lines |

## Left out

- Running the command under a pseudo-terminal, window sizing, timing, the
  command-line entry point and writing files (`run_capture`,
  `set_winsize`, `capture_to_svg`, `main`): these are I/O. The bytes fed
  to the emulator are a parameter.
- The SVG markup itself is not modelled: the XML header, attribute
  formatting, the font list and `html.escape`. The picture is the `Svg`
  value, and `rgb_hex` is modelled separately.
- `draw_box` and the mock screens built on it are not part of this model.
- Cell characters are single characters. `fill_rect` could store any
  string, but `feed` and `draw_text` store one character.
- Emulator.TerminalEmulator.constructor: requires at least one row and
  one column. The source also accepts a zero-sized grid, but there the
  cursor has no valid position and the first printable byte raises.
- `render_svg`'s `(0, 0, 0)` canvas for a screen without rows cannot
  arise: every modelled screen has a row (`Render.Canvas`).
- Screen.HandleCsi and Screen.Feed use the corrected parameter parse (see
  Findings). On a field such as `²`, the source's `feed` raises and stops
  in state `csi`; the model reads the field as 0 and continues. The same
  holds for a field of more than 4300 ASCII digits, on which CPython's
  `int` raises under its default digit limit (`CsiParams.LongFieldRaises`);
  the model reads the field's value. The limit is CPython's default and
  can be changed or turned off, and older interpreters have none; the
  as-written model fixes it at 4300.
- `_put_char`'s `if self.cy >= self.rows` branch (lines 158-160) is
  omitted. After `_newline` the cursor row is always below `rows`, so the
  branch cannot run.
- The `0 <= self.cy < self.rows` test in the erase loop (line 198) always
  holds. The function `Screen.EraseLine` leaves it out; the method
  `Emulator.TerminalEmulator.EraseLine` keeps it.
- `flush`'s `if current_fg:` always holds because colours are non-empty
  tuples. Every span therefore has a fill.
- The grid model is a sequence of rows. It does not model the rows as
  shared, mutable Python lists.
- The cursor column can equal `cols` after the last column is written.
  `ESC [ 0 D` keeps it there and `u` can restore it, so the invariant
  allows `0 <= cx <= cols`. This is a real state of the source, not an
  approximation.
- Truecolour channels from `38;2;r;g;b` are not clamped in the source,
  and the model does not clamp them either. `RgbHex` of such a colour is
  longer than seven characters (`HexColor.RgbHexWideChannel`).
- An OSC string's ESC `\` terminator is recognised only when both bytes
  arrive in the same `feed` call (`ScreenProps.OscTerminatorSplit`).
  `ScreenProps.FeedConcat` therefore requires the second chunk not to
  begin with `\`.

## Findings

| source | as written | input that shows it | evidently intended | confidence | as-written member | corrected member |
|---|---|---|---|---|---|---|
| scripts/make_screenshots.py:169 | `int(p) if p.isdigit() else 0`: `str.isdigit` also accepts the Latin-1 superscripts `¹²³`, which `int` rejects with `ValueError`, so `feed` raises | the bytes `ESC [ 0xB2 m` (in CSI state `feed` appends `chr(b)` for each byte b) | a field that is not a decimal number reads as 0, as the `else 0` branch says | not executed | CsiParams.SuperscriptRaises | CsiParams.ParseParams |
