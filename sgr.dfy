/** Select Graphic Rendition (`ESC [ ... m`): how a list of numeric
    parameters changes the pending attributes, following `_apply_sgr`
    (scripts/make_screenshots.py). */
module GraphicRendition {
  import opened Palette

  /** The pending attributes given to the next written cell:
      `current_fg`, `current_bg` and `bold`. */
  datatype Pen = Pen(fg: Rgb, bg: Rgb, bold: bool)

  const DefaultPen := Pen(DefaultFg, DefaultBg, false)

  function SetColor(p: Pen, isFg: bool, c: Rgb): Pen {
    if isFg then p.(fg := c) else p.(bg := c)
  }

  /** One pass of the loop in `_apply_sgr`: the pen after the code at the
      head of `ps`, and how many parameters that code consumed. */
  function SgrStep(p: Pen, ps: seq<nat>): (r: (Pen, nat))
    requires ps != []
    ensures 1 <= r.1 <= |ps|
  {
    var c := ps[0];
    if c == 0 then (DefaultPen, 1)
    else if c == 1 then (p.(bold := true), 1)
    else if 30 <= c <= 37 then (p.(fg := BaseColors[c - 30]), 1)
    else if 90 <= c <= 97 then (p.(fg := BaseColors[c - 90 + 8]), 1)
    else if c == 39 then (p.(fg := DefaultFg), 1)
    else if 40 <= c <= 47 then (p.(bg := BaseColors[c - 40]), 1)
    else if 100 <= c <= 107 then (p.(bg := BaseColors[c - 100 + 8]), 1)
    else if c == 49 then (p.(bg := DefaultBg), 1)
    else if c == 38 || c == 48 then
      if 1 < |ps| && ps[1] == 2 && 4 < |ps| then
        (SetColor(p, c == 38, Rgb(ps[2], ps[3], ps[4])), 5)
      else if 1 < |ps| && ps[1] == 5 && 2 < |ps| then
        (SetColor(p, c == 38, ColorFromIndex(ps[2])), 3)
      else (p, 1)
    else (p, 1)
  }

  /** The codes that can change the foreground: a reset, the base and
      bright colours, the default, and the extended form 38. */
  predicate SetsFg(c: nat) {
    c == 0 || 30 <= c <= 39 || 90 <= c <= 97
  }

  /** The codes that can change the background. */
  predicate SetsBg(c: nat) {
    c == 0 || 40 <= c <= 49 || 100 <= c <= 107
  }

  /** The pen after processing all of `ps` left to right. Only a 1 turns
      bold on and only a 0 turns it off; a colour changes only when a code
      that addresses it occurs among the parameters. */
  function Sgr(p: Pen, ps: seq<nat>): (r: Pen)
    ensures r.bold && !p.bold ==> exists i :: 0 <= i < |ps| && ps[i] == 1
    ensures !r.bold && p.bold ==> exists i :: 0 <= i < |ps| && ps[i] == 0
    ensures r.fg != p.fg ==> exists i :: 0 <= i < |ps| && SetsFg(ps[i])
    ensures r.bg != p.bg ==> exists i :: 0 <= i < |ps| && SetsBg(ps[i])
    decreases |ps|
  {
    if ps == [] then p
    else
      var (q, n) := SgrStep(p, ps);
      var tail := ps[n..];
      assert forall j :: 0 <= j < |tail| ==> tail[j] == ps[n + j];
      Sgr(q, tail)
  }

  /** `_apply_sgr`: an empty parameter list resets the pen, like [0]. */
  function ApplySgr(p: Pen, params: seq<nat>): (r: Pen)
    ensures params == [] ==> r == DefaultPen
    ensures r.bold && !p.bold ==> exists i :: 0 <= i < |params| && params[i] == 1
    ensures r.fg != p.fg ==> params == [] || exists i :: 0 <= i < |params| && SetsFg(params[i])
    ensures r.bg != p.bg ==> params == [] || exists i :: 0 <= i < |params| && SetsBg(params[i])
  {
    Sgr(p, if params == [] then [0] else params)
  }

  // ---------------------------------------------------------------------
  // An independent description: the attribute changes SGR can express,
  // their meaning, and their encoding as parameters.

  datatype SgrOp =
    | ResetAll
    | Bold
    | FgBase(k: nat)
    | FgDefault
    | BgBase(k: nat)
    | BgDefault
    | FgTrue(c: Rgb)
    | BgTrue(c: Rgb)
    | FgIndexed(n: nat)
    | BgIndexed(n: nat)

  predicate ValidOp(op: SgrOp) {
    (op.FgBase? ==> op.k < 16) && (op.BgBase? ==> op.k < 16)
  }

  function ApplyOp(p: Pen, op: SgrOp): Pen
    requires ValidOp(op)
  {
    match op
    case ResetAll => Pen(DefaultFg, DefaultBg, false)
    case Bold => Pen(p.fg, p.bg, true)
    case FgBase(k) => Pen(BaseColors[k], p.bg, p.bold)
    case FgDefault => Pen(DefaultFg, p.bg, p.bold)
    case BgBase(k) => Pen(p.fg, BaseColors[k], p.bold)
    case BgDefault => Pen(p.fg, DefaultBg, p.bold)
    case FgTrue(c) => Pen(c, p.bg, p.bold)
    case BgTrue(c) => Pen(p.fg, c, p.bold)
    case FgIndexed(n) => Pen(ColorFromIndex(n), p.bg, p.bold)
    case BgIndexed(n) => Pen(p.fg, ColorFromIndex(n), p.bold)
  }

  function ApplyOps(p: Pen, ops: seq<SgrOp>): Pen
    requires forall i :: 0 <= i < |ops| ==> ValidOp(ops[i])
    decreases |ops|
  {
    if ops == [] then p else ApplyOps(ApplyOp(p, ops[0]), ops[1..])
  }

  /** The parameters that request one change. */
  function EncodeOp(op: SgrOp): (ps: seq<nat>)
    requires ValidOp(op)
    ensures ps != []
  {
    match op
    case ResetAll => [0]
    case Bold => [1]
    case FgBase(k) => if k < 8 then [30 + k] else [90 + k - 8]
    case FgDefault => [39]
    case BgBase(k) => if k < 8 then [40 + k] else [100 + k - 8]
    case BgDefault => [49]
    case FgTrue(c) => [38, 2, c.r, c.g, c.b]
    case BgTrue(c) => [48, 2, c.r, c.g, c.b]
    case FgIndexed(n) => [38, 5, n]
    case BgIndexed(n) => [48, 5, n]
  }

  function EncodeOps(ops: seq<SgrOp>): (ps: seq<nat>)
    requires forall i :: 0 <= i < |ops| ==> ValidOp(ops[i])
    ensures |ps| >= |ops|
  {
    if ops == [] then [] else EncodeOp(ops[0]) + EncodeOps(ops[1..])
  }

  /** The code at the head of an encoded change performs exactly that change
      and consumes exactly its parameters, whatever follows. */
  lemma SgrStepEncoded(p: Pen, op: SgrOp, rest: seq<nat>)
    requires ValidOp(op)
    ensures SgrStep(p, EncodeOp(op) + rest) == (ApplyOp(p, op), |EncodeOp(op)|)
  {
  }

  /** Processing the encoding of a list of changes applies those changes in
      order: the extended-colour forms skip their arguments, so no argument
      is read again as a code of its own. */
  lemma {:induction false} SgrEncodeRoundTrip(p: Pen, ops: seq<SgrOp>)
    requires forall i :: 0 <= i < |ops| ==> ValidOp(ops[i])
    ensures Sgr(p, EncodeOps(ops)) == ApplyOps(p, ops)
    decreases |ops|
  {
    if ops != [] {
      var e := EncodeOp(ops[0]);
      var rest := EncodeOps(ops[1..]);
      SgrStepEncoded(p, ops[0], rest);
      assert (e + rest)[|e|..] == rest;
      SgrEncodeRoundTrip(ApplyOp(p, ops[0]), ops[1..]);
    }
  }

  /** Codes the source does not recognise leave the pen alone, and so do 38
      and 48 when the arguments of their extended forms are missing. */
  lemma IgnoredCodes(p: Pen, c: nat, rest: seq<nat>)
    requires c !in {0, 1, 39, 49} && !(30 <= c <= 37) && !(90 <= c <= 97)
    requires !(40 <= c <= 47) && !(100 <= c <= 107)
    requires c == 38 || c == 48 ==>
      !(|rest| >= 4 && rest[0] == 2) && !(|rest| >= 2 && rest[0] == 5)
    ensures Sgr(p, [c] + rest) == Sgr(p, rest)
  {
    assert ([c] + rest)[1..] == rest;
  }

  /** `ESC [ 1 ; 31 m` gives bold red text; a later `ESC [ 0 m` (or `ESC [ m`)
      restores the default colours and weight. */
  lemma BoldRedThenReset(p: Pen)
    ensures ApplySgr(p, [1, 31]) == Pen(BaseColors[1], p.bg, true)
    ensures ApplySgr(ApplySgr(p, [1, 31]), []) == DefaultPen
  {
    SgrEncodeRoundTrip(p, [Bold, FgBase(1)]);
    assert EncodeOps([Bold, FgBase(1)]) == [1, 31];
    assert EncodeOps([ResetAll]) == [0];
    SgrEncodeRoundTrip(ApplySgr(p, [1, 31]), [ResetAll]);
  }
}
