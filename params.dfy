/** Parsing the text collected between `ESC [` and the final byte of a
    control sequence into its list of numeric parameters
    (`_handle_csi`, scripts/make_screenshots.py). */
module CsiParams {
  import opened Wrappers

  /** Python's `s.split(";")`: the text between separators, in order, with
      an empty field wherever two separators touch or the text starts or
      ends with one. */
  function Split(s: string): (fields: seq<string>)
    ensures |fields| >= 1
    ensures forall k :: 0 <= k < |fields| ==> ';' !in fields[k]
  {
    if s == [] then [""]
    else
      var rest := Split(s[1..]);
      if s[0] == ';' then [""] + rest else [[s[0]] + rest[0]] + rest[1..]
  }

  /** `";".join(fields)`. */
  function Join(fields: seq<string>): string {
    if |fields| == 0 then ""
    else if |fields| == 1 then fields[0]
    else fields[0] + ";" + Join(fields[1..])
  }

  /** The non-empty fields, in order (`[p for p in ... if p]`). */
  function NonEmpty(fields: seq<string>): (r: seq<string>)
    ensures |r| <= |fields|
    ensures forall k :: 0 <= k < |r| ==> r[k] != [] && r[k] in fields
  {
    if fields == [] then []
    else if fields[0] == [] then NonEmpty(fields[1..])
    else [fields[0]] + NonEmpty(fields[1..])
  }

  predicate IsAsciiDigit(c: char) {
    '0' <= c <= '9'
  }

  predicate AllAsciiDigits(p: string) {
    forall i :: 0 <= i < |p| ==> IsAsciiDigit(p[i])
  }

  /** `int(p)` for a string of ASCII digits. */
  function DecimalValue(p: string): nat
    requires AllAsciiDigits(p)
  {
    if p == [] then 0
    else 10 * DecimalValue(p[..|p| - 1]) + (p[|p| - 1] as int - '0' as int)
  }

  /** The value of one non-empty field: its decimal value when it is all
      digits, 0 otherwise. Only the ASCII digits count as digits here. */
  function ParamValue(p: string): (v: nat)
    ensures v != 0 ==> p != [] && AllAsciiDigits(p)
  {
    if p != [] && AllAsciiDigits(p) then DecimalValue(p) else 0
  }

  function ParamValues(fields: seq<string>): (ns: seq<nat>)
    ensures |ns| == |fields|
    ensures forall k :: 0 <= k < |fields| ==> ns[k] == ParamValue(fields[k])
  {
    if fields == [] then [] else [ParamValue(fields[0])] + ParamValues(fields[1..])
  }

  /** The parameter text with one leading '?' (a private sequence) removed. */
  function StripPrivate(raw: string): (r: string)
    ensures |raw| - 1 <= |r| <= |raw| && r == raw[|raw| - |r|..]
    ensures |r| < |raw| <==> raw != [] && raw[0] == '?'
  {
    if |raw| > 0 && raw[0] == '?' then raw[1..] else raw
  }

  /** The parameters of a control sequence: strip one leading '?', split on
      ';', drop the empty fields and read each remaining field as a number. */
  function ParseParams(raw: string): (ns: seq<nat>)
    ensures |ns| <= |raw|
  {
    var fields := Split(StripPrivate(raw));
    SplitJoin(StripPrivate(raw));
    NonEmptyBound(fields);
    ParamValues(NonEmpty(fields))
  }

  // ---------------------------------------------------------------------
  // The parse as written, where `str.isdigit` also accepts the Latin-1
  // superscript digits and `int` then raises.

  /** Every character comes from one byte (`chr(b)` with b < 256). */
  predicate IsLatin1(s: string) {
    forall i :: 0 <= i < |s| ==> s[i] < '\U{0100}'
  }

  /** `str.isdigit` on a character from one byte: the ASCII digits and the
      superscripts one, two and three. */
  predicate IsUnicodeDigit(c: char) {
    IsAsciiDigit(c) || c == '\U{00B2}' || c == '\U{00B3}' || c == '\U{00B9}'
  }

  predicate AllUnicodeDigits(p: string) {
    forall i :: 0 <= i < |p| ==> IsUnicodeDigit(p[i])
  }

  /** CPython's default limit on the digits `int` converts from a decimal
      string (`sys.get_int_max_str_digits()`); longer strings raise
      `ValueError`. */
  const IntMaxStrDigits := 4300

  /** One field as the source reads it: `int(p) if p.isdigit() else 0`;
      None where `int` raises. */
  function ParamValueAsWritten(p: string): Option<nat> {
    if p != [] && AllUnicodeDigits(p) then
      if AllAsciiDigits(p) && |p| <= IntMaxStrDigits then Some(DecimalValue(p)) else None
    else Some(0)
  }

  function ParamValuesAsWritten(fields: seq<string>): Option<seq<nat>> {
    if fields == [] then Some([])
    else
      match (ParamValueAsWritten(fields[0]), ParamValuesAsWritten(fields[1..]))
      case (Some(v), Some(vs)) => Some([v] + vs)
      case _ => None
  }

  /** A field on which `int` raises after `isdigit` accepted it: one with a
      superscript digit, or one longer than the digit limit. */
  predicate RaisesInt(p: string) {
    p != [] && AllUnicodeDigits(p) && (!AllAsciiDigits(p) || |p| > IntMaxStrDigits)
  }

  function ParseParamsAsWritten(raw: string): Option<seq<nat>>
    requires IsLatin1(raw)
  {
    ParamValuesAsWritten(NonEmpty(Split(StripPrivate(raw))))
  }

  // ---------------------------------------------------------------------
  // Lemmas

  /** Splitting at the separators and joining with them gives the text back. */
  lemma {:induction false} SplitJoin(s: string)
    ensures Join(Split(s)) == s
  {
    if s != [] {
      var rest := Split(s[1..]);
      SplitJoin(s[1..]);
      if s[0] == ';' {
        assert Split(s) == [""] + rest;
        assert Join(Split(s)) == "" + ";" + Join(rest);
      } else {
        assert Split(s) == [[s[0]] + rest[0]] + rest[1..];
        if |rest| == 1 {
          assert Join(rest) == rest[0];
        } else {
          assert Join(rest) == rest[0] + ";" + Join(rest[1..]);
        }
      }
    }
  }

  /** Text without separators followed by more text: the first field grows. */
  lemma {:induction false} SplitPrefix(a: string, tail: string)
    requires ';' !in a
    ensures Split(a + tail) == [a + Split(tail)[0]] + Split(tail)[1..]
  {
    if a != [] {
      var s := a + tail;
      assert s[0] == a[0] && s[1..] == a[1..] + tail;
      SplitPrefix(a[1..], tail);
      var rest := Split(s[1..]);
      assert rest[0] == a[1..] + Split(tail)[0] && rest[1..] == Split(tail)[1..];
      assert Split(s) == [[a[0]] + rest[0]] + rest[1..];
      assert [a[0]] + (a[1..] + Split(tail)[0]) == a + Split(tail)[0];
    } else {
      assert a + tail == tail;
      assert a + Split(tail)[0] == Split(tail)[0];
      assert Split(tail) == [Split(tail)[0]] + Split(tail)[1..];
    }
  }

  /** Joining fields that hold no separator and splitting again gives the
      same fields. */
  lemma {:induction false} JoinSplit(fs: seq<string>)
    requires |fs| >= 1
    requires forall k :: 0 <= k < |fs| ==> ';' !in fs[k]
    ensures Split(Join(fs)) == fs
  {
    if |fs| == 1 {
      SplitPrefix(fs[0], "");
      assert fs[0] + "" == fs[0];
    } else {
      JoinSplit(fs[1..]);
      var tail := ";" + Join(fs[1..]);
      assert Join(fs) == fs[0] + tail;
      assert tail[1..] == Join(fs[1..]);
      assert Split(tail) == [""] + fs[1..];
      SplitPrefix(fs[0], tail);
      assert fs[0] + "" == fs[0];
    }
  }

  /** The decimal text of a number, most significant digit first. */
  function ToDecimal(n: nat): (s: string)
    ensures s != [] && AllAsciiDigits(s)
  {
    if n < 10 then [('0' as int + n) as char]
    else ToDecimal(n / 10) + [('0' as int + n % 10) as char]
  }

  lemma {:induction false} DecimalRoundTrip(n: nat)
    ensures DecimalValue(ToDecimal(n)) == n
  {
    var s := ToDecimal(n);
    if n < 10 {
      assert s[..|s| - 1] == [];
    } else {
      DecimalRoundTrip(n / 10);
      assert s[..|s| - 1] == ToDecimal(n / 10);
    }
  }

  /** The parameter text of a list of numbers: their decimals joined by ';'. */
  function EncodeParams(ns: seq<nat>): string {
    Join(Decimals(ns))
  }

  function Decimals(ns: seq<nat>): (ds: seq<string>)
    ensures |ds| == |ns|
    ensures forall k :: 0 <= k < |ds| ==> ds[k] == ToDecimal(ns[k])
  {
    if ns == [] then [] else [ToDecimal(ns[0])] + Decimals(ns[1..])
  }

  lemma {:induction false} DecimalsParse(ns: seq<nat>)
    ensures NonEmpty(Decimals(ns)) == Decimals(ns)
    ensures ParamValues(Decimals(ns)) == ns
  {
    if ns != [] {
      DecimalsParse(ns[1..]);
      DecimalRoundTrip(ns[0]);
      assert Decimals(ns)[1..] == Decimals(ns[1..]);
    }
  }

  /** Every list of numbers written as parameter text parses back to itself. */
  lemma {:induction false} ParseEncodeRoundTrip(ns: seq<nat>)
    ensures ParseParams(EncodeParams(ns)) == ns
  {
    var ds := Decimals(ns);
    if ns == [] {
      assert EncodeParams(ns) == "";
    } else {
      assert forall k :: 0 <= k < |ds| ==> ';' !in ds[k];
      JoinSplit(ds);
      assert EncodeParams(ns)[0] == ds[0][0];
      assert IsAsciiDigit(ds[0][0]);
      assert StripPrivate(EncodeParams(ns)) == EncodeParams(ns);
      DecimalsParse(ns);
    }
  }

  /** Each kept field holds at least one character of the joined text. */
  lemma {:induction false} NonEmptyBound(fields: seq<string>)
    ensures |NonEmpty(fields)| <= |Join(fields)|
  {
    if |fields| > 1 {
      NonEmptyBound(fields[1..]);
      assert Join(fields) == fields[0] + ";" + Join(fields[1..]);
    }
  }

  /** Dropping the empty fields is a filter: it keeps the order ... */
  lemma {:induction false} NonEmptyAppend(a: seq<string>, b: seq<string>)
    ensures NonEmpty(a + b) == NonEmpty(a) + NonEmpty(b)
  {
    if a == [] {
      assert a + b == b;
    } else {
      var c := a + b;
      assert c != [] && c[0] == a[0] && c[1..] == a[1..] + b;
      NonEmptyAppend(a[1..], b);
      var x, y := NonEmpty(a[1..]), NonEmpty(b);
      if a[0] == [] {
        assert NonEmpty(c) == x + y;
      } else {
        assert NonEmpty(c) == [a[0]] + (x + y);
        assert NonEmpty(a) == [a[0]] + x;
        assert [a[0]] + (x + y) == ([a[0]] + x) + y;
      }
    }
  }

  /** Exactly the non-empty fields are kept. */
  lemma {:induction false} NonEmptyMembers(fields: seq<string>)
    ensures forall f :: f in NonEmpty(fields) <==> f in fields && f != []
  {
    if fields != [] {
      NonEmptyMembers(fields[1..]);
      assert fields == [fields[0]] + fields[1..];
    }
  }

  /** ... and decides field by field. */
  lemma NonEmptySingle(f: string)
    ensures NonEmpty([f]) == if f == [] then [] else [f]
  {
    assert [f][1..] == [];
  }

  lemma {:induction false} ParamValuesAppend(a: seq<string>, b: seq<string>)
    ensures ParamValues(a + b) == ParamValues(a) + ParamValues(b)
  {
    if a == [] {
      assert a + b == b;
    } else {
      var c := a + b;
      assert c != [] && c[0] == a[0] && c[1..] == a[1..] + b;
      ParamValuesAppend(a[1..], b);
      var x, y := ParamValues(a[1..]), ParamValues(b);
      assert ParamValues(c) == [ParamValue(a[0])] + (x + y);
      assert [ParamValue(a[0])] + (x + y) == ([ParamValue(a[0])] + x) + y;
    }
  }

  /** Joining two lists of fields puts one separator between them. */
  lemma {:induction false} JoinAppend(a: seq<string>, b: seq<string>)
    requires |a| >= 1 && |b| >= 1
    ensures Join(a + b) == Join(a) + ";" + Join(b)
  {
    if |a| > 1 {
      JoinAppend(a[1..], b);
      assert (a + b)[1..] == a[1..] + b;
    } else {
      assert (a + b)[1..] == b;
    }
  }

  /** Splitting at a separator splits the fields there. */
  lemma SplitConcat(a: string, b: string)
    ensures Split(a + ";" + b) == Split(a) + Split(b)
  {
    SplitJoin(a);
    SplitJoin(b);
    JoinAppend(Split(a), Split(b));
    JoinSplit(Split(a) + Split(b));
  }

  /** Parameter text is read field by field: the parameters of `a;b` are
      those of a followed by those of b, whatever empty fields either holds
      (neither begins with the private marker). */
  lemma ParamsConcat(a: string, b: string)
    requires a == [] || a[0] != '?'
    requires b == [] || b[0] != '?'
    ensures ParseParams(a + ";" + b) == ParseParams(a) + ParseParams(b)
  {
    var s := a + ";" + b;
    assert s[0] != '?' by {
      if a == [] { assert s[0] == ';'; } else { assert s[0] == a[0]; }
    }
    SplitConcat(a, b);
    NonEmptyAppend(Split(a), Split(b));
    ParamValuesAppend(NonEmpty(Split(a)), NonEmpty(Split(b)));
  }

  /** A single field: no parameter when it is empty, else its value; one
      leading '?' is ignored. */
  lemma ParamsField(f: string)
    requires ';' !in f && (f == [] || f[0] != '?')
    ensures ParseParams(f) == if f == [] then [] else [ParamValue(f)]
    ensures ParseParams("?" + f) == ParseParams(f)
  {
    JoinSplit([f]);
    assert ("?" + f)[1..] == f;
    NonEmptySingle(f);
  }

  lemma SplitSingle(c: char)
    requires c != ';'
    ensures Split([c]) == [[c]]
  {
    assert [c][1..] == [];
    assert [c] + "" == [c];
  }

  /** Empty fields are dropped rather than read as 0: `;5` is one parameter. */
  lemma EmptyFieldsDropped()
    ensures ParseParams(";5") == [5]
    ensures ParseParams("?25") == [25]
    ensures ParseParams("") == []
  {
    SplitSingle('5');
    assert Split(";5") == [""] + Split("5");
    assert Split("25") == ["25"] by {
      SplitSingle('5');
      assert "25" == "2" + "5";
      SplitPrefix("2", "5");
    }
    assert StripPrivate("?25") == "25";
    assert DecimalValue("25") == 10 * DecimalValue("2") + 5 by {
      assert "25"[..1] == "2";
    }
  }

  /** An empty field between two others is dropped: `a;;b` has the
      parameters of `a;b`. */
  lemma DoubledSeparator(a: string, b: string)
    requires a == [] || a[0] != '?'
    requires b == [] || b[0] != '?'
    ensures ParseParams(a + ";;" + b) == ParseParams(a + ";" + b)
  {
    assert a + ";;" + b == a + ";" + (";" + b);
    assert ";" + b == "" + ";" + b;
    ParamsConcat("", b);
    ParamsConcat(a, ";" + b);
    ParamsConcat(a, b);
  }

  /** Where the source's parse does not raise, it gives the corrected parse's
      result; it raises exactly when a non-empty field is made of digits of
      which one is a superscript, or of more digits than the limit. */
  lemma {:induction false} AsWrittenAgrees(fields: seq<string>)
    ensures ParamValuesAsWritten(fields).Some? ==>
      ParamValuesAsWritten(fields).value == ParamValues(fields)
    ensures ParamValuesAsWritten(fields).None? <==>
      exists k :: 0 <= k < |fields| && RaisesInt(fields[k])
  {
    if fields != [] {
      AsWrittenAgrees(fields[1..]);
      if ParamValuesAsWritten(fields).None? && !RaisesInt(fields[0]) {
        var k :| 0 <= k < |fields[1..]| && RaisesInt(fields[1..][k]);
        assert RaisesInt(fields[k + 1]);
      }
      if exists k :: 0 <= k < |fields| && RaisesInt(fields[k]) {
        var k :| 0 <= k < |fields| && RaisesInt(fields[k]);
        if k > 0 { assert RaisesInt(fields[1..][k - 1]); }
      }
    }
  }

  /** A field of ASCII digits longer than the digit limit makes the source's
      parse raise; the corrected parse reads its value. */
  lemma LongFieldRaises(p: string)
    requires p != [] && AllAsciiDigits(p) && |p| > IntMaxStrDigits
    ensures RaisesInt(p) && ParamValueAsWritten(p).None?
    ensures ParamValue(p) == DecimalValue(p)
  {
  }

  /** The source's parse raises on the parameter text "²" (byte 0xB2), so
      `ESC [ ² m` aborts `feed`; the corrected parse reads it as [0]. */
  lemma SuperscriptRaises()
    ensures ParseParamsAsWritten("\U{00B2}").None?
    ensures ParseParams("\U{00B2}") == [0]
  {
    SplitSingle('\U{00B2}');
    assert RaisesInt("\U{00B2}");
    assert !AllAsciiDigits("\U{00B2}") by {
      assert !IsAsciiDigit("\U{00B2}"[0]);
    }
  }
}
