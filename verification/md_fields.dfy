/** The field splitter of `parseMdLine`: a reading-progress line
    `author, title, NofM` is cut at unescaped commas, a backslash makes the
    next character literal (and is itself dropped), and every field is trimmed. */
module MdFields {
  import opened Strings

  /** What the splitter sees: a literal character or a field separator. */
  datatype Token = Lit(c: char) | Comma

  /** Reference reading of a line, from the left: `\x` is the literal `x`
      whatever `x` is, a lone trailing backslash vanishes, an unescaped `,`
      separates, every other character is itself. */
  function Tokens(s: string): seq<Token>
  {
    if |s| == 0 then []
    else if s[0] == '\\' then (if |s| == 1 then [] else [Lit(s[1])] + Tokens(s[2..]))
    else if s[0] == ',' then [Comma] + Tokens(s[1..])
    else [Lit(s[0])] + Tokens(s[1..])
  }

  /** The line ends in a backslash that has not been paired with a character yet. */
  predicate PendingEscape(s: string)
  {
    if |s| == 0 then false
    else if s[0] == '\\' then |s| == 1 || PendingEscape(s[2..])
    else PendingEscape(s[1..])
  }

  /** Reading one more character: this is how the character loop sees the
      reference reading grow. */
  lemma {:induction false} TokensSnoc(s: string, c: char)
    ensures PendingEscape(s + [c]) == (!PendingEscape(s) && c == '\\')
    ensures Tokens(s + [c]) ==
      if PendingEscape(s) then Tokens(s) + [Lit(c)]
      else if c == '\\' then Tokens(s)
      else if c == ',' then Tokens(s) + [Comma]
      else Tokens(s) + [Lit(c)]
    decreases |s|
  {
    if |s| == 0 {
      assert s + [c] == [c];
    } else if s[0] == '\\' {
      if |s| == 1 {
        assert s + [c] == ['\\', c];
        assert (s + [c])[2..] == [];
      } else {
        assert (s + [c])[2..] == s[2..] + [c];
        TokensSnoc(s[2..], c);
      }
    } else {
      assert (s + [c])[1..] == s[1..] + [c];
      TokensSnoc(s[1..], c);
    }
  }

  /** Reading a line in two pieces, when the first leaves no escape pending. */
  lemma {:induction false} TokensAppend(a: string, b: string)
    requires !PendingEscape(a)
    ensures Tokens(a + b) == Tokens(a) + Tokens(b)
    decreases |a|
  {
    if |a| == 0 {
      assert a + b == b;
    } else if a[0] == '\\' {
      assert (a + b)[2..] == a[2..] + b;
      TokensAppend(a[2..], b);
    } else {
      assert (a + b)[1..] == a[1..] + b;
      TokensAppend(a[1..], b);
    }
  }

  function CountCommas(ts: seq<Token>): nat
  {
    if |ts| == 0 then 0 else CountCommas(ts[..|ts| - 1]) + (if ts[|ts| - 1] == Comma then 1 else 0)
  }

  /** The untrimmed fields: one more than there are separators. */
  function RawFields(ts: seq<Token>): (r: seq<string>)
    ensures |r| == CountCommas(ts) + 1
  {
    if |ts| == 0 then [""]
    else
      var r := RawFields(ts[..|ts| - 1]);
      match ts[|ts| - 1]
      case Comma => r + [""]
      case Lit(c) => r[..|r| - 1] + [r[|r| - 1] + [c]]
  }

  function TrimEach(xs: seq<string>): (r: seq<string>)
    ensures |r| == |xs|
    ensures forall i :: 0 <= i < |xs| ==> r[i] == Trim(xs[i])
  {
    seq(|xs|, i requires 0 <= i < |xs| => Trim(xs[i]))
  }

  lemma TrimEachTrimmed(xs: seq<string>)
    ensures forall i :: 0 <= i < |xs| ==> Trim(TrimEach(xs)[i]) == TrimEach(xs)[i]
  {
    forall i | 0 <= i < |xs| ensures Trim(TrimEach(xs)[i]) == TrimEach(xs)[i] {
      TrimIdempotent(xs[i]);
    }
  }

  /** The fields of a line: every separated field trimmed, and the trailing
      field kept only when something is left of it after trimming. */
  function Fields(line: string): (r: seq<string>)
    ensures forall i :: 0 <= i < |r| ==> Trim(r[i]) == r[i]
    ensures |r| == CountCommas(Tokens(line)) || |r| == CountCommas(Tokens(line)) + 1
    ensures |r| == CountCommas(Tokens(line)) + 1 ==> r[|r| - 1] != ""
    ensures |r| == CountCommas(Tokens(line)) + 1 <==> Trim(RawFields(Tokens(line))[CountCommas(Tokens(line))]) != ""
  {
    var raw := RawFields(Tokens(line));
    var last := Trim(raw[|raw| - 1]);
    TrimEachTrimmed(raw[..|raw| - 1]);
    TrimIdempotent(raw[|raw| - 1]);
    TrimEach(raw[..|raw| - 1]) + (if last != "" then [last] else [])
  }

  /** The loop state after a prefix: the fields closed so far (trimmed) and
      the field being collected. */
  predicate Agrees(result: seq<string>, current: string, raw: seq<string>)
  {
    |raw| >= 1 && result == TrimEach(raw[..|raw| - 1]) && current == raw[|raw| - 1]
  }

  /** A literal character extends the field being collected. */
  lemma AgreesLit(ts: seq<Token>, c: char, result: seq<string>, current: string)
    requires Agrees(result, current, RawFields(ts))
    ensures Agrees(result, current + [c], RawFields(ts + [Lit(c)]))
  {
    RawFieldsLit(ts, c);
    var raw := RawFields(ts);
    var raw' := raw[..|raw| - 1] + [raw[|raw| - 1] + [c]];
    assert raw'[..|raw'| - 1] == raw[..|raw| - 1];
  }

  /** A separator closes the field being collected, trimmed. */
  lemma AgreesComma(ts: seq<Token>, result: seq<string>, current: string)
    requires Agrees(result, current, RawFields(ts))
    ensures Agrees(result + [Trim(current)], "", RawFields(ts + [Comma]))
  {
    RawFieldsComma(ts);
    var raw := RawFields(ts);
    assert (raw + [""])[..|raw|] == raw;
    assert TrimEach(raw) == TrimEach(raw[..|raw| - 1]) + [Trim(current)];
  }

  /** The character after a pending backslash is taken literally. */
  lemma EscapedStep(s: string, c: char, result: seq<string>, current: string)
    requires PendingEscape(s) && Agrees(result, current, RawFields(Tokens(s)))
    ensures !PendingEscape(s + [c]) && Agrees(result, current + [c], RawFields(Tokens(s + [c])))
  {
    TokensSnoc(s, c);
    AgreesLit(Tokens(s), c, result, current);
  }

  /** An unescaped backslash only sets the escape. */
  lemma BackslashStep(s: string, result: seq<string>, current: string)
    requires !PendingEscape(s) && Agrees(result, current, RawFields(Tokens(s)))
    ensures PendingEscape(s + ['\\']) && Agrees(result, current, RawFields(Tokens(s + ['\\'])))
  {
    TokensSnoc(s, '\\');
  }

  /** An unescaped comma closes the field. */
  lemma CommaStep(s: string, result: seq<string>, current: string)
    requires !PendingEscape(s) && Agrees(result, current, RawFields(Tokens(s)))
    ensures !PendingEscape(s + [',']) && Agrees(result + [Trim(current)], "", RawFields(Tokens(s + [','])))
  {
    TokensSnoc(s, ',');
    AgreesComma(Tokens(s), result, current);
  }

  /** Any other character is collected. */
  lemma PlainStep(s: string, c: char, result: seq<string>, current: string)
    requires c != '\\' && c != ','
    requires !PendingEscape(s) && Agrees(result, current, RawFields(Tokens(s)))
    ensures !PendingEscape(s + [c]) && Agrees(result, current + [c], RawFields(Tokens(s + [c])))
  {
    TokensSnoc(s, c);
    AgreesLit(Tokens(s), c, result, current);
  }

  /** The character loop of `parseMdLine`, which agrees with the reference
      reading of the line. */
  method SplitLine(line: string) returns (fields: seq<string>)
    ensures fields == Fields(line)
  {
    var result: seq<string> := [];
    var current := "";
    var escaped := false;
    var i := 0;
    while i < |line|
      invariant 0 <= i <= |line|
      invariant escaped == PendingEscape(line[..i])
      invariant Agrees(result, current, RawFields(Tokens(line[..i])))
    {
      var c := line[i];
      assert line[..i + 1] == line[..i] + [c];
      if escaped {
        EscapedStep(line[..i], c, result, current);
        current := current + [c];
        escaped := false;
      } else if c == '\\' {
        BackslashStep(line[..i], result, current);
        escaped := true;
      } else if c == ',' {
        CommaStep(line[..i], result, current);
        result := result + [Trim(current)];
        current := "";
      } else {
        PlainStep(line[..i], c, result, current);
        current := current + [c];
      }
      i := i + 1;
    }
    assert line[..i] == line;
    if Trim(current) != "" {
      result := result + [Trim(current)];
    }
    fields := result;
  }

  // ---------------------------------------------------------------------
  // The inverse: writing fields back into a line.

  /** Escapes one character if the splitter would treat it specially. */
  function EscapeChar(c: char): string
  {
    if c == '\\' || c == ',' then ['\\', c] else [c]
  }

  /** Escapes every character the splitter treats specially. */
  function Escape(f: string): string
  {
    if |f| == 0 then "" else EscapeChar(f[0]) + Escape(f[1..])
  }

  function Lits(f: string): (r: seq<Token>)
    ensures |r| == |f|
    ensures forall i :: 0 <= i < |f| ==> r[i] == Lit(f[i])
  {
    seq(|f|, i requires 0 <= i < |f| => Lit(f[i]))
  }

  lemma EscapeCharReadsLiterally(c: char)
    ensures !PendingEscape(EscapeChar(c))
    ensures Tokens(EscapeChar(c)) == [Lit(c)]
  {
    var h := EscapeChar(c);
    if c == '\\' || c == ',' {
      assert h[2..] == [];
    } else {
      assert h[1..] == [];
    }
  }

  lemma {:induction false} EscapeReadsLiterally(f: string)
    ensures !PendingEscape(Escape(f))
    ensures Tokens(Escape(f)) == Lits(f)
    decreases |f|
  {
    if |f| > 0 {
      var h := EscapeChar(f[0]);
      var t := Escape(f[1..]);
      EscapeReadsLiterally(f[1..]);
      EscapeCharReadsLiterally(f[0]);
      TokensAppend(h, t);
      PendingAppend(h, t);
      assert Lits(f) == [Lit(f[0])] + Lits(f[1..]);
    }
  }

  lemma {:induction false} PendingAppend(a: string, b: string)
    requires !PendingEscape(a)
    ensures PendingEscape(a + b) == PendingEscape(b)
    decreases |a|
  {
    if |a| == 0 {
      assert a + b == b;
    } else if a[0] == '\\' {
      assert (a + b)[2..] == a[2..] + b;
      PendingAppend(a[2..], b);
    } else {
      assert (a + b)[1..] == a[1..] + b;
      PendingAppend(a[1..], b);
    }
  }

  /** A separator closes the field being collected and opens an empty one. */
  lemma RawFieldsComma(ts: seq<Token>)
    ensures RawFields(ts + [Comma]) == RawFields(ts) + [""]
  {
    assert (ts + [Comma])[..|ts|] == ts;
  }

  /** A literal character extends the field being collected. */
  lemma RawFieldsLit(ts: seq<Token>, c: char)
    ensures var r := RawFields(ts);
      RawFields(ts + [Lit(c)]) == r[..|r| - 1] + [r[|r| - 1] + [c]]
  {
    assert (ts + [Lit(c)])[..|ts|] == ts;
  }

  /** Extending the last field twice is extending it once by both pieces. */
  lemma ExtendLast(r: seq<string>, g: string, c: char)
    requires |r| > 0
    ensures var r' := r[..|r| - 1] + [r[|r| - 1] + g];
      r'[..|r'| - 1] + [r'[|r'| - 1] + [c]] == r[..|r| - 1] + [r[|r| - 1] + (g + [c])]
  {
    var r' := r[..|r| - 1] + [r[|r| - 1] + g];
    assert r'[..|r'| - 1] == r[..|r| - 1];
    assert r'[|r'| - 1] + [c] == r[|r| - 1] + (g + [c]);
  }

  lemma RawFieldsNoLits(ts: seq<Token>)
    ensures var r := RawFields(ts);
      RawFields(ts + Lits("")) == r[..|r| - 1] + [r[|r| - 1] + ""]
  {
    var r := RawFields(ts);
    assert ts + Lits("") == ts;
    assert r[|r| - 1] + "" == r[|r| - 1];
    assert r[..|r| - 1] + [r[|r| - 1]] == r;
  }

  lemma RawFieldsLitsStep(ts: seq<Token>, g: string, c: char, r: seq<string>)
    requires |r| > 0 && RawFields(ts + Lits(g)) == r[..|r| - 1] + [r[|r| - 1] + g]
    ensures RawFields(ts + Lits(g + [c])) == r[..|r| - 1] + [r[|r| - 1] + (g + [c])]
  {
    assert Lits(g + [c]) == Lits(g) + [Lit(c)];
    assert ts + Lits(g + [c]) == (ts + Lits(g)) + [Lit(c)];
    RawFieldsLit(ts + Lits(g), c);
    ExtendLast(r, g, c);
  }

  /** Literal characters extend the field being collected. */
  lemma {:induction false} RawFieldsLits(ts: seq<Token>, f: string)
    ensures var r := RawFields(ts);
      RawFields(ts + Lits(f)) == r[..|r| - 1] + [r[|r| - 1] + f]
    decreases |f|
  {
    if |f| == 0 {
      RawFieldsNoLits(ts);
      assert f == "";
    } else {
      var g := f[..|f| - 1];
      RawFieldsLits(ts, g);
      RawFieldsLitsStep(ts, g, f[|f| - 1], RawFields(ts));
      assert g + [f[|f| - 1]] == f;
    }
  }

  /** A line written from fields: each field escaped, joined by ", ". */
  function Encode(fields: seq<string>): string
    requires |fields| >= 1
  {
    if |fields| == 1 then Escape(fields[0])
    else Encode(fields[..|fields| - 1]) + ", " + Escape(fields[|fields| - 1])
  }

  /** The raw fields the splitter should find in an encoding: every field
      after the first keeps the space written after its comma. */
  function Padded(fields: seq<string>): (r: seq<string>)
    requires |fields| >= 1
    ensures |r| == |fields| && r[0] == fields[0]
    ensures forall i :: 0 < i < |fields| ==> r[i] == " " + fields[i]
  {
    if |fields| == 1 then [fields[0]]
    else Padded(fields[..|fields| - 1]) + [" " + fields[|fields| - 1]]
  }

  lemma SeparatorReads()
    ensures !PendingEscape(", ")
    ensures Tokens(", ") == [Comma, Lit(' ')]
  {
    var sep := ", ";
    assert sep[1..] == " ";
    assert sep[1..][1..] == [];
  }

  lemma EncodeStepTokens(a: string, last: string)
    requires !PendingEscape(a)
    ensures !PendingEscape(a + ", " + Escape(last))
    ensures Tokens(a + ", " + Escape(last)) == Tokens(a) + [Comma] + Lits(" " + last)
  {
    SeparatorAfter(a);
    EscapeReadsLiterally(last);
    TokensAppend(a + ", ", Escape(last));
    PendingAppend(a + ", ", Escape(last));
    assert Lits(" " + last) == [Lit(' ')] + Lits(last);
    assert Tokens(a) + [Comma, Lit(' ')] + Lits(last) == Tokens(a) + [Comma] + Lits(" " + last);
  }

  lemma SeparatorAfter(a: string)
    requires !PendingEscape(a)
    ensures !PendingEscape(a + ", ")
    ensures Tokens(a + ", ") == Tokens(a) + [Comma, Lit(' ')]
  {
    SeparatorReads();
    PendingAppend(a, ", ");
    TokensAppend(a, ", ");
  }

  lemma RawFieldsCommaLits(ts: seq<Token>, f: string)
    ensures RawFields(ts + [Comma] + Lits(f)) == RawFields(ts) + [f]
  {
    var r0 := RawFields(ts);
    RawFieldsComma(ts);
    RawFieldsLits(ts + [Comma], f);
    assert (r0 + [""])[..|r0|] == r0;
    assert "" + f == f;
  }

  lemma EncodeReadsOne(f: string)
    ensures !PendingEscape(Escape(f))
    ensures RawFields(Tokens(Escape(f))) == [f]
  {
    EscapeReadsLiterally(f);
    RawFieldsLits([], f);
    assert [] + Lits(f) == Lits(f);
    assert RawFields([]) == [""];
    assert "" + f == f;
  }

  lemma {:induction false} EncodeReads(fields: seq<string>)
    requires |fields| >= 1
    ensures !PendingEscape(Encode(fields))
    ensures RawFields(Tokens(Encode(fields))) == Padded(fields)
    decreases |fields|
  {
    var n := |fields|;
    if n == 1 {
      EncodeReadsOne(fields[0]);
    } else {
      var init := fields[..n - 1];
      var last := fields[n - 1];
      var a := Encode(init);
      EncodeReads(init);
      EncodeStepTokens(a, last);
      RawFieldsCommaLits(Tokens(a), " " + last);
      assert Encode(fields) == a + ", " + Escape(last);
      assert Padded(fields) == Padded(init) + [" " + last];
    }
  }

  /** Round trip: fields that are already trimmed, the last one non-empty,
      are what the splitter reads back from their encoding. */
  lemma TrimPadded(fields: seq<string>)
    requires |fields| >= 1
    requires forall i :: 0 <= i < |fields| ==> Trim(fields[i]) == fields[i]
    ensures TrimEach(Padded(fields)) == fields
  {
    var raw := Padded(fields);
    forall i | 0 < i < |fields| ensures Trim(raw[i]) == fields[i] {
      TrimSpaceThenTrimmed(' ', fields[i]);
      assert raw[i] == [' '] + fields[i];
    }
  }

  /** What the splitter makes of a line, given the raw fields it reads. */
  lemma FieldsOfRaw(line: string, raw: seq<string>)
    requires RawFields(Tokens(line)) == raw
    requires Trim(raw[|raw| - 1]) != ""
    ensures Fields(line) == TrimEach(raw)
  {
    assert TrimEach(raw) == TrimEach(raw[..|raw| - 1]) + [Trim(raw[|raw| - 1])];
  }

  lemma EncodeRoundTrip(fields: seq<string>)
    requires |fields| >= 1
    requires forall i :: 0 <= i < |fields| ==> Trim(fields[i]) == fields[i]
    requires fields[|fields| - 1] != ""
    ensures Fields(Encode(fields)) == fields
  {
    var line := Encode(fields);
    EncodeReads(fields);
    TrimPadded(fields);
    var raw := Padded(fields);
    assert Trim(raw[|raw| - 1]) == fields[|fields| - 1];
    FieldsOfRaw(line, raw);
  }
}
