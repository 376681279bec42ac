/** What each form of a term is read as: kinds, numbers, blanks, and the errors. */
module HostTermRules {
  import opened Options
  import opened Text
  import opened Words
  import opened HostTerm
  import Glob
  import P = HostPattern
  import Sequences

  // ---------- kinds ----------

  predicate HasWildcard(s: string) {
    exists i :: 0 <= i < |s| && s[i] in {'*', '?', '['}
  }

  /** A tilde makes a regex, `all` and `*` name everything, a wildcard makes a glob, anything else is a name. */
  lemma KindExactly(body: string, compiles: string -> bool)
    ensures body != "" && body[0] == '~' ==>
      KindOf(body, compiles) == if compiles(body[1..]) then Ok(RegexText(body[1..])) else Err(BadRegex)
    ensures body == "all" || body == "*" ==> KindOf(body, compiles) == Ok(All)
    ensures body != "*" && (body == "" || body[0] != '~') && HasWildcard(body) ==>
      KindOf(body, compiles)
        == if Glob.Unclosed(body, false) then Err(UnbalancedBrackets)
           else if Glob.Build(body, compiles).Regex? then Ok(GlobText(body))
           else Err(BadRegex)
    ensures body != "all" && (body == "" || body[0] != '~') && !HasWildcard(body) ==>
      KindOf(body, compiles) == Ok(Name(body))
  {
    Glob.FailsExactly(body, compiles);
    if '*' in body || '?' in body || '[' in body {
      var i :| 0 <= i < |body| && body[i] in {'*', '?', '['};
      assert HasWildcard(body);
    }
    assert "all"[0] == 'a' && !HasWildcard("all");
  }

  // ---------- numbers ----------

  function Pow10(n: nat): nat {
    if n == 0 then 1 else 10 * Pow10(n - 1)
  }

  /** The value of a digit string, from its first digit on. */
  function Value(ds: string): nat
    requires AllDigits(ds)
  {
    if ds == "" then 0 else (ds[0] as int - '0' as int) * Pow10(|ds| - 1) + Value(ds[1..])
  }

  lemma Tenfold(d: int, k: int)
    ensures d * (10 * k) == 10 * (d * k)
  {
  }

  lemma {:induction false} ValueOfLast(ds: string)
    requires ds != "" && AllDigits(ds)
    ensures Value(ds) == 10 * Value(ds[..|ds| - 1]) + (ds[|ds| - 1] as int - '0' as int)
    decreases |ds|
  {
    var front, tail := ds[..|ds| - 1], ds[1..];
    if |ds| == 1 {
      assert front == "" && tail == "";
    } else {
      ValueOfLast(tail);
      assert tail[..|tail| - 1] == front[1..] && tail[|tail| - 1] == ds[|ds| - 1] && front[0] == ds[0];
      Tenfold(ds[0] as int - '0' as int, Pow10(|ds| - 2));
    }
  }

  lemma {:induction false} DecimalIsValue(ds: string)
    requires AllDigits(ds)
    ensures Decimal(ds) == Value(ds)
    decreases |ds|
  {
    hide Value;
    if ds == "" {
      NoValue();
    } else {
      DecimalIsValue(ds[..|ds| - 1]);
      ValueOfLast(ds);
    }
  }

  lemma NoValue()
    ensures Value("") == 0
  {
  }

  /** Digits with or without a sign, leading zeros included, are a number if it fits 64 bits. */
  lemma NumberExactly(ds: string)
    requires ds != "" && AllDigits(ds)
    ensures ParseI64(ds) == if Value(ds) < 0x8000_0000_0000_0000 then Some(Value(ds)) else None
    ensures ParseI64("+" + ds) == if Value(ds) < 0x8000_0000_0000_0000 then Some(Value(ds)) else None
    ensures ParseI64("-" + ds) == if Value(ds) <= 0x8000_0000_0000_0000 then Some(-(Value(ds) as int)) else None
  {
    DecimalIsValue(ds);
    assert IsDigit(ds[0]);
    assert ("+" + ds)[1..] == ds && ("-" + ds)[1..] == ds;
  }

  /** Nothing else is a number. */
  lemma OnlyNumbers(s: string)
    ensures ParseI64(s).Some? ==>
      exists sign, ds :: sign in {"", "+", "-"} && ds != "" && AllDigits(ds) && s == sign + ds
  {
    if ParseI64(s).Some? {
      if s[0] == '-' || s[0] == '+' {
        assert s == [s[0]] + s[1..] && [s[0]] in {"", "+", "-"};
      } else {
        assert s == "" + s;
      }
    }
  }

  // ---------- blanks ----------

  /** Blanks behind the operator, around the name, before the index and at the end make no difference. */
  lemma TermBlanks(t: Term, compiles: string -> bool, a: string, b: string, c: string)
    requires Writable(t, compiles) && AllBlank(a) && AllBlank(b) && AllBlank(c)
    ensures ParseTerm(PrintOp(t.op) + (a + (PrintKind(t.kind) + b + PrintIndex(t.index) + c)), compiles) == Ok(t)
  {
    hide KindOf, ParseTerm, Trim, SplitIndex, After, Parts, PrintKind, PrintIndex, PrintInner;
    var p := PrintKind(t.kind);
    var inner := p + b + PrintIndex(t.index);
    var token := PrintOp(t.op) + (a + (inner + c));
    OperatorRead(t.op, a, inner + c);
    match t.index
    case None =>
      Sequences.NothingAdded(p + b);
      NoIndexPrinted();
      Sequences.Associative(p, b, c);
      assert AllBlank(b + c);
      TrimPadded(a, p, b + c);
      TrimPadded("", p, "");
      Padding(p);
      PartsFrom(token, p, p, None, p);
      ParseParts(token, p, p, None, p, compiles);
    case Some(i) =>
      SplitIndexBack(p + b, i);
      BracketEnds(p, b, i);
      TrimPadded(a, inner, c);
      TrimPadded("", p, b);
      Padding(p + b);
      PartsFrom(token, inner, p + b, t.index, p);
      ParseParts(token, inner, p + b, t.index, p, compiles);
  }

  lemma NoIndexPrinted()
    ensures PrintIndex(None) == ""
  {
  }

  lemma Padding(s: string)
    ensures "" + s == s == s + ""
  {
  }

  lemma BracketEnds(p: string, b: string, i: P.Index)
    requires IsTrimmed(p) && p != ""
    ensures IsTrimmed(p + b + PrintIndex(Some(i))) && p + b + PrintIndex(Some(i)) != ""
  {
    var s := p + b + PrintIndex(Some(i));
    assert s[0] == p[0] && s[|s| - 1] == ']';
  }

  /** An operator sign is the first character; blanks, and names that may stand there, are no operator. */
  lemma OperatorRead(op: P.Op, a: string, rest: string)
    requires AllBlank(a) && rest != "" && (op.Union? ==> OpOf(rest).Union?)
    ensures OpOf(PrintOp(op) + (a + rest)) == op && AfterOp(PrintOp(op) + (a + rest)) == a + rest
  {
    var token := PrintOp(op) + (a + rest);
    if op.Union? {
      Sequences.NothingAdded(a + rest);
      if a != "" { assert IsWhitespace(a[0]) && token[0] == a[0]; } else { assert token == rest; }
    } else {
      assert token[1..] == a + rest;
    }
  }

  /** Inside the brackets too: around an index, and around both bounds of a slice. */
  lemma IndexBlanks(a: string, b: string, c: string, d: string, i: int, start: Option<int>, end: Option<int>)
    requires AllBlank(a) && AllBlank(b) && AllBlank(c) && AllBlank(d)
    requires IndexFits(P.Single(i)) && IndexFits(P.Slice(start, end))
    ensures ParseIndex(a + (PrintInt(i) + b)) == Some(P.Single(i))
    ensures ParseIndex(a + ((PrintBound(start) + b + ":" + c + PrintBound(end)) + d)) == Some(P.Slice(start, end))
  {
    hide ParseI64, ParseBound, PrintInt, PrintBound, Trim, TryParseSlice;
    IntIsPlain(i);
    IntRoundTrip(i);
    IntTrimmed(i);
    TrimPadded(a, PrintInt(i), b);
    SliceBlanks(a, PrintBound(start), b, c, PrintBound(end), d, start, end);
  }

  lemma IntTrimmed(i: int)
    ensures IsTrimmed(PrintInt(i))
  {
    IntIsPlain(i);
    NumericIsPlain(PrintInt(i));
  }

  lemma SliceBlanks(a: string, x: string, b: string, c: string, y: string, d: string, start: Option<int>, end: Option<int>)
    requires AllBlank(a) && AllBlank(b) && AllBlank(c) && AllBlank(d) && IndexFits(P.Slice(start, end))
    requires x == PrintBound(start) && y == PrintBound(end)
    ensures ParseIndex(a + ((x + b + ":" + c + y) + d)) == Some(P.Slice(start, end))
  {
    hide ParseI64, PrintInt, PrintBound, Trim, Find, ParseBound;
    BoundBack(start);
    BoundBack(end);
    NumericIsPlain(x);
    NumericIsPlain(y);
    var s := a + ((x + b + ":" + c + y) + d);
    var t := Trim(s);
    var left, right := SliceTrimmed(a, x, b, c, y, d);
    ColonAt(left, right);
    assert ParseBound(left) == ParseBound(x) && ParseBound(right) == ParseBound(y) by {
      SameBound(left, x);
      SameBound(right, y);
    }
  }

  lemma SameBound(s: string, x: string)
    requires Trim(s) == Trim(x)
    ensures ParseBound(s) == ParseBound(x)
  {
    hide Trim, ParseI64;
  }

  lemma ColonAt(left: string, right: string)
    requires ':' !in left
    ensures var t := left + ":" + right; Find(t, ':') == |left| && t[..|left|] == left && t[|left| + 1..] == right
  {
    FindAt(left, ':', right);
  }

  /** What is left of a slice without the blanks around it. */
  lemma SliceTrimmed(a: string, x: string, b: string, c: string, y: string, d: string) returns (left: string, right: string)
    requires AllBlank(a) && AllBlank(b) && AllBlank(c) && AllBlank(d) && IsNumeric(x) && IsNumeric(y)
    ensures Trim(a + ((x + b + ":" + c + y) + d)) == left + ":" + right
    ensures ':' !in left && Trim(left) == Trim(x) && Trim(right) == Trim(y)
  {
    hide Trim, IsNumeric, IsWhitespace;
    NumericIsPlain(x);
    NumericIsPlain(y);
    left := if x == "" then "" else x + b;
    right := if y == "" then "" else c + y;
    BlankNoColon(b);
    BoundEnds(x, b, c, y);
    var before := if x == "" then a + b else a;
    var behind := if y == "" then c + d else d;
    assert AllBlank(before) && AllBlank(behind);
    Regroup(a, x, b, c, y, d);
    CoreTrimmed(left, right, x, b, c, y);
    TrimPadded(before, left + ":" + right, behind);
  }

  lemma BoundEnds(x: string, b: string, c: string, y: string)
    requires IsTrimmed(x) && IsTrimmed(y) && AllBlank(b) && AllBlank(c)
    ensures Trim(if x == "" then "" else x + b) == Trim(x) && Trim(if y == "" then "" else c + y) == Trim(y)
  {
    hide Trim, IsWhitespace;
    TrimPadded("", x, b);
    TrimPadded("", x, "");
    TrimPadded(c, y, "");
    TrimPadded("", y, "");
    Padding(x);
    Padding(y);
    Padding(x + b);
    Padding(c + y);
  }

  lemma Regroup(a: string, x: string, b: string, c: string, y: string, d: string)
    ensures a + ((x + b + ":" + c + y) + d)
         == (if x == "" then a + b else a)
            + (((if x == "" then "" else x + b) + ":" + (if y == "" then "" else c + y)) + (if y == "" then c + d else d))
  {
    RegroupRight(x + b, c, y, d);
    RegroupLeft(a, x, b, ":" + (if y == "" then "" else c + y) + (if y == "" then c + d else d));
  }

  lemma RegroupRight(h: string, c: string, y: string, d: string)
    ensures (h + ":" + c + y) + d == h + (":" + (if y == "" then "" else c + y) + (if y == "" then c + d else d))
    ensures forall g: string ::
              (g + ":" + (if y == "" then "" else c + y)) + (if y == "" then c + d else d)
              == g + (":" + (if y == "" then "" else c + y) + (if y == "" then c + d else d))
  {
  }

  lemma RegroupLeft(a: string, x: string, b: string, t: string)
    ensures a + ((x + b) + t) == (if x == "" then a + b else a) + ((if x == "" then "" else x + b) + t)
  {
  }

  lemma CoreTrimmed(left: string, right: string, x: string, b: string, c: string, y: string)
    requires IsTrimmed(x) && IsTrimmed(y)
    requires left == (if x == "" then "" else x + b) && right == if y == "" then "" else c + y
    ensures IsTrimmed(left + ":" + right)
  {
    var core := left + ":" + right;
    ColonIsNotBlank();
    assert core[0] == if x == "" then ':' else x[0];
    assert core[|core| - 1] == if y == "" then ':' else y[|y| - 1];
  }

  lemma ColonIsNotBlank()
    ensures !IsWhitespace(':')
  {
  }

  lemma BlankNoColon(s: string)
    requires AllBlank(s)
    ensures ':' !in s
  {
    ColonIsNotBlank();
  }

  // ---------- errors ----------

  /** A pattern of blanks is empty; an operator or an index without a name is an empty term. */
  lemma EmptyForms(blanks: string, op: P.Op, index: P.Index, compiles: string -> bool)
    requires AllBlank(blanks) && IndexFits(index)
    ensures ParsePattern(blanks, compiles) == Err(Empty)
    ensures !op.Union? ==> ParseTerm(PrintOp(op) + blanks, compiles) == Err(EmptyTerm)
    ensures ParseTerm(PrintIndex(Some(index)), compiles) == Err(EmptyTerm)
  {
    hide Trim, KindOf, SplitIndex, PrintInner;
    TrimPadded(blanks, "", "");
    assert blanks + ("" + "") == blanks;
    if !op.Union? { assert (PrintOp(op) + blanks)[1..] == blanks; }
    var s := PrintIndex(Some(index));
    assert s[0] == '[' && s[|s| - 1] == ']';
    BracketsAreNotBlank();
    TrimOfTrimmed(s);
    SplitIndexBack("", index);
    Sequences.NothingAdded(s);
    TrimPadded("", "", "");
    assert "" + ("" + "") == "";
  }

  /** A pattern with a bad piece is refused: a blank one is an empty term, wherever it stands, and brackets that close
      nothing or never close are unbalanced. */
  lemma BadPattern(s: string, compiles: string -> bool, pieces: seq<string>, separators: string, bad: string, c: char,
                   rest: string)
    requires Trim(s) != "" && |pieces| == |separators|
    requires forall i :: 0 <= i < |pieces| ==> P.IsPiece(pieces[i])
    requires forall i :: 0 <= i < |separators| ==> separators[i] in {',', ':'}
    ensures var lead := P.Lead(pieces, separators);
      P.ClosedFrom(bad, 0) && Trim(bad) == ""
      && (Trim(s) == lead + bad || (c in {',', ':'} && Trim(s) == lead + (bad + ([c] + rest)))) ==>
        ParsePattern(s, compiles) == Err(EmptyTerm)
    ensures var lead := P.Lead(pieces, separators);
      (P.ClosedFrom(bad, 0) && Trim(s) == lead + (bad + ("]" + rest)))
      || (P.NeverCloses(bad, 0) && Trim(s) == lead + bad) ==>
        ParsePattern(s, compiles) == Err(UnbalancedBrackets)
  {
    hide Trim, P.Tokenize, P.ClosedFrom, P.NeverCloses, P.Lead, ParseTerms;
    P.SplitFails(pieces, separators, bad, c, rest);
  }

  lemma BracketsAreNotBlank()
    ensures !IsWhitespace('[') && !IsWhitespace(']')
  {
  }

  /** The first term must not be an intersection or an exclusion. */
  lemma LeadingOperator(terms: seq<Term>, compiles: string -> bool)
    requires terms != [] && AllWritable(terms, compiles) && !terms[0].op.Union?
    ensures ParsePattern(PrintPattern(terms), compiles) == Err(LeadingNonUnion)
  {
    hide ParseTerm, Trim, P.TokensFrom, P.Join, P.IsToken, Writable, PrintTerm;
    var rest := terms[1..];
    TermRoundTrip(terms[0], compiles);
    TermsRoundTrip(terms, false, compiles);
    var printed, commas := PrintTerms(terms), Commas(|terms| - 1);
    assert printed[0] == PrintTerm(terms[0]);
    JoinEnds(printed, commas);
    TrimOfTrimmed(P.Join(printed, commas));
    P.TokenizeJoin(printed, commas);
  }

  /** Terms are read in order, and the first that cannot be read decides the error. */
  lemma {:induction false} FirstErrorWins(good: seq<string>, bad: string, rest: seq<string>, first: bool,
                                          compiles: string -> bool)
    requires ParseTerms(good, first, compiles).Ok? && ParseTerm(bad, compiles).Err?
    ensures ParseTerms(good + ([bad] + rest), first, compiles) == Err(ParseTerm(bad, compiles).error)
    decreases |good|
  {
    hide ParseTerm;
    var all := good + ([bad] + rest);
    if good == [] {
      Sequences.NothingAdded([bad] + rest);
    } else {
      Sequences.OffTheFront(good, [bad] + rest);
      FirstErrorWins(good[1..], bad, rest, false, compiles);
    }
  }
}
