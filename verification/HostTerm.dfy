/** Parsing of host patterns: `HostPattern::parse` with its term, index and slice syntax. */
module HostTerm {
  import opened Options
  import opened Text
  import opened Words
  import Glob
  import Sequences
  import P = HostPattern

  datatype Error = Empty | EmptyTerm | LeadingNonUnion | BadRegex | UnbalancedBrackets

  datatype Result<T> = Ok(value: T) | Err(error: Error)

  /** What a term names; globs and regexes are kept as their source text. */
  datatype Kind = All | Name(name: string) | GlobText(glob: string) | RegexText(regex: string)

  datatype Term = Term(op: P.Op, kind: Kind, index: Option<P.Index>)

  // ---------- decimal i64 ----------

  predicate IsDigit(c: char) {
    '0' <= c <= '9'
  }

  predicate AllDigits(s: string) {
    forall i :: 0 <= i < |s| ==> IsDigit(s[i])
  }

  function Decimal(s: string): nat
    requires AllDigits(s)
  {
    if s == "" then 0 else 10 * Decimal(s[..|s| - 1]) + (s[|s| - 1] as int - '0' as int)
  }

  /** `str::parse::<i64>`: an optional sign, then digits, within range. */
  function ParseI64(s: string): Option<I64> {
    if s == "" then None
    else
      var signed := s[0] == '-' || s[0] == '+';
      var digits := if signed then s[1..] else s;
      if digits == "" || !AllDigits(digits) then None
      else
        var v := if s[0] == '-' then -(Decimal(digits) as int) else Decimal(digits);
        if -TWO_TO_63 <= v < TWO_TO_63 then Some(v) else None
  }

  function PrintNat(n: nat): (s: string)
    ensures s != "" && AllDigits(s)
  {
    var digit := [('0' as int + n % 10) as char];
    if n < 10 then digit else PrintNat(n / 10) + digit
  }

  function PrintInt(i: int): (s: string)
    ensures s != ""
  {
    if i < 0 then "-" + PrintNat(-i) else PrintNat(i)
  }

  lemma {:induction false} DecimalOfPrint(n: nat)
    ensures Decimal(PrintNat(n)) == n
  {
    var s := PrintNat(n);
    if n >= 10 {
      assert s[..|s| - 1] == PrintNat(n / 10);
      DecimalOfPrint(n / 10);
    }
  }

  lemma IntRoundTrip(i: I64)
    ensures ParseI64(PrintInt(i)) == Some(i)
  {
    var k: int := i;
    var n: nat := if k < 0 then -k else k;
    DecimalOfPrint(n);
    assert IsDigit(PrintNat(n)[0]);
    if i < 0 { assert PrintInt(i)[1..] == PrintNat(n); }
  }

  // ---------- the index ----------

  function TryParseIndex(inner: string): Option<P.Index> {
    var t := Trim(inner);
    if t == "" || ':' in t then None
    else match ParseI64(t) case Some(i) => Some(P.Single(i)) case None => None
  }

  /** An empty bound is no bound; anything else that is not a number makes this not a slice. */
  function ParseBound(s: string): Option<Option<int>> {
    var t := Trim(s);
    if t == "" then Some(None) else match ParseI64(t) case Some(i) => Some(Some(i)) case None => None
  }

  function TryParseSlice(inner: string): Option<P.Index> {
    var t := Trim(inner);
    var k := Find(t, ':');
    if k == |t| then None
    else match (ParseBound(t[..k]), ParseBound(t[k + 1..]))
      case (Some(start), Some(end)) => Some(P.Slice(start, end))
      case _ => None
  }

  function ParseIndex(inner: string): Option<P.Index> {
    if TryParseIndex(inner).Some? then TryParseIndex(inner) else TryParseSlice(inner)
  }

  /** A trailing `[...]` is an index if its contents read as one, and part of a glob otherwise. */
  function SplitIndex(s: string): (string, Option<P.Index>) {
    if s == "" || s[|s| - 1] != ']' then (s, None)
    else
      var open := FindLast(s, '[');
      if open < 0 then (s, None)
      else
        var index := ParseIndex(s[open + 1..|s| - 1]);
        if index.Some? then (s[..open], index) else (s, None)
  }

  // ---------- terms and patterns ----------

  predicate IsGlob(s: string) {
    '*' in s || '?' in s || '[' in s
  }

  /** `compiles` is the regex engine's verdict on a regex text. */
  function KindOf(body: string, compiles: string -> bool): Result<Kind> {
    if body != "" && body[0] == '~' then
      if compiles(body[1..]) then Ok(RegexText(body[1..])) else Err(BadRegex)
    else if body == "all" || body == "*" then Ok(All)
    else if IsGlob(body) then
      match Glob.Build(body, compiles)
      case UnbalancedBrackets => Err(UnbalancedBrackets)
      case BadRegex => Err(BadRegex)
      case Regex(_) => Ok(GlobText(body))
    else Ok(Name(body))
  }

  function OpOf(token: string): P.Op {
    if token != "" && token[0] == '&' then P.Intersect
    else if token != "" && token[0] == '!' then P.Exclude
    else P.Union
  }

  function AfterOp(token: string): string {
    if OpOf(token).Union? then token else token[1..]
  }

  function ParseTerm(token: string, compiles: string -> bool): Result<Term> {
    var rest := Trim(AfterOp(token));
    if rest == "" then Err(EmptyTerm)
    else
      var (base, index) := SplitIndex(rest);
      var body := Trim(base);
      if body == "" then Err(EmptyTerm)
      else match KindOf(body, compiles)
        case Err(e) => Err(e)
        case Ok(kind) => Ok(Term(OpOf(token), kind, index))
  }

  /** The terms of the tokens in order; the first error wins. */
  function ParseTerms(tokens: seq<string>, first: bool, compiles: string -> bool): Result<seq<Term>>
    decreases |tokens|
  {
    if tokens == [] then Ok([])
    else match ParseTerm(tokens[0], compiles)
      case Err(e) => Err(e)
      case Ok(term) =>
        if first && !term.op.Union? then Err(LeadingNonUnion)
        else match ParseTerms(tokens[1..], false, compiles)
          case Err(e) => Err(e)
          case Ok(terms) => Ok([term] + terms)
  }

  function ParsePattern(s: string, compiles: string -> bool): Result<seq<Term>> {
    if Trim(s) == "" then Err(Empty)
    else match P.Tokenize(Trim(s))
      case EmptyTerm => Err(EmptyTerm)
      case UnbalancedBrackets => Err(UnbalancedBrackets)
      case Ok(tokens) => ParseTerms(tokens, true, compiles)
  }

  method ParsePatternLoop(s: string, compiles: string -> bool) returns (r: Result<seq<Term>>)
    ensures r == ParsePattern(s, compiles)
  {
    hide ParseTerm, Trim;
    var trimmed := Trim(s);
    if trimmed == "" {
      return Err(Empty);
    }
    var split := P.TokenizeLoop(trimmed);
    match split {
      case EmptyTerm => return Err(EmptyTerm);
      case UnbalancedBrackets => return Err(UnbalancedBrackets);
      case Ok(tokens) =>
        var terms: seq<Term> := [];
        assert tokens[0..] == tokens;
        BehindNothing(ParseTerms(tokens, true, compiles));
        for idx := 0 to |tokens|
          invariant Behind(terms, ParseTerms(tokens[idx..], idx == 0, compiles)) == ParseTerms(tokens, true, compiles)
        {
          Sequences.DropDrop(tokens, idx, 1);
          var parsed := ParseTerm(tokens[idx], compiles);
          if parsed.Err? {
            return Err(parsed.error);
          }
          var term := parsed.value;
          if idx == 0 && !term.op.Union? {
            return Err(LeadingNonUnion);
          }
          BehindSnoc(terms, term, ParseTerms(tokens[idx + 1..], false, compiles));
          terms := terms + [term];
        }
        Sequences.NothingAdded(terms);
        return Ok(terms);
    }
  }

  function Behind(terms: seq<Term>, rest: Result<seq<Term>>): Result<seq<Term>> {
    match rest case Ok(more) => Ok(terms + more) case Err(e) => Err(e)
  }

  lemma BehindNothing(rest: Result<seq<Term>>)
    ensures Behind([], rest) == rest
  {
    if rest.Ok? { Sequences.NothingAdded(rest.value); }
  }

  lemma BehindSnoc(terms: seq<Term>, term: Term, rest: Result<seq<Term>>)
    ensures Behind(terms, Behind([term], rest)) == Behind(terms + [term], rest)
  {
    if rest.Ok? { Sequences.Associative(terms, [term], rest.value); }
  }

  // ---------- the written form ----------

  function PrintBound(bound: Option<int>): string {
    match bound case None => "" case Some(i) => PrintInt(i)
  }

  function PrintInner(index: P.Index): string {
    match index
    case Single(i) => PrintInt(i)
    case Slice(start, end) => PrintBound(start) + ":" + PrintBound(end)
  }

  function PrintIndex(index: Option<P.Index>): string {
    match index case None => "" case Some(i) => "[" + PrintInner(i) + "]"
  }

  function PrintKind(kind: Kind): string {
    match kind
    case All => "all"
    case Name(name) => name
    case GlobText(glob) => glob
    case RegexText(regex) => "~" + regex
  }

  function PrintOp(op: P.Op): string {
    match op case Union => "" case Intersect => "&" case Exclude => "!"
  }

  function PrintTerm(term: Term): string {
    PrintOp(term.op) + (PrintKind(term.kind) + PrintIndex(term.index))
  }

  function PrintTerms(terms: seq<Term>): (tokens: seq<string>)
    ensures |tokens| == |terms|
  {
    if terms == [] then [] else [PrintTerm(terms[0])] + PrintTerms(terms[1..])
  }

  function Commas(n: nat): (s: string)
    ensures |s| == n && forall i :: 0 <= i < n ==> s[i] == ','
  {
    if n == 0 then "" else "," + Commas(n - 1)
  }

  function PrintPattern(terms: seq<Term>): string
    requires terms != []
  {
    P.Join(PrintTerms(terms), Commas(|terms| - 1))
  }

  // ---------- brackets ----------

  /** The bracket depth behind `s`, or -1 once a bracket closes too much or a separator stands outside. */
  function After(s: string, depth: int): (d: int)
    ensures d >= -1
    decreases |s|
  {
    if depth < 0 || (s != "" && P.IsSeparator(s[0]) && depth == 0) then -1
    else if s == "" then depth
    else After(s[1..], P.Depth(s[0], depth))
  }

  lemma {:induction false} ClosedIsAfter(s: string, depth: nat)
    ensures P.ClosedFrom(s, depth) <==> After(s, depth) == 0
    decreases |s|
  {
    if s != "" && P.Depth(s[0], depth) >= 0 { ClosedIsAfter(s[1..], P.Depth(s[0], depth)); }
  }

  lemma {:induction false} AfterConcat(a: string, b: string, depth: int)
    ensures After(a + b, depth) == After(b, After(a, depth))
    decreases |a|
  {
    if a == "" {
      Sequences.NothingAdded(b);
    } else {
      Sequences.OffTheFront(a, b);
      AfterConcat(a[1..], b, P.Depth(a[0], depth));
    }
  }

  /** Text without brackets keeps the depth, if no separator stands outside. */
  lemma {:induction false} AfterPlain(s: string, depth: nat)
    requires '[' !in s && ']' !in s
    requires depth > 0 || forall i :: 0 <= i < |s| ==> !P.IsSeparator(s[i])
    ensures After(s, depth) == depth
    decreases |s|
  {
    if s != "" { AfterPlain(s[1..], depth); }
  }

  lemma AfterTrim(s: string)
    ensures After(Trim(s), 0) == After(s, 0)
  {
    var left, right := TrimSplit(s);
    AfterConcat(left + Trim(s), right, 0);
    AfterConcat(left, Trim(s), 0);
    AfterPlain(left, 0);
    if After(Trim(s), 0) >= 0 { AfterPlain(right, After(Trim(s), 0)); }
  }

  predicate AllClosed(tokens: seq<string>) {
    forall i :: 0 <= i < |tokens| ==> P.IsToken(tokens[i])
  }

  /** Every token of a successful split is one that can be joined again. */
  lemma {:induction false} TokensAreTokens(input: string, cur: string, depth: nat)
    requires After(cur, 0) == depth && P.TokensFrom(input, cur, depth).Ok?
    ensures P.TokensFrom(input, cur, depth).tokens != [] && AllClosed(P.TokensFrom(input, cur, depth).tokens)
    decreases |input|
  {
    hide P.TokensFrom, Trim;
    if input == "" {
      P.TokensEnd(cur, depth);
      TrimmedToken(cur);
    } else {
      var c := input[0];
      P.TokensStep(input, cur, depth);
      if P.IsSeparator(c) && depth == 0 {
        TokensAreTokens(input[1..], "", 0);
        TrimmedToken(cur);
      } else {
        AfterConcat(cur, [c], 0);
        assert [c][1..] == "";
        TokensAreTokens(input[1..], cur + [c], P.Depth(c, depth));
      }
    }
  }

  lemma TrimmedToken(cur: string)
    requires After(cur, 0) == 0 && Trim(cur) != ""
    ensures P.IsToken(Trim(cur))
  {
    AfterTrim(cur);
    ClosedIsAfter(Trim(cur), 0);
  }

  // ---------- an index is read back ----------

  predicate Fits(bound: Option<int>) {
    bound.Some? ==> -TWO_TO_63 <= bound.value < TWO_TO_63
  }

  predicate IndexFits(index: P.Index) {
    match index
    case Single(i) => Fits(Some(i))
    case Slice(start, end) => Fits(start) && Fits(end)
  }

  /** The characters of a written index. */
  predicate IsNumeric(s: string) {
    forall i :: 0 <= i < |s| ==> IsDigit(s[i]) || s[i] == '-'
  }

  lemma NumericIsPlain(s: string)
    requires IsNumeric(s)
    ensures IsTrimmed(s) && Trim(s) == s && ':' !in s && '[' !in s && ']' !in s
  {
    hide Trim;
    if s != "" { assert !IsWhitespace(s[0]) && !IsWhitespace(s[|s| - 1]); }
    TrimOfTrimmed(s);
  }

  lemma IntIsPlain(i: int)
    ensures IsNumeric(PrintInt(i))
    ensures Trim(PrintInt(i)) == PrintInt(i) && ':' !in PrintInt(i) && '[' !in PrintInt(i) && ']' !in PrintInt(i)
  {
    hide Trim;
    if i < 0 { assert PrintInt(i)[1..] == PrintNat(-i); }
    NumericIsPlain(PrintInt(i));
  }

  lemma BoundBack(bound: Option<int>)
    requires Fits(bound)
    ensures ParseBound(PrintBound(bound)) == Some(bound) && IsNumeric(PrintBound(bound))
  {
    hide ParseI64, Trim, PrintInt;
    match bound
    case None => NumericIsPlain("");
    case Some(i) =>
      IntIsPlain(i);
      IntRoundTrip(i);
  }

  lemma SliceBack(a: string, b: string, start: Option<int>, end: Option<int>)
    requires IsNumeric(a) && IsNumeric(b) && ParseBound(a) == Some(start) && ParseBound(b) == Some(end)
    ensures ParseIndex(a + ":" + b) == Some(P.Slice(start, end))
    ensures '[' !in a + ":" + b && ']' !in a + ":" + b
  {
    hide ParseI64, ParseBound, Trim, IsNumeric;
    var t := a + ":" + b;
    NumericIsPlain(a);
    NumericIsPlain(b);
    NumericPair(a, b);
    FindAt(a, ':', b);
    assert t[|a|] == ':' && t[..|a|] == a && t[|a| + 1..] == b;
  }

  lemma NumericPair(a: string, b: string)
    requires IsNumeric(a) && IsNumeric(b)
    ensures Trim(a + ":" + b) == a + ":" + b
  {
    TrimOfTrimmed(a + ":" + b);
  }

  lemma InnerBack(index: P.Index)
    requires IndexFits(index)
    ensures ParseIndex(PrintInner(index)) == Some(index) && '[' !in PrintInner(index) && ']' !in PrintInner(index)
  {
    hide ParseI64, ParseBound, PrintInt, Trim, TryParseSlice, PrintBound, IsNumeric;
    match index
    case Single(i) =>
      IntIsPlain(i);
      IntRoundTrip(i);
    case Slice(start, end) =>
      BoundBack(start);
      BoundBack(end);
      SliceBack(PrintBound(start), PrintBound(end), start, end);
  }

  lemma PlainI64(s: string)
    requires ParseI64(s).Some?
    ensures '[' !in s && ']' !in s
  {
    assert s == [s[0]] + s[1..];
  }

  lemma PlainTrim(s: string)
    requires '[' !in Trim(s) && ']' !in Trim(s)
    ensures '[' !in s && ']' !in s
  {
    var left, right := TrimSplit(s);
  }

  lemma PlainBound(s: string)
    requires ParseBound(s).Some?
    ensures '[' !in s && ']' !in s && Fits(ParseBound(s).value)
  {
    if Trim(s) != "" { PlainI64(Trim(s)); }
    PlainTrim(s);
  }

  /** What reads as an index holds no brackets, and its numbers fit. */
  lemma PlainIndex(inner: string)
    requires ParseIndex(inner).Some?
    ensures '[' !in inner && ']' !in inner && IndexFits(ParseIndex(inner).value)
  {
    hide ParseI64, ParseBound, Trim;
    var t := Trim(inner);
    if TryParseIndex(inner).Some? {
      PlainI64(t);
      I64Fits(t);
    } else {
      var k := Find(t, ':');
      PlainBound(t[..k]);
      PlainBound(t[k + 1..]);
      assert t == t[..k] + [':'] + t[k + 1..];
    }
    PlainTrim(inner);
  }

  lemma I64Fits(s: string)
    requires ParseI64(s).Some?
    ensures Fits(Some(ParseI64(s).value))
  {
  }

  lemma SplitIndexBack(body: string, index: P.Index)
    requires IndexFits(index)
    ensures SplitIndex(body + PrintIndex(Some(index))) == (body, Some(index))
    ensures After(PrintIndex(Some(index)), 0) == 0
  {
    hide ParseIndex, PrintInner, FindLast, After;
    var text := PrintInner(index);
    InnerBack(index);
    SplitAtLast(body, text);
    Sequences.Associative(body, "[" + text, "]");
    AfterIndex(text);
  }

  lemma SplitAtLast(body: string, text: string)
    requires '[' !in text && ParseIndex(text).Some?
    ensures SplitIndex(body + ("[" + text + "]")) == (body, ParseIndex(text))
  {
    hide ParseIndex, FindLast;
    FindLastAt(body, '[', text + "]");
    var s := body + ("[" + text + "]");
    assert s == body + ['['] + (text + "]");
    assert s[|s| - 1] == ']';
    assert s[|body| + 1..|s| - 1] == text && s[..|body|] == body;
  }

  lemma AfterIndex(inner: string)
    requires '[' !in inner && ']' !in inner
    ensures forall depth: nat :: After("[" + inner + "]", depth) == depth
  {
    forall depth: nat
      ensures After("[" + inner + "]", depth) == depth
    {
      AfterConcat("[" + inner, "]", depth);
      AfterConcat("[", inner, depth);
      assert "["[1..] == "" && "]"[1..] == "";
      AfterPlain(inner, depth + 1);
    }
  }

  /** What `SplitIndex` cuts off is a bracketed index. */
  lemma SplitIndexShape(s: string)
    ensures var (base, index) := SplitIndex(s);
      base <= s && (index.None? ==> base == s)
      && (index.Some? ==> IndexFits(index.value) && After(base, 0) == After(s, 0))
  {
    hide ParseIndex;
    var (base, index) := SplitIndex(s);
    if index.Some? {
      var inner := s[|base| + 1..|s| - 1];
      PlainIndex(inner);
      assert s == base + ("[" + inner + "]");
      AfterConcat(base, "[" + inner + "]", 0);
      AfterIndex(inner);
    }
  }

  // ---------- a term is read back ----------

  lemma KindBack(body: string, compiles: string -> bool)
    requires KindOf(body, compiles).Ok?
    ensures var printed := PrintKind(KindOf(body, compiles).value);
      KindOf(printed, compiles) == KindOf(body, compiles)
      && (printed == body || (printed == "all" && SplitIndex(printed) == (printed, None)))
  {
    if body != "" && body[0] == '~' {
      assert body == "~" + body[1..];
    }
  }

  /** The parts `ParseTerm` sees in a token. */
  ghost predicate Parts(token: string, rest: string, base: string, index: Option<P.Index>, body: string) {
    rest == Trim(AfterOp(token)) && rest != "" && (base, index) == SplitIndex(rest) && body == Trim(base) && body != ""
  }

  lemma PartsOf(token: string, compiles: string -> bool)
    returns (rest: string, base: string, index: Option<P.Index>, body: string)
    requires ParseTerm(token, compiles).Ok?
    ensures Parts(token, rest, base, index, body) && KindOf(body, compiles).Ok?
    ensures ParseTerm(token, compiles) == Ok(Term(OpOf(token), KindOf(body, compiles).value, index))
  {
    hide Trim, SplitIndex, KindOf;
    rest := Trim(AfterOp(token));
    var split := SplitIndex(rest);
    base, index := split.0, split.1;
    body := Trim(base);
  }

  lemma ParseParts(token: string, rest: string, base: string, index: Option<P.Index>, body: string,
                   compiles: string -> bool)
    requires Parts(token, rest, base, index, body) && KindOf(body, compiles).Ok?
    ensures ParseTerm(token, compiles) == Ok(Term(OpOf(token), KindOf(body, compiles).value, index))
  {
    hide Trim, SplitIndex, KindOf;
  }

  lemma OpKeepsDepth(token: string)
    ensures After(AfterOp(token), 0) == After(token, 0)
  {
    if !OpOf(token).Union? {
      AfterConcat([token[0]], token[1..], 0);
      assert token == [token[0]] + token[1..] && [token[0]][1..] == "";
    }
  }

  /** The name part of a term is closed, trimmed, and no operator in disguise. */
  lemma BodyShape(token: string, rest: string, base: string, index: Option<P.Index>, body: string)
    requires P.IsToken(token) && Parts(token, rest, base, index, body)
    ensures IsTrimmed(body) && After(body, 0) == 0
    ensures OpOf(token).Union? ==> OpOf(body).Union?
    ensures index.None? ==> body == rest
    ensures index.Some? ==> IndexFits(index.value)
  {
    hide After, SplitIndex, IsTrimmed, P.ClosedFrom;
    ClosedIsAfter(token, 0);
    OpKeepsDepth(token);
    AfterTrim(AfterOp(token));
    SplitIndexShape(rest);
    AfterTrim(base);
    TrimmedIsTrimmed(base);
    TrimmedIsTrimmed(AfterOp(token));
    if index.None? { TrimOfTrimmed(rest); }
    if OpOf(token).Union? {
      TrimOfTrimmed(token);
      SameStart(base, rest);
    }
  }

  lemma TrimmedIsTrimmed(s: string)
    ensures IsTrimmed(Trim(s))
  {
  }

  /** Trimming a prefix of trimmed text leaves its first character in place. */
  lemma SameStart(base: string, rest: string)
    requires base <= rest && IsTrimmed(rest) && Trim(base) != ""
    ensures Trim(base)[0] == rest[0]
  {
    assert base != "";
    assert base[0] == rest[0];
    assert TrimStart(base) == base;
  }

  lemma AfterOpOfPrint(op: P.Op, r: string)
    requires r != "" && (op.Union? ==> OpOf(r).Union?)
    ensures OpOf(PrintOp(op) + r) == op && AfterOp(PrintOp(op) + r) == r
    ensures After(PrintOp(op) + r, 0) == After(r, 0)
  {
    var printed := PrintOp(op) + r;
    if op.Union? { Sequences.NothingAdded(r); } else { assert printed[1..] == r; }
    OpKeepsDepth(printed);
  }

  /** The written name and index: still trimmed and closed, and split at the same place. */
  lemma PrintedRest(p: string, index: Option<P.Index>)
    requires p != "" && IsTrimmed(p) && After(p, 0) == 0
    requires match index case None => SplitIndex(p) == (p, None) case Some(i) => IndexFits(i)
    ensures var r := p + PrintIndex(index);
      r != "" && r[0] == p[0] && IsTrimmed(r) && After(r, 0) == 0 && SplitIndex(r) == (p, index)
  {
    hide SplitIndex, After, PrintInner;
    var r := p + PrintIndex(index);
    match index
    case None => assert r == p;
    case Some(i) =>
      SplitIndexBack(p, i);
      AfterConcat(p, PrintIndex(index), 0);
      assert r[|r| - 1] == ']';
  }

  /** A term that can be written: its name part is a closed, trimmed text that reads as its kind, is not taken
      for an operator and ends in no index of its own, unless a written one follows. */
  predicate Writable(t: Term, compiles: string -> bool) {
    var p := PrintKind(t.kind);
    p != "" && IsTrimmed(p) && After(p, 0) == 0 && KindOf(p, compiles) == Ok(t.kind)
    && (t.op.Union? ==> OpOf(p).Union?)
    && match t.index case None => SplitIndex(p) == (p, None) case Some(i) => IndexFits(i)
  }

  /** A writable term is written as one token, and that token parses to the term itself. */
  lemma TermRoundTrip(t: Term, compiles: string -> bool)
    requires Writable(t, compiles)
    ensures P.IsToken(PrintTerm(t)) && ParseTerm(PrintTerm(t), compiles) == Ok(t)
  {
    hide After, SplitIndex, KindOf, ParseTerm, Trim, P.ClosedFrom, PrintIndex, PrintKind, Parts;
    var p := PrintKind(t.kind);
    PrintedRest(p, t.index);
    var r := p + PrintIndex(t.index);
    AfterOpOfPrint(t.op, r);
    ClosedIsAfter(PrintOp(t.op) + r, 0);
    TrimOfTrimmed(r);
    TrimOfTrimmed(p);
    PartsFrom(PrintOp(t.op) + r, r, p, t.index, p);
    ParseParts(PrintOp(t.op) + r, r, p, t.index, p, compiles);
  }

  /** The parser gives writable terms only. */
  lemma ParsedIsWritable(token: string, compiles: string -> bool)
    requires P.IsToken(token) && ParseTerm(token, compiles).Ok?
    ensures Writable(ParseTerm(token, compiles).value, compiles)
  {
    hide After, SplitIndex, KindOf, ParseTerm, Trim, P.ClosedFrom, PrintIndex, PrintKind, Parts;
    var rest, base, index, body := PartsOf(token, compiles);
    BodyShape(token, rest, base, index, body);
    KindBack(body, compiles);
    AllIsPlain();
    SplitBody(token, rest, base, index, body);
  }

  /** The writable terms are exactly those that some token parses to. */
  lemma WritableExactly(t: Term, compiles: string -> bool)
    ensures Writable(t, compiles) <==> exists token :: P.IsToken(token) && ParseTerm(token, compiles) == Ok(t)
  {
    hide Writable, ParseTerm, P.IsToken, PrintTerm;
    if Writable(t, compiles) {
      TermRoundTrip(t, compiles);
    }
    if token :| P.IsToken(token) && ParseTerm(token, compiles) == Ok(t) {
      ParsedIsWritable(token, compiles);
    }
  }

  /** So a parsed term written back is a token that parses to the same term. */
  lemma TermBack(token: string, compiles: string -> bool)
    requires P.IsToken(token)
    ensures var parsed := ParseTerm(token, compiles);
      parsed.Ok? ==> P.IsToken(PrintTerm(parsed.value)) && ParseTerm(PrintTerm(parsed.value), compiles) == parsed
  {
    hide Writable, ParseTerm, P.IsToken, PrintTerm;
    if ParseTerm(token, compiles).Ok? {
      ParsedIsWritable(token, compiles);
      TermRoundTrip(ParseTerm(token, compiles).value, compiles);
    }
  }

  lemma AllIsPlain()
    ensures IsTrimmed("all") && After("all", 0) == 0 && OpOf("all").Union?
  {
    AfterPlain("all", 0);
  }

  lemma SplitBody(token: string, rest: string, base: string, index: Option<P.Index>, body: string)
    requires Parts(token, rest, base, index, body) && (index.None? ==> body == rest)
    ensures body != "" && (index.None? ==> SplitIndex(body) == (body, None))
  {
    hide Trim;
  }

  lemma PartsFrom(token: string, rest: string, base: string, index: Option<P.Index>, body: string)
    requires rest == Trim(AfterOp(token)) && rest != ""
    requires (base, index) == SplitIndex(rest) && body == Trim(base) && body != ""
    ensures Parts(token, rest, base, index, body)
  {
    hide Trim, SplitIndex;
  }

  // ---------- a pattern is read back ----------

  predicate AllWritable(terms: seq<Term>, compiles: string -> bool) {
    forall i :: 0 <= i < |terms| ==> Writable(terms[i], compiles)
  }

  /** The patterns that can be written: they name something, and the first term is a union. */
  predicate WritablePattern(terms: seq<Term>, compiles: string -> bool) {
    terms != [] && terms[0].op.Union? && AllWritable(terms, compiles)
  }

  lemma {:induction false} TermsRoundTrip(terms: seq<Term>, first: bool, compiles: string -> bool)
    requires AllWritable(terms, compiles) && (first && terms != [] ==> terms[0].op.Union?)
    ensures AllClosed(PrintTerms(terms)) && ParseTerms(PrintTerms(terms), first, compiles) == Ok(terms)
    decreases |terms|
  {
    hide ParseTerm, PrintTerm, P.IsToken, Writable;
    if terms != [] {
      TermRoundTrip(terms[0], compiles);
      TermsRoundTrip(terms[1..], false, compiles);
      var tokens := PrintTerms(terms);
      assert tokens == [PrintTerm(terms[0])] + PrintTerms(terms[1..]);
      assert tokens[1..] == PrintTerms(terms[1..]);
      assert terms == [terms[0]] + terms[1..];
    }
  }

  lemma {:induction false} ParsedAreWritable(tokens: seq<string>, first: bool, compiles: string -> bool)
    requires AllClosed(tokens)
    ensures var parsed := ParseTerms(tokens, first, compiles);
      parsed.Ok? ==> |parsed.value| == |tokens| && AllWritable(parsed.value, compiles)
                     && (first && tokens != [] ==> parsed.value[0].op.Union?)
    decreases |tokens|
  {
    hide ParseTerm, P.IsToken, Writable;
    if tokens != [] && ParseTerms(tokens, first, compiles).Ok? {
      ParsedIsWritable(tokens[0], compiles);
      ParsedAreWritable(tokens[1..], false, compiles);
    }
  }

  lemma {:induction false} JoinEnds(tokens: seq<string>, separators: string)
    requires |tokens| == |separators| + 1 && AllClosed(tokens)
    ensures P.Join(tokens, separators) != "" && IsTrimmed(P.Join(tokens, separators))
    decreases |tokens|
  {
    if separators != "" {
      assert AllClosed(tokens[1..]);
      JoinEnds(tokens[1..], separators[1..]);
      var rest := P.Join(tokens[1..], separators[1..]);
      assert P.Join(tokens, separators)[|P.Join(tokens, separators)| - 1] == rest[|rest| - 1];
    }
  }

  /** A writable pattern, written as a comma list, parses to exactly its terms: operators, names, globs, regexes,
      indices and slices. */
  lemma PatternRoundTrip(terms: seq<Term>, compiles: string -> bool)
    requires WritablePattern(terms, compiles)
    ensures ParsePattern(PrintPattern(terms), compiles) == Ok(terms)
  {
    hide ParseTerms, Trim, P.TokensFrom, PrintTerms, P.Join, P.IsToken;
    TermsRoundTrip(terms, true, compiles);
    var printed, commas := PrintTerms(terms), Commas(|terms| - 1);
    JoinEnds(printed, commas);
    TrimOfTrimmed(P.Join(printed, commas));
    P.TokenizeJoin(printed, commas);
  }

  lemma ParsedPatternIsWritable(s: string, compiles: string -> bool)
    requires ParsePattern(s, compiles).Ok?
    ensures WritablePattern(ParsePattern(s, compiles).value, compiles)
  {
    hide ParseTerms, Trim, P.TokensFrom, P.IsToken;
    var tokens := P.Tokenize(Trim(s)).tokens;
    AfterNothing();
    TokensAreTokens(Trim(s), "", 0);
    ParsedAreWritable(tokens, true, compiles);
  }

  /** The writable patterns are exactly those that some text parses to. */
  lemma PatternExactly(terms: seq<Term>, compiles: string -> bool)
    ensures WritablePattern(terms, compiles) <==> exists s :: ParsePattern(s, compiles) == Ok(terms)
  {
    hide AllWritable, ParsePattern, PrintPattern;
    if WritablePattern(terms, compiles) {
      PatternRoundTrip(terms, compiles);
      assert ParsePattern(PrintPattern(terms), compiles) == Ok(terms);
    }
    if s :| ParsePattern(s, compiles) == Ok(terms) {
      ParsedPatternIsWritable(s, compiles);
    }
  }

  /** So every pattern that parses can be written back as a comma list that parses to the same terms. */
  lemma PatternBack(s: string, compiles: string -> bool)
    ensures var parsed := ParsePattern(s, compiles);
      parsed.Ok? ==>
        parsed.value != [] && parsed.value[0].op.Union?
        && ParsePattern(PrintPattern(parsed.value), compiles) == parsed
  {
    hide ParsePattern, AllWritable;
    if ParsePattern(s, compiles).Ok? {
      ParsedPatternIsWritable(s, compiles);
      PatternRoundTrip(ParsePattern(s, compiles).value, compiles);
    }
  }

  lemma AfterNothing()
    ensures After("", 0) == 0
  {
  }
}
