/** Host patterns: splitting a pattern into terms, expanding terms against an inventory, and resolving
    them left to right. */
module HostPattern {
  import opened Options
  import opened Text
  import Sequences

  // ---------- the tokenizer ----------

  datatype Tokens = Ok(tokens: seq<string>) | EmptyTerm | UnbalancedBrackets

  predicate IsSeparator(c: char) {
    c == ',' || c == ':'
  }

  function Depth(c: char, depth: int): int {
    if c == '[' then depth + 1 else if c == ']' then depth - 1 else depth
  }

  function Add(token: string, rest: Tokens): Tokens {
    match rest case Ok(ts) => Ok([token] + ts) case _ => rest
  }

  /** The tokens of `input`, `cur` being the unfinished one and `depth` the bracket depth. */
  function TokensFrom(input: string, cur: string, depth: nat): Tokens
    decreases |input|
  {
    if input == "" then
      if depth != 0 then UnbalancedBrackets else if Trim(cur) == "" then EmptyTerm else Ok([Trim(cur)])
    else
      var c := input[0];
      if Depth(c, depth) < 0 then UnbalancedBrackets
      else if IsSeparator(c) && depth == 0 then
        (if Trim(cur) == "" then EmptyTerm else Add(Trim(cur), TokensFrom(input[1..], "", 0)))
      else TokensFrom(input[1..], cur + [c], Depth(c, depth))
  }

  function Tokenize(input: string): Tokens {
    TokensFrom(input, "", 0)
  }

  method TokenizeLoop(input: string) returns (r: Tokens)
    ensures r == Tokenize(input)
  {
    hide TokensFrom, AddAll, Trim;
    var tokens: seq<string> := [];
    var cur := "";
    var depth: nat := 0;
    var rest := input;
    AddNothing(Tokenize(input));
    while rest != ""
      invariant AddAll(tokens, TokensFrom(rest, cur, depth)) == Tokenize(input)
      decreases |rest|
    {
      var ch := rest[0];
      TokensStep(rest, cur, depth);
      AddError(tokens, UnbalancedBrackets);
      AddError(tokens, EmptyTerm);
      if ch == '[' {
        depth := depth + 1;
        cur := cur + [ch];
      } else if ch == ']' {
        if depth - 1 < 0 {
          return UnbalancedBrackets;
        }
        depth := depth - 1;
        cur := cur + [ch];
      } else if IsSeparator(ch) && depth == 0 {
        var trimmed := Trim(cur);
        if trimmed == "" {
          return EmptyTerm;
        }
        AddSnoc(tokens, trimmed, TokensFrom(rest[1..], "", 0));
        tokens := tokens + [trimmed];
        cur := "";
      } else {
        cur := cur + [ch];
      }
      rest := rest[1..];
    }
    TokensEnd(cur, depth);
    AddError(tokens, UnbalancedBrackets);
    AddError(tokens, EmptyTerm);
    if depth != 0 {
      return UnbalancedBrackets;
    }
    var trimmed := Trim(cur);
    if trimmed == "" {
      return EmptyTerm;
    }
    AddOk(tokens, [trimmed]);
    r := Ok(tokens + [trimmed]);
  }

  lemma TokensStep(input: string, cur: string, depth: nat)
    requires input != ""
    ensures var c := input[0];
      TokensFrom(input, cur, depth)
        == if c == '[' then TokensFrom(input[1..], cur + [c], depth + 1)
           else if c == ']' then
             (if depth == 0 then UnbalancedBrackets else TokensFrom(input[1..], cur + [c], depth - 1))
           else if IsSeparator(c) && depth == 0 then
             (if Trim(cur) == "" then EmptyTerm else Add(Trim(cur), TokensFrom(input[1..], "", 0)))
           else TokensFrom(input[1..], cur + [c], depth)
  {
    hide Trim;
  }

  lemma TokensEnd(cur: string, depth: nat)
    ensures TokensFrom("", cur, depth)
         == if depth != 0 then UnbalancedBrackets else if Trim(cur) == "" then EmptyTerm else Ok([Trim(cur)])
  {
    hide Trim;
  }

  lemma AddError(tokens: seq<string>, error: Tokens)
    requires !error.Ok?
    ensures AddAll(tokens, error) == error
  {
  }

  lemma AddOk(tokens: seq<string>, more: seq<string>)
    ensures AddAll(tokens, Ok(more)) == Ok(tokens + more)
  {
  }

  function AddAll(tokens: seq<string>, rest: Tokens): Tokens {
    match rest case Ok(ts) => Ok(tokens + ts) case _ => rest
  }

  lemma AddNothing(rest: Tokens)
    ensures AddAll([], rest) == rest
  {
    if rest.Ok? { Sequences.NothingAdded(rest.tokens); }
  }

  lemma AddSnoc(tokens: seq<string>, token: string, rest: Tokens)
    ensures AddAll(tokens, Add(token, rest)) == AddAll(tokens + [token], rest)
  {
    if rest.Ok? { Sequences.Associative(tokens, [token], rest.tokens); }
  }

  /** From this depth on, brackets close, never below zero, and no separator stands outside them. */
  predicate ClosedFrom(s: string, depth: nat)
    decreases |s|
  {
    if s == "" then depth == 0
    else if s[0] == '[' then ClosedFrom(s[1..], depth + 1)
    else if s[0] == ']' then depth > 0 && ClosedFrom(s[1..], depth - 1)
    else (depth > 0 || s[0] !in {',', ':'}) && ClosedFrom(s[1..], depth)
  }

  /** What can stand between two separators: trimmed, not empty, and closed. */
  predicate IsToken(s: string) {
    s != "" && IsTrimmed(s) && ClosedFrom(s, 0)
  }

  function Join(tokens: seq<string>, separators: string): string
    requires |tokens| == |separators| + 1
  {
    if separators == "" then tokens[0]
    else tokens[0] + [separators[0]] + Join(tokens[1..], separators[1..])
  }

  /** A closed stretch of input only extends the current token. */
  lemma {:induction false} ClosedIsAbsorbed(s: string, rest: string, cur: string, depth: nat)
    requires ClosedFrom(s, depth)
    ensures TokensFrom(s + rest, cur, depth) == TokensFrom(rest, cur + s, 0)
    decreases |s|
  {
    hide Trim;
    if s == "" {
      Sequences.NothingAdded(rest);
      Sequences.NothingAdded(cur);
    } else {
      Sequences.OffTheFront(s, rest);
      ClosedIsAbsorbed(s[1..], rest, cur + [s[0]], Depth(s[0], depth));
      Sequences.Associative(cur, [s[0]], s[1..]);
      assert [s[0]] + s[1..] == s;
    }
  }

  /** Tokenizing undoes joining with any mix of separators. */
  lemma {:induction false} TokenizeJoin(tokens: seq<string>, separators: string)
    requires |tokens| == |separators| + 1
    requires forall i :: 0 <= i < |tokens| ==> IsToken(tokens[i])
    requires forall i :: 0 <= i < |separators| ==> separators[i] in {',', ':'}
    ensures Tokenize(Join(tokens, separators)) == Ok(tokens)
    decreases |tokens|
  {
    hide Trim, ClosedFrom;
    var t := tokens[0];
    TrimOfTrimmed(t);
    Sequences.NothingAdded(t);
    if separators == "" {
      ClosedIsAbsorbed(t, "", "", 0);
      assert tokens == [t];
    } else {
      var rest := Join(tokens[1..], separators[1..]);
      TokenizeJoin(tokens[1..], separators[1..]);
      ClosedIsAbsorbed(t, [separators[0]] + rest, "", 0);
      Sequences.Associative(t, [separators[0]], rest);
      SeparatorEnds(separators[0], rest, t);
      assert tokens == [t] + tokens[1..];
    }
  }

  lemma SeparatorEnds(c: char, rest: string, cur: string)
    requires IsSeparator(c) && Trim(cur) == cur != ""
    ensures TokensFrom([c] + rest, cur, 0) == Add(cur, Tokenize(rest))
  {
    assert ([c] + rest)[1..] == rest;
  }

  /** What stands between two separators when blanks are allowed around a token. */
  predicate IsPiece(s: string) {
    ClosedFrom(s, 0) && Trim(s) != ""
  }

  function Trimmed(pieces: seq<string>): (tokens: seq<string>)
    ensures |tokens| == |pieces|
  {
    seq(|pieces|, i requires 0 <= i < |pieces| => Trim(pieces[i]))
  }

  /** The pieces that are read before `rest` is. */
  lemma {:induction false} PiecesFirst(pieces: seq<string>, separators: string, rest: string)
    requires |pieces| == |separators|
    requires forall i :: 0 <= i < |pieces| ==> IsPiece(pieces[i])
    requires forall i :: 0 <= i < |separators| ==> separators[i] in {',', ':'}
    ensures Tokenize(Lead(pieces, separators) + rest) == AddAll(Trimmed(pieces), Tokenize(rest))
    decreases |pieces|
  {
    hide Trim, ClosedFrom, TokensFrom;
    if pieces == [] {
      Sequences.NothingAdded(rest);
      AddNothing(Tokenize(rest));
    } else {
      var t, c := pieces[0], separators[0];
      var more := Lead(pieces[1..], separators[1..]) + rest;
      PiecesFirst(pieces[1..], separators[1..], rest);
      assert Lead(pieces, separators) + rest == t + ([c] + more);
      ClosedIsAbsorbed(t, [c] + more, "", 0);
      Sequences.NothingAdded(t);
      SeparatorTakes(c, more, t);
      AddToAll(Trim(t), Trimmed(pieces[1..]), Tokenize(rest));
      assert Trimmed(pieces) == [Trim(t)] + Trimmed(pieces[1..]);
    }
  }

  /** Pieces, each with its separator behind it. */
  function Lead(pieces: seq<string>, separators: string): string
    requires |pieces| == |separators|
  {
    if pieces == [] then "" else pieces[0] + [separators[0]] + Lead(pieces[1..], separators[1..])
  }

  lemma SeparatorTakes(c: char, rest: string, cur: string)
    requires c in {',', ':'} && Trim(cur) != ""
    ensures TokensFrom([c] + rest, cur, 0) == Add(Trim(cur), Tokenize(rest))
  {
    hide Trim;
    assert ([c] + rest)[1..] == rest;
  }

  lemma AddToAll(token: string, tokens: seq<string>, rest: Tokens)
    ensures Add(token, AddAll(tokens, rest)) == AddAll([token] + tokens, rest)
  {
    if rest.Ok? { Sequences.Associative([token], tokens, rest.tokens); }
  }

  /** A pattern is split at every `,` and `:` outside brackets, and blanks around a piece do not count. */
  lemma SplitsExactly(pieces: seq<string>, separators: string, last: string)
    requires |pieces| == |separators| && IsPiece(last)
    requires forall i :: 0 <= i < |pieces| ==> IsPiece(pieces[i])
    requires forall i :: 0 <= i < |separators| ==> separators[i] in {',', ':'}
    ensures Tokenize(Lead(pieces, separators) + last) == Ok(Trimmed(pieces) + [Trim(last)])
  {
    hide Trim, ClosedFrom;
    PiecesFirst(pieces, separators, last);
    EndsWith(last);
  }

  lemma EndsWith(last: string)
    requires ClosedFrom(last, 0)
    ensures Tokenize(last) == if Trim(last) == "" then EmptyTerm else Ok([Trim(last)])
  {
    hide Trim, ClosedFrom;
    Sequences.NothingAdded(last);
    ClosedIsAbsorbed(last, "", "", 0);
  }

  /** The first piece that is not one decides the error: a blank one, at the end or before a separator, is an empty
      term, and brackets that close nothing or never close are unbalanced. */
  lemma SplitFails(pieces: seq<string>, separators: string, bad: string, c: char, rest: string)
    requires |pieces| == |separators|
    requires forall i :: 0 <= i < |pieces| ==> IsPiece(pieces[i])
    requires forall i :: 0 <= i < |separators| ==> separators[i] in {',', ':'}
    ensures ClosedFrom(bad, 0) && Trim(bad) == "" ==>
      Tokenize(Lead(pieces, separators) + bad) == EmptyTerm
      && (c in {',', ':'} ==> Tokenize(Lead(pieces, separators) + (bad + ([c] + rest))) == EmptyTerm)
    ensures ClosedFrom(bad, 0) ==> Tokenize(Lead(pieces, separators) + (bad + ("]" + rest))) == UnbalancedBrackets
    ensures NeverCloses(bad, 0) ==> Tokenize(Lead(pieces, separators) + bad) == UnbalancedBrackets
  {
    hide Trim, ClosedFrom, TokensFrom, NeverCloses;
    PiecesFirst(pieces, separators, bad);
    PiecesFirst(pieces, separators, bad + ([c] + rest));
    PiecesFirst(pieces, separators, bad + ("]" + rest));
    AddError(Trimmed(pieces), EmptyTerm);
    AddError(Trimmed(pieces), UnbalancedBrackets);
    if ClosedFrom(bad, 0) {
      EndsWith(bad);
      Sequences.NothingAdded(bad);
      ClosedIsAbsorbed(bad, [c] + rest, "", 0);
      ClosedIsAbsorbed(bad, "]" + rest, "", 0);
      BadNext(bad, c, rest);
    }
    if NeverCloses(bad, 0) { NeverClosed(bad, "", 0); }
  }

  lemma BadNext(cur: string, c: char, rest: string)
    ensures TokensFrom("]" + rest, cur, 0) == UnbalancedBrackets
    ensures c in {',', ':'} && Trim(cur) == "" ==> TokensFrom([c] + rest, cur, 0) == EmptyTerm
  {
    hide Trim;
  }

  /** Brackets are open at the end, and until then nothing outside them ends the piece. */
  predicate NeverCloses(s: string, depth: nat)
    decreases |s|
  {
    if s == "" then depth > 0
    else if s[0] == '[' then NeverCloses(s[1..], depth + 1)
    else if s[0] == ']' then depth > 0 && NeverCloses(s[1..], depth - 1)
    else (depth > 0 || s[0] !in {',', ':'}) && NeverCloses(s[1..], depth)
  }

  lemma {:induction false} NeverClosed(s: string, cur: string, depth: nat)
    requires NeverCloses(s, depth)
    ensures TokensFrom(s, cur, depth) == UnbalancedBrackets
    decreases |s|
  {
    hide Trim;
    if s != "" { NeverClosed(s[1..], cur + [s[0]], Depth(s[0], depth)); }
  }

  /** Up to where the first piece goes: to the end, to a separator, or to a bracket that closes nothing. */
  lemma {:induction false} FirstCut(s: string, depth: nat) returns (n: nat)
    ensures n <= |s|
    ensures NeverCloses(s, depth)
         || (ClosedFrom(s[..n], depth) && (n == |s| || s[n] in {',', ':', ']'}))
    decreases |s|
  {
    n := 0;
    if s != "" && !(depth == 0 && s[0] in {',', ':', ']'}) {
      n := FirstCut(s[1..], Depth(s[0], depth));
      assert s[..n + 1][1..] == s[1..][..n];
      n := n + 1;
    }
  }

  /** How a text can go wrong behind its first pieces, or end well. */
  datatype Ending = LastPiece | BlankEnd | BlankBefore(rest: string) | ClosesNothing(rest: string) | LeftOpen

  predicate EndsAs(tail: string, piece: string, ending: Ending) {
    match ending
    case LastPiece => tail == piece && IsPiece(piece)
    case BlankEnd => tail == piece && ClosedFrom(piece, 0) && Trim(piece) == ""
    case BlankBefore(rest) =>
      ClosedFrom(piece, 0) && Trim(piece) == "" && (tail == piece + ("," + rest) || tail == piece + (":" + rest))
    case ClosesNothing(rest) => ClosedFrom(piece, 0) && tail == piece + ("]" + rest)
    case LeftOpen => tail == piece && NeverCloses(piece, 0)
  }

  lemma NoPieces(s: string)
    ensures s == Lead([], "") + s
  {
    Sequences.NothingAdded(s);
  }

  lemma OneMorePiece(first: string, c: char, pieces: seq<string>, separators: string, tail: string)
    requires |pieces| == |separators|
    ensures Lead([first] + pieces, [c] + separators) + tail == first + ([c] + (Lead(pieces, separators) + tail))
  {
    var rest := Lead(pieces, separators);
    assert ([first] + pieces)[1..] == pieces && ([c] + separators)[1..] == separators;
    hide Lead;
    Sequences.Associative(first + [c], rest, tail);
    Sequences.Associative(first, [c], rest + tail);
  }

  /** Nothing is left out: every text is some pieces, each with its separator, and one of the five endings. */
  lemma {:induction false} SplitCovers(s: string)
    returns (pieces: seq<string>, separators: string, tail: string, piece: string, ending: Ending)
    ensures |pieces| == |separators| && s == Lead(pieces, separators) + tail && EndsAs(tail, piece, ending)
    ensures forall i :: 0 <= i < |pieces| ==> IsPiece(pieces[i])
    ensures forall i :: 0 <= i < |separators| ==> separators[i] in {',', ':'}
    decreases |s|
  {
    hide Trim, ClosedFrom, NeverCloses, Lead;
    var n := FirstCut(s, 0);
    pieces, separators, tail := [], "", s;
    NoPieces(s);
    if NeverCloses(s, 0) {
      piece, ending := s, LeftOpen;
    } else if n == |s| {
      assert s[..n] == s;
      piece, ending := s, if Trim(s) == "" then BlankEnd else LastPiece;
    } else {
      var rest := s[n + 1..];
      piece := s[..n];
      assert s == piece + ([s[n]] + rest);
      if s[n] == ']' {
        ending := ClosesNothing(rest);
      } else if Trim(piece) == "" {
        ending := BlankBefore(rest);
      } else {
        var first, c := piece, s[n];
        pieces, separators, tail, piece, ending := SplitCovers(rest);
        OneMorePiece(first, c, pieces, separators, tail);
        pieces, separators := [first] + pieces, [c] + separators;
      }
    }
  }

  // ---------- terms against an inventory ----------

  datatype Op = Union | Intersect | Exclude

  datatype Index = Single(i: int) | Slice(start: Option<int>, end: Option<int>)

  /** A compiled glob or regex is what it says about names. */
  datatype Kind = All | Name(name: string) | Pattern(matches: string -> bool)

  datatype Term = Term(op: Op, kind: Kind, index: Option<Index>)

  datatype Group = Group(name: string, members: seq<string>)

  /** Groups in inventory order, hosts in key order. */
  datatype Inventory = Inventory(groups: seq<Group>, hosts: seq<string>)

  function FindGroup(groups: seq<Group>, name: string): Option<seq<string>> {
    if groups == [] then None
    else if groups[0].name == name then Some(groups[0].members)
    else FindGroup(groups[1..], name)
  }

  /** The k-th group is the first of its name. */
  predicate IsGroup(groups: seq<Group>, name: string, k: int) {
    0 <= k < |groups| && groups[k].name == name && forall j :: 0 <= j < k ==> groups[j].name != name
  }

  /** The lookup finds the group of that name, the first if there are several, and nothing else. */
  lemma {:induction false} FindGroupExactly(groups: seq<Group>, name: string)
    ensures FindGroup(groups, name) == None <==> forall k :: 0 <= k < |groups| ==> groups[k].name != name
    ensures forall k :: IsGroup(groups, name, k) ==> FindGroup(groups, name) == Some(groups[k].members)
    ensures FindGroup(groups, name).Some? ==> exists k :: IsGroup(groups, name, k)
    decreases |groups|
  {
    if groups != [] {
      var rest := groups[1..];
      FindGroupExactly(rest, name);
      assert forall j :: 0 <= j < |rest| ==> rest[j] == groups[j + 1];
      if groups[0].name == name {
        assert IsGroup(groups, name, 0);
      } else {
        forall k | IsGroup(groups, name, k)
          ensures IsGroup(rest, name, k - 1)
        {
          assert forall j :: 0 <= j < k - 1 ==> rest[j] == groups[j + 1];
        }
        if FindGroup(rest, name).Some? {
          var k :| IsGroup(rest, name, k);
          assert forall j :: 0 < j < k + 1 ==> groups[j] == rest[j - 1];
          assert IsGroup(groups, name, k + 1);
        }
      }
    }
  }

  /** The elements of `more` appended to `have`, each only if it is not there yet. */
  function AppendNew(have: seq<string>, more: seq<string>): seq<string>
    decreases |more|
  {
    if more == [] then have
    else AppendNew(if more[0] in have then have else have + [more[0]], more[1..])
  }

  function GroupMatches(groups: seq<Group>, matches: string -> bool, have: seq<string>): seq<string>
    decreases |groups|
  {
    if groups == [] then have
    else GroupMatches(groups[1..], matches, if matches(groups[0].name) then AppendNew(have, groups[0].members) else have)
  }

  function HostMatches(hosts: seq<string>, matches: string -> bool): seq<string> {
    if hosts == [] then []
    else (if matches(hosts[0]) then [hosts[0]] else []) + HostMatches(hosts[1..], matches)
  }

  function Expand(kind: Kind, inv: Inventory): seq<string> {
    match kind
    case All => if FindGroup(inv.groups, "all").Some? then FindGroup(inv.groups, "all").value else inv.hosts
    case Name(name) =>
      if FindGroup(inv.groups, name).Some? then AppendNew([], FindGroup(inv.groups, name).value)
      else if name in inv.hosts then [name]
      else []
    case Pattern(matches) => AppendNew(GroupMatches(inv.groups, matches, []), HostMatches(inv.hosts, matches))
  }

  /** An offset from the end for a negative bound, then clamped to the list. */
  function ClampIndex(i: int, len: nat): (k: nat)
    ensures k <= len
  {
    var v := if i < 0 then len + i else i;
    if v < 0 then 0 else if v > len then len else v
  }

  function ApplyIndex(list: seq<string>, index: Index): seq<string> {
    if list == [] then []
    else match index
      case Single(i) =>
        var k := if i < 0 then |list| + i else i;
        if k < 0 || k >= |list| then [] else [list[k]]
      case Slice(start, end) =>
        var s := ClampIndex(if start.Some? then start.value else 0, |list|);
        var e := ClampIndex(if end.Some? then end.value else |list|, |list|);
        if s >= e then [] else list[s..e]
  }

  /** Position k counted from the front is position k - len counted from the end. */
  lemma IndexFromEnd(list: seq<string>, k: nat)
    requires k < |list|
    ensures ApplyIndex(list, Single(k)) == ApplyIndex(list, Single(k - |list|)) == [list[k]]
    ensures ApplyIndex(list, Slice(Some(k), Some(k + 1))) == [list[k]]
    ensures ApplyIndex(list, Slice(Some(k - |list|), None)) == list[k..]
  {
  }

  /** Splitting a list at any bound, negative or out of range, loses and repeats nothing. */
  lemma SlicesPartition(list: seq<string>, bound: int)
    ensures ApplyIndex(list, Slice(None, Some(bound))) + ApplyIndex(list, Slice(Some(bound), None)) == list
  {
    var k := ClampIndex(bound, |list|);
    if list != [] {
      assert list[0..k] + list[k..|list|] == list;
      assert k == 0 ==> list[k..|list|] == list;
      assert k == |list| ==> list[0..k] == list;
    }
  }

  /** Where a bound points to: the position itself, or that far from the end, and inside the list in any case. */
  predicate Points(bound: int, len: int, k: int) {
    if bound >= len then k == len
    else if bound >= 0 then k == bound
    else if bound >= -len then k == len + bound
    else k == 0
  }

  lemma OnePosition(bound: int, len: nat) returns (k: nat)
    ensures k <= len && Points(bound, len, k) && forall j :: Points(bound, len, j) ==> j == k
  {
    k := ClampIndex(bound, len);
  }

  /** A slice is the stretch between the positions its bounds point to, a missing bound being the list's own end;
      a single index is the element it points to, and nothing outside the list. */
  lemma IndexExactly(list: seq<string>, i: int, start: Option<int>, end: Option<int>, a: int, b: int)
    requires if start.Some? then Points(start.value, |list|, a) else a == 0
    requires if end.Some? then Points(end.value, |list|, b) else b == |list|
    ensures ApplyIndex(list, Slice(start, end)) == if a < b then list[a..b] else []
    ensures -|list| <= i < |list| ==> ApplyIndex(list, Single(i)) == [list[if i < 0 then |list| + i else i]]
    ensures !(-|list| <= i < |list|) ==> ApplyIndex(list, Single(i)) == []
  {
  }

  function Matched(term: Term, inv: Inventory): seq<string> {
    var hosts := Expand(term.kind, inv);
    if term.index.Some? then ApplyIndex(hosts, term.index.value) else hosts
  }

  // ---------- resolving ----------

  function Retain(list: seq<string>, keep: string -> bool): seq<string> {
    if list == [] then []
    else (if keep(list[0]) then [list[0]] else []) + Retain(list[1..], keep)
  }

  function ApplyTerm(working: seq<string>, op: Op, matched: seq<string>): seq<string> {
    match op
    case Union => AppendNew(working, matched)
    case Intersect => Retain(working, h => h in matched)
    case Exclude => Retain(working, h => h !in matched)
  }

  function ResolveFrom(working: seq<string>, terms: seq<Term>, inv: Inventory): seq<string>
    decreases |terms|
  {
    if terms == [] then working
    else ResolveFrom(ApplyTerm(working, terms[0].op, Matched(terms[0], inv)), terms[1..], inv)
  }

  function Resolve(terms: seq<Term>, inv: Inventory): seq<string> {
    ResolveFrom([], terms, inv)
  }

  predicate NoDuplicates(list: seq<string>) {
    forall i, j :: 0 <= i < j < |list| ==> list[i] != list[j]
  }

  lemma {:induction false} AppendNewMembers(have: seq<string>, more: seq<string>)
    ensures have <= AppendNew(have, more)
    ensures forall h :: h in AppendNew(have, more) <==> h in have || h in more
    ensures NoDuplicates(have) ==> NoDuplicates(AppendNew(have, more))
    decreases |more|
  {
    if more != [] {
      var next := if more[0] in have then have else have + [more[0]];
      AppendNewMembers(next, more[1..]);
      assert have <= next;
      assert more == [more[0]] + more[1..];
    }
  }

  lemma {:induction false} RetainMembers(list: seq<string>, keep: string -> bool)
    ensures forall h :: h in Retain(list, keep) <==> h in list && keep(h)
    ensures NoDuplicates(list) ==> NoDuplicates(Retain(list, keep))
  {
    if list != [] {
      RetainMembers(list[1..], keep);
      var rest := Retain(list[1..], keep);
      assert list == [list[0]] + list[1..];
      if NoDuplicates(list) {
        assert forall i, j :: 0 <= i < j < |list[1..]| ==> list[1..][i] == list[i + 1] && list[1..][j] == list[j + 1];
        assert NoDuplicates(list[1..]);
        assert list[0] !in list[1..];
        assert list[0] !in rest;
      }
    }
  }

  lemma ApplyTermMembers(working: seq<string>, op: Op, matched: seq<string>)
    requires NoDuplicates(working)
    ensures NoDuplicates(ApplyTerm(working, op, matched))
    ensures forall h :: h in ApplyTerm(working, op, matched) <==>
      (match op
       case Union => h in working || h in matched
       case Intersect => h in working && h in matched
       case Exclude => h in working && h !in matched)
  {
    match op
    case Union => AppendNewMembers(working, matched);
    case Intersect => RetainMembers(working, h => h in matched);
    case Exclude => RetainMembers(working, h => h !in matched);
  }

  /** h stands in the list at a position that the index selects, counted from the front or from the end. */
  predicate Selected(list: seq<string>, index: Index, h: string) {
    exists k :: 0 <= k < |list| && list[k] == h && Selects(index, |list|, k)
  }

  predicate Selects(index: Index, len: nat, k: nat) {
    match index
    case Single(i) => k == (if i < 0 then len + i else i)
    case Slice(start, end) =>
      (start.Some? ==> (if start.value < 0 then len + start.value else start.value) <= k)
      && (end.Some? ==> k < if end.value < 0 then len + end.value else end.value)
  }

  /** The hosts of a term: those its kind names, or of these the ones its index selects. */
  ghost predicate TermNames(term: Term, inv: Inventory, h: string) {
    if term.index.Some? then Selected(Expand(term.kind, inv), term.index.value, h) else Names(term.kind, inv, h)
  }

  lemma IndexSelects(list: seq<string>, index: Index, h: string)
    ensures h in ApplyIndex(list, index) <==> Selected(list, index, h)
  {
    var chosen, from := ApplyIndex(list, index), First(index, |list|);
    IndexStretch(list, index);
    hide ApplyIndex, Selects, First;
    if h in chosen {
      var n :| 0 <= n < |chosen| && chosen[n] == h;
      assert list[from + n] == h && Selects(index, |list|, from + n);
    }
    if Selected(list, index, h) {
      var k :| 0 <= k < |list| && list[k] == h && Selects(index, |list|, k);
      assert chosen[k - from] == h;
    }
  }

  /** Where the selected stretch begins. */
  function First(index: Index, len: nat): int {
    match index
    case Single(i) => if i < 0 then len + i else i
    case Slice(start, _) => ClampIndex(if start.Some? then start.value else 0, len)
  }

  /** What an index yields is one stretch of the list, the positions it selects. */
  lemma IndexStretch(list: seq<string>, index: Index)
    ensures var chosen, from := ApplyIndex(list, index), First(index, |list|);
      (forall n :: 0 <= n < |chosen| ==>
        0 <= from + n < |list| && chosen[n] == list[from + n] && Selects(index, |list|, from + n))
      && (forall k :: 0 <= k < |list| && Selects(index, |list|, k) ==> 0 <= k - from < |chosen|)
  {
    if index.Slice? {
      var s := ClampIndex(if index.start.Some? then index.start.value else 0, |list|);
      var e := ClampIndex(if index.end.Some? then index.end.value else |list|, |list|);
      forall k | 0 <= k < |list|
        ensures Selects(index, |list|, k) <==> s <= k < e
      {
        SliceSelects(index.start, index.end, |list|, k);
      }
      hide Selects, ClampIndex;
      assert ApplyIndex(list, index) == if s >= e then [] else list[s..e];
    }
  }

  lemma SliceSelects(start: Option<int>, end: Option<int>, len: nat, k: nat)
    requires k < len
    ensures Selects(Slice(start, end), len, k) <==>
      ClampIndex(if start.Some? then start.value else 0, len) <= k < ClampIndex(if end.Some? then end.value else len, len)
  {
  }

  lemma MatchedExactly(term: Term, inv: Inventory, h: string)
    ensures h in Matched(term, inv) <==> TermNames(term, inv, h)
  {
    hide Expand, Names, ApplyIndex, Selected;
    ExpandExactly(term.kind, inv);
    if term.index.Some? { IndexSelects(Expand(term.kind, inv), term.index.value, h); }
  }

  /** h survives every term from position k on. */
  ghost predicate Survives(h: string, terms: seq<Term>, inv: Inventory, k: nat) {
    forall j :: k <= j < |terms| ==>
      (terms[j].op.Intersect? ==> TermNames(terms[j], inv, h))
      && (terms[j].op.Exclude? ==> !TermNames(terms[j], inv, h))
  }

  /** Some union brings h in, and nothing after it takes h out. */
  ghost predicate Chosen(h: string, terms: seq<Term>, inv: Inventory) {
    exists k :: 0 <= k < |terms| && terms[k].op.Union? && TermNames(terms[k], inv, h) && Survives(h, terms, inv, k + 1)
  }

  lemma {:induction false} ResolveFromMembers(working: seq<string>, terms: seq<Term>, inv: Inventory, h: string)
    requires NoDuplicates(working)
    ensures NoDuplicates(ResolveFrom(working, terms, inv))
    ensures h in ResolveFrom(working, terms, inv) <==>
      Chosen(h, terms, inv) || (h in working && Survives(h, terms, inv, 0))
    decreases |terms|
  {
    if terms != [] {
      hide ApplyTerm, Matched, TermNames;
      MatchedExactly(terms[0], inv, h);
      var matched := Matched(terms[0], inv);
      var next := ApplyTerm(working, terms[0].op, matched);
      ApplyTermMembers(working, terms[0].op, matched);
      ResolveFromMembers(next, terms[1..], inv, h);
      FirstTerm(terms, inv, h);
    }
  }

  /** The closed form of a list of terms, from that of all but the first. */
  lemma FirstTerm(terms: seq<Term>, inv: Inventory, h: string)
    requires terms != []
    ensures Survives(h, terms, inv, 0) <==>
      Survives(h, terms[1..], inv, 0)
      && (terms[0].op.Intersect? ==> TermNames(terms[0], inv, h))
      && (terms[0].op.Exclude? ==> !TermNames(terms[0], inv, h))
    ensures Chosen(h, terms, inv) <==>
      Chosen(h, terms[1..], inv)
      || (terms[0].op.Union? && TermNames(terms[0], inv, h) && Survives(h, terms[1..], inv, 0))
  {
    hide TermNames;
    var rest := terms[1..];
    forall k: nat | k <= |rest|
      ensures Survives(h, rest, inv, k) <==> Survives(h, terms, inv, k + 1)
    {
      SurvivesShift(terms, inv, h, k);
    }
    if Chosen(h, rest, inv) {
      var k :| 0 <= k < |rest| && rest[k].op.Union? && TermNames(rest[k], inv, h) && Survives(h, rest, inv, k + 1);
      assert terms[k + 1].op.Union? && TermNames(terms[k + 1], inv, h);
    }
    if Chosen(h, terms, inv) {
      var k :| 0 <= k < |terms| && terms[k].op.Union? && TermNames(terms[k], inv, h) && Survives(h, terms, inv, k + 1);
      if k > 0 { assert rest[k - 1].op.Union? && TermNames(rest[k - 1], inv, h); }
    }
  }

  lemma SurvivesShift(terms: seq<Term>, inv: Inventory, h: string, k: nat)
    requires terms != [] && k <= |terms[1..]|
    ensures Survives(h, terms[1..], inv, k) <==> Survives(h, terms, inv, k + 1)
  {
    hide TermNames;
    if Survives(h, terms[1..], inv, k) {
      forall j | k + 1 <= j < |terms|
        ensures (terms[j].op.Intersect? ==> TermNames(terms[j], inv, h))
          && (terms[j].op.Exclude? ==> !TermNames(terms[j], inv, h))
      {
        assert terms[1..][j - 1] == terms[j];
      }
    }
  }

  /** The resolved list has no duplicates, and its members are exactly the hosts that some union brings in
      and no later term takes out. */
  lemma ResolveExactly(terms: seq<Term>, inv: Inventory)
    ensures NoDuplicates(Resolve(terms, inv))
    ensures forall h :: h in Resolve(terms, inv) <==> Chosen(h, terms, inv)
  {
    hide TermNames;
    forall h
      ensures NoDuplicates(Resolve(terms, inv)) && (h in Resolve(terms, inv) <==> Chosen(h, terms, inv))
    {
      ResolveFromMembers([], terms, inv, h);
    }
    ResolveFromMembers([], terms, inv, "");
  }

  lemma {:induction false} LastTermFrom(working: seq<string>, terms: seq<Term>, t: Term, inv: Inventory)
    ensures ResolveFrom(working, terms + [t], inv) == ApplyTerm(ResolveFrom(working, terms, inv), t.op, Matched(t, inv))
    decreases |terms|
  {
    hide ApplyTerm, Matched;
    if terms == [] {
      assert [t][1..] == [];
      assert terms + [t] == [t];
    } else {
      Sequences.OffTheFront(terms, [t]);
      LastTermFrom(ApplyTerm(working, terms[0].op, Matched(terms[0], inv)), terms[1..], t, inv);
    }
  }

  /** What the last term does to the list before it: a union appends, in their own order, the hosts of its kind or
      those of them that its index selects; the others filter by these hosts. */
  lemma LastTerm(terms: seq<Term>, t: Term, inv: Inventory)
    ensures var working, hosts := Resolve(terms, inv), Expand(t.kind, inv);
      var matched := if t.index.Some? then ApplyIndex(hosts, t.index.value) else hosts;
      Resolve(terms + [t], inv)
        == match t.op
           case Union => AppendNew(working, matched)
           case Intersect => Retain(working, h => h in matched)
           case Exclude => Retain(working, h => h !in matched)
  {
    LastTermFrom([], terms, t, inv);
  }

  /** The order is the order of first appearance: later terms never reorder what is there. */
  predicate Subsequence(a: seq<string>, b: seq<string>)
    decreases |b|
  {
    if a == [] then true
    else if b == [] then false
    else if a[0] == b[0] then Subsequence(a[1..], b[1..])
    else Subsequence(a, b[1..])
  }

  lemma {:induction false} RetainIsSubsequence(list: seq<string>, keep: string -> bool)
    ensures Subsequence(Retain(list, keep), list)
  {
    if list != [] {
      RetainIsSubsequence(list[1..], keep);
      if keep(list[0]) {
        assert Retain(list, keep)[1..] == Retain(list[1..], keep);
      } else {
        assert Retain(list, keep) == Retain(list[1..], keep);
        SkipFirst(Retain(list[1..], keep), list);
      }
    }
  }

  lemma {:induction false} SkipFirst(a: seq<string>, b: seq<string>)
    requires b != [] && Subsequence(a, b[1..])
    ensures Subsequence(a, b)
    decreases |b|, 0
  {
    if a != [] && a[0] == b[0] { DropFirst(a, b[1..]); }
  }

  lemma {:induction false} DropFirst(a: seq<string>, b: seq<string>)
    requires a != [] && Subsequence(a, b)
    ensures Subsequence(a[1..], b)
    decreases |b|, 1
  {
    if a[0] == b[0] {
      if a[1..] != [] { SkipFirst(a[1..], b); }
    } else {
      DropFirst(a, b[1..]);
      SkipFirst(a[1..], b);
    }
  }

  /** Each term keeps the order: a union only appends, the others only remove. */
  lemma OrderKept(working: seq<string>, op: Op, matched: seq<string>)
    ensures op.Union? ==> working <= ApplyTerm(working, op, matched)
    ensures !op.Union? ==> Subsequence(ApplyTerm(working, op, matched), working)
  {
    match op
    case Union => AppendNewMembers(working, matched);
    case Intersect => RetainIsSubsequence(working, h => h in matched);
    case Exclude => RetainIsSubsequence(working, h => h !in matched);
  }

  /** What is appended comes in the order of its first appearance. */
  lemma {:induction false} FirstAppearance(have: seq<string>, more: seq<string>) returns (tail: seq<string>)
    ensures AppendNew(have, more) == have + tail && Subsequence(tail, more)
    decreases |more|
  {
    if more == [] {
      tail := [];
    } else if more[0] in have {
      tail := FirstAppearance(have, more[1..]);
      SkipFirst(tail, more);
    } else {
      tail := FirstAppearance(have + [more[0]], more[1..]);
      Sequences.Associative(have, [more[0]], tail);
      tail := [more[0]] + tail;
    }
  }

  // ---------- what a term names ----------

  predicate HasGroup(groups: seq<Group>, name: string) {
    exists k :: 0 <= k < |groups| && groups[k].name == name
  }

  /** h is a member of the group of that name. */
  ghost predicate MemberOf(groups: seq<Group>, name: string, h: string) {
    exists k :: IsGroup(groups, name, k) && h in groups[k].members
  }

  /** The hosts a term stands for, by membership alone. */
  ghost predicate Names(kind: Kind, inv: Inventory, h: string) {
    match kind
    case All => if HasGroup(inv.groups, "all") then MemberOf(inv.groups, "all", h) else h in inv.hosts
    case Name(name) =>
      if HasGroup(inv.groups, name) then MemberOf(inv.groups, name, h) else h == name && name in inv.hosts
    case Pattern(matches) =>
      (exists g :: g in inv.groups && matches(g.name) && h in g.members) || (h in inv.hosts && matches(h))
  }

  lemma GroupMembers(groups: seq<Group>, name: string, h: string)
    ensures HasGroup(groups, name) <==> FindGroup(groups, name).Some?
    ensures FindGroup(groups, name).Some? ==> (h in FindGroup(groups, name).value <==> MemberOf(groups, name, h))
  {
    FindGroupExactly(groups, name);
    if FindGroup(groups, name).Some? {
      var k :| IsGroup(groups, name, k);
      assert forall i :: IsGroup(groups, name, i) ==> i == k;
    }
  }

  lemma {:induction false} GroupMatchMembers(groups: seq<Group>, matches: string -> bool, have: seq<string>, h: string)
    ensures h in GroupMatches(groups, matches, have)
      <==> h in have || exists g :: g in groups && matches(g.name) && h in g.members
    ensures NoDuplicates(have) ==> NoDuplicates(GroupMatches(groups, matches, have))
    decreases |groups|
  {
    hide AppendNew, NoDuplicates;
    if groups != [] {
      var first := groups[0];
      var next := if matches(first.name) then AppendNew(have, first.members) else have;
      AppendNewMembers(have, first.members);
      GroupMatchMembers(groups[1..], matches, next, h);
      assert groups == [first] + groups[1..];
    }
  }

  lemma {:induction false} HostMatchMembers(hosts: seq<string>, matches: string -> bool, h: string)
    ensures h in HostMatches(hosts, matches) <==> h in hosts && matches(h)
  {
    if hosts != [] {
      HostMatchMembers(hosts[1..], matches, h);
      assert hosts == [hosts[0]] + hosts[1..];
    }
  }

  /** A term expands to the hosts it names; a name or pattern lists each of them once. */
  lemma ExpandExactly(kind: Kind, inv: Inventory)
    ensures forall h :: h in Expand(kind, inv) <==> Names(kind, inv, h)
    ensures !kind.All? ==> NoDuplicates(Expand(kind, inv))
  {
    hide AppendNew, GroupMatches, HostMatches, HasGroup, MemberOf, FindGroup;
    match kind
    case All =>
      forall h ensures h in Expand(kind, inv) <==> Names(kind, inv, h) { GroupMembers(inv.groups, "all", h); }
    case Name(name) =>
      if FindGroup(inv.groups, name).Some? { AppendNewMembers([], FindGroup(inv.groups, name).value); }
      forall h ensures h in Expand(kind, inv) <==> Names(kind, inv, h) { GroupMembers(inv.groups, name, h); }
    case Pattern(matches) =>
      var groups, hosts := GroupMatches(inv.groups, matches, []), HostMatches(inv.hosts, matches);
      AppendNewMembers(groups, hosts);
      forall h
        ensures h in Expand(kind, inv) <==> Names(kind, inv, h)
      {
        GroupMatchMembers(inv.groups, matches, [], h);
        HostMatchMembers(inv.hosts, matches, h);
      }
      GroupMatchMembers(inv.groups, matches, [], "");
  }

  /** The members of the matching groups, group by group. */
  function MatchingMembers(groups: seq<Group>, matches: string -> bool): seq<string> {
    if groups == [] then []
    else (if matches(groups[0].name) then groups[0].members else []) + MatchingMembers(groups[1..], matches)
  }

  lemma {:induction false} AppendTwice(have: seq<string>, a: seq<string>, b: seq<string>)
    ensures AppendNew(AppendNew(have, a), b) == AppendNew(have, a + b)
    decreases |a|
  {
    if a == [] {
      Sequences.NothingAdded(b);
    } else {
      Sequences.OffTheFront(a, b);
      AppendTwice(if a[0] in have then have else have + [a[0]], a[1..], b);
    }
  }

  lemma {:induction false} GroupMatchesAre(groups: seq<Group>, matches: string -> bool, have: seq<string>)
    ensures GroupMatches(groups, matches, have) == AppendNew(have, MatchingMembers(groups, matches))
    decreases |groups|
  {
    hide AppendNew;
    if groups == [] {
      AppendNothing(have);
    } else {
      var members := if matches(groups[0].name) then groups[0].members else [];
      AppendNothing(have);
      AppendTwice(have, members, MatchingMembers(groups[1..], matches));
      GroupMatchesAre(groups[1..], matches, AppendNew(have, members));
    }
  }

  lemma AppendNothing(have: seq<string>)
    ensures AppendNew(have, []) == have
  {
  }

  /** Members of a group come in the group's own order, and all hosts in that of the inventory. */
  lemma GroupOrder(inv: Inventory, name: string, k: int)
    ensures IsGroup(inv.groups, "all", k) ==> Expand(All, inv) == inv.groups[k].members
    ensures !HasGroup(inv.groups, "all") ==> Expand(All, inv) == inv.hosts
    ensures IsGroup(inv.groups, name, k) ==> Expand(Name(name), inv) == AppendNew([], inv.groups[k].members)
  {
    FindGroupExactly(inv.groups, "all");
    FindGroupExactly(inv.groups, name);
    GroupMembers(inv.groups, "all", "");
  }

  /** The order of a pattern's hosts: those of the matching groups in inventory order come first, then the hosts
      that match by name, each where it appears first. */
  lemma PatternOrder(matches: string -> bool, inv: Inventory)
    ensures Expand(Pattern(matches), inv)
         == AppendNew([], MatchingMembers(inv.groups, matches) + HostMatches(inv.hosts, matches))
  {
    GroupMatchesAre(inv.groups, matches, []);
    AppendTwice([], MatchingMembers(inv.groups, matches), HostMatches(inv.hosts, matches));
  }

  /** The k-th element is listed behind those that appear first before it. */
  lemma {:induction false} FirstPosition(list: seq<string>, a: string, b: string)
    requires exists i, j :: FirstAt(list, a, i) && FirstAt(list, b, j) && i < j
    ensures exists i, j :: 0 <= i < j < |AppendNew([], list)| && AppendNew([], list)[i] == a && AppendNew([], list)[j] == b
  {
    var i, j :| FirstAt(list, a, i) && FirstAt(list, b, j) && i < j;
    var early, late := list[..j], list[j..];
    Sequences.Rejoin(list, j);
    AppendTwice([], early, late);
    AppendNewMembers([], early);
    AppendNewMembers(AppendNew([], early), late);
    assert early[i] == a && b !in early by { assert forall k :: 0 <= k < j ==> early[k] == list[k]; }
    assert late[0] == b;
    var x := AppendNew([], early);
    var y := AppendNew([], list);
    assert a in x && b !in x && b in y;
    var m :| 0 <= m < |x| && x[m] == a;
    var n :| 0 <= n < |y| && y[n] == b;
    assert y[m] == a && n >= |x|;
  }

  predicate FirstAt(list: seq<string>, h: string, k: int) {
    0 <= k < |list| && list[k] == h && forall i :: 0 <= i < k ==> list[i] != h
  }

  // ---------- the loops ----------

  /** `expand_via_regex`: one list and one set over groups, their members, and then hosts. */
  method ExpandViaRegex(matches: string -> bool, inv: Inventory) returns (out: seq<string>)
    ensures out == Expand(Pattern(matches), inv)
  {
    out := [];
    var seen: set<string> := {};
    assert inv.groups[0..] == inv.groups && inv.hosts[0..] == inv.hosts;
    for i := 0 to |inv.groups|
      invariant seen == Elements(out)
      invariant GroupMatches(inv.groups[i..], matches, out) == GroupMatches(inv.groups, matches, [])
    {
      hide AppendNew;
      Sequences.DropDrop(inv.groups, i, 1);
      if matches(inv.groups[i].name) {
        out, seen := AppendMissing(out, seen, inv.groups[i].members);
      }
    }
    for i := 0 to |inv.hosts|
      invariant seen == Elements(out)
      invariant AppendNew(out, HostMatches(inv.hosts[i..], matches)) == Expand(Pattern(matches), inv)
    {
      Sequences.DropDrop(inv.hosts, i, 1);
      var h := inv.hosts[i];
      Sequences.NothingAdded(HostMatches(inv.hosts[i + 1..], matches));
      AppendOne(out, h, HostMatches(inv.hosts[i + 1..], matches));
      if matches(h) && h !in seen {
        seen := seen + {h};
        out := out + [h];
      }
    }
  }

  lemma AppendOne(have: seq<string>, h: string, more: seq<string>)
    ensures AppendNew(have, [h] + more) == AppendNew(if h in have then have else have + [h], more)
  {
    assert ([h] + more)[1..] == more;
  }

  /** `expand_term_kind`, with its own duplicate filter for a group named directly. */
  method ExpandTermKind(kind: Kind, inv: Inventory) returns (out: seq<string>)
    ensures out == Expand(kind, inv)
    ensures forall h :: h in out <==> Names(kind, inv, h)
  {
    ExpandExactly(kind, inv);
    match kind {
      case All =>
        var all := FindGroup(inv.groups, "all");
        out := if all.Some? then all.value else inv.hosts;
      case Name(name) =>
        var group := FindGroup(inv.groups, name);
        if group.Some? {
          var seen: set<string>;
          out, seen := AppendMissing([], {}, group.value);
        } else if name in inv.hosts {
          out := [name];
        } else {
          out := [];
        }
      case Pattern(matches) =>
        out := ExpandViaRegex(matches, inv);
    }
  }

  method ResolveLoop(terms: seq<Term>, inv: Inventory) returns (working: seq<string>)
    ensures working == Resolve(terms, inv)
  {
    working := [];
    var workingSet: set<string> := {};
    assert terms[0..] == terms;
    for i := 0 to |terms|
      invariant workingSet == Elements(working)
      invariant ResolveFrom(working, terms[i..], inv) == Resolve(terms, inv)
    {
      hide Expand, ApplyIndex, AppendNew, Retain;
      Sequences.DropDrop(terms, i, 1);
      var matched := ExpandTermKind(terms[i].kind, inv);
      if terms[i].index.Some? {
        matched := ApplyIndex(matched, terms[i].index.value);
      }
      match terms[i].op {
        case Union =>
          working, workingSet := AppendMissing(working, workingSet, matched);
        case Intersect =>
          working, workingSet := KeepOnly(working, matched, true);
        case Exclude =>
          working, workingSet := KeepOnly(working, matched, false);
      }
    }
  }

  function Elements(list: seq<string>): set<string> {
    set h | h in list
  }

  method AppendMissing(have: seq<string>, haveSet: set<string>, matched: seq<string>)
    returns (r: seq<string>, s: set<string>)
    requires haveSet == Elements(have)
    ensures r == AppendNew(have, matched) && s == Elements(r)
  {
    r, s := have, haveSet;
    assert matched[0..] == matched;
    for i := 0 to |matched|
      invariant s == Elements(r) && AppendNew(r, matched[i..]) == AppendNew(have, matched)
    {
      Sequences.DropDrop(matched, i, 1);
      var h := matched[i];
      if h !in s {
        s := s + {h};
        r := r + [h];
      }
    }
  }

  method KeepOnly(working: seq<string>, matched: seq<string>, present: bool) returns (r: seq<string>, s: set<string>)
    ensures r == ApplyTerm(working, if present then Intersect else Exclude, matched) && s == Elements(r)
  {
    var m := Elements(matched);
    var goal := ApplyTerm(working, if present then Intersect else Exclude, matched);
    r := [];
    assert working[0..] == working;
    Sequences.NothingAdded(goal);
    for i := 0 to |working|
      invariant r + ApplyTerm(working[i..], if present then Intersect else Exclude, matched) == goal
    {
      Sequences.DropDrop(working, i, 1);
      var h := working[i];
      var more := ApplyTerm(working[i + 1..], if present then Intersect else Exclude, matched);
      Sequences.Associative(r, [h], more);
      if (h in m) == present {
        r := r + [h];
      }
      Sequences.NothingAdded(more);
    }
    s := Elements(r);
  }
}
