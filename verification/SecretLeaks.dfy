/** The secrets redaction cannot promise to remove: exactly those that can overlap a placeholder.

    A secret inside the placeholder leaks alone, and so does one that runs into a placeholder, where its own
    beginning is repeated before it.  In general a second secret helps: its replacement puts a placeholder
    where the first one, already looked for, then overlaps it.  It is a run of one character that the first
    one does not have at the seam, and comes later in the order of replacement. */
module SecretLeaks {
  import opened Text
  import opened Secrets
  import Sequences

  ghost predicate Registry(values: set<string>) {
    forall s :: s in values ==> IsLearnable(s)
  }

  // ---------- a registry of two ----------

  lemma OrderedPair(s: string, u: string)
    requires Before(s, u)
    ensures s != u && Ordered({s, u}) == [s, u]
  {
    hide Before;
    BeforeIsStrict(s, u);
    FirstUnique(First({s, u}), s, {s, u});
    FirstUnique(First({u}), u, {u});
    assert {s, u} - {s} == {u} && {u} - {u} == {};
    assert Ordered({}) == [] && Ordered({u}) == [u] + Ordered({u} - {u});
    assert Ordered({s, u}) == [s] + Ordered({s, u} - {s});
  }

  lemma BeforeIsStrict(s: string, u: string)
    requires Before(s, u)
    ensures s != u
  {
    LexTotal(s, u);
  }

  /** The first secret is not in the text; the replacement of the second one brings it there. */
  lemma PairLeaks(s: string, u: string, text: string)
    requires IsLearnable(s) && IsLearnable(u) && Before(s, u)
    requires !Contains(text, s) && Contains(text, u) && Contains(Replace(text, u, REDACTED), s)
    ensures Registry({s, u}) && Usable({s, u}) && Contains(RedactAll({s, u}, text), s)
  {
    hide Contains, Replace, Before;
    OrderedPair(s, u);
    LearnableIsUsable({s, u});
    var out := Replace(text, u, REDACTED);
    assert [s, u][1..] == [u] && [u][1..] == [];
    assert Redact([s, u], text) == Redact([u], text) == Redact([], out) == out;
  }

  // ---------- runs of one character ----------

  function Run(c: char, n: nat): (r: string)
    ensures |r| == n && forall i :: 0 <= i < n ==> r[i] == c
  {
    seq(n, _ => c)
  }

  lemma {:induction false} RunLength(c: char, n: nat)
    ensures Utf8Len(Run(c, n)) == n * CharLen(c)
  {
    if n > 0 {
      assert Run(c, n)[1..] == Run(c, n - 1);
      RunLength(c, n - 1);
    }
  }

  lemma {:induction false} TrimEndKeeps(s: string)
    requires s != "" && !IsWhitespace(s[0])
    ensures TrimEnd(s) != ""
    decreases |s|
  {
    if IsWhitespace(s[|s| - 1]) { TrimEndKeeps(s[..|s| - 1]); }
  }

  lemma Learnable(s: string)
    requires Utf8Len(s) >= MIN_SECRET_LEN && s != "" && !IsWhitespace(s[0])
    ensures IsLearnable(s)
  {
    TrimEndKeeps(s);
  }

  lemma RunLearnable(c: char, n: nat)
    requires n * CharLen(c) >= MIN_SECRET_LEN && !IsWhitespace(c)
    ensures IsLearnable(Run(c, n)) && Utf8Len(Run(c, n)) == n * CharLen(c)
  {
    RunLength(c, n);
    Learnable(Run(c, n));
  }

  /** A character that is neither of the two, and not in the placeholder. */
  function Other(a: char, b: char): (c: char)
    ensures c != a && c != b && c in {'X', 'Y', 'Z'}
  {
    if a != 'X' && b != 'X' then 'X' else if a != 'Y' && b != 'Y' then 'Y' else 'Z'
  }

  lemma OtherFacts(c: char)
    requires c in {'X', 'Y', 'Z'}
    ensures c !in REDACTED && CharLen(c) == 1 && !IsWhitespace(c)
  {
  }

  lemma BytesContained(t: string, s: string)
    requires Contains(t, s)
    ensures Utf8Len(s) <= Utf8Len(t)
  {
    var k := OccurrenceOf(t, s);
    var x, y := t[..k], t[k + |s|..];
    assert t == (x + s) + y;
    Utf8LenConcat(x + s, y);
    Utf8LenConcat(x, s);
  }

  lemma LongerFirst(s: string, u: string)
    requires Utf8Len(s) > Utf8Len(u)
    ensures Before(s, u)
  {
  }

  // ---------- the last two characters of Unicode: runs that come after almost everything ----------

  const LAST: char := '\U{10FFFF}'
  const NEXT_TO_LAST: char := '\U{10FFFE}'

  lemma PairOf(c: char)
    requires c == LAST || c == NEXT_TO_LAST
    ensures IsLearnable(Run(c, 2)) && Utf8Len(Run(c, 2)) == 8 && c !in REDACTED
  {
    RunLearnable(c, 2);
  }

  lemma SmallerFirst(s: string, u: string)
    requires s != "" && u != "" && s[0] < u[0] && Utf8Len(s) == Utf8Len(u)
    ensures Before(s, u)
  {
  }

  lemma SmallerSecond(s: string, u: string)
    requires |s| >= 2 && |u| >= 2 && s[0] == u[0] && s[1] < u[1] && Utf8Len(s) == Utf8Len(u)
    ensures Before(s, u)
  {
    assert s[1..][0] == s[1] && u[1..][0] == u[1];
  }

  // ---------- a secret inside the placeholder ----------

  lemma InsideLeaks(s: string)
    requires IsLearnable(s) && Contains(REDACTED, s)
    ensures Registry({s}) && Usable({s}) && Contains(RedactAll({s}, s), s)
  {
    hide Contains;
    LearnableIsUsable({s});
    FirstUnique(First({s}), s, {s});
    assert {s} - {s} == {};
    assert Ordered({s}) == [s] && [s][1..] == [];
    SelfContained(s);
    ReplaceWhole(s);
    assert Redact([s], s) == Redact([], REDACTED) == REDACTED;
  }

  lemma SelfContained(s: string)
    ensures Contains(s, s)
  {
    assert s[0..|s|] == s;
    ContainsFromOccurrence(s, s, 0);
  }

  // ---------- a secret that runs into a placeholder: s = x + p, p a start of the placeholder ----------

  /** `x` followed by the later secret u turns into `x<redacted...`, which starts with x + p. */
  lemma TailLeaks(x: string, u: string, p: string)
    requires p != "" && p <= REDACTED && IsLearnable(x + p) && IsLearnable(u) && Before(x + p, u)
    requires forall k :: OccursAt(x + u, u, k) ==> k == |x|
    requires '<' !in u
    ensures Registry({x + p, u}) && Usable({x + p, u}) && Contains(RedactAll({x + p, u}, x + u), x + p)
  {
    hide Contains, OccursAt, Before, REDACTED;
    var s, text := x + p, x + u;
    if Contains(text, s) { TailAbsent(x, u, p); }
    OccursInRight(x, u, u, 0) by { SelfOccurs(u); }
    ContainsFromOccurrence(text, u, |x|);
    assert x + u + "" == text && x + REDACTED + "" == x + REDACTED;
    ReplaceOnly(x, u, "");
    PrefixContained(x + REDACTED, s);
    PairLeaks(s, u, text);
  }

  lemma OrderedOne(s: string)
    ensures Ordered({s}) == [s]
  {
    assert {s} - {s} == {};
  }

  /** Such a secret needs no second one: where its beginning is repeated before it, its own replacement puts the
      placeholder behind the repeated beginning. */
  lemma RepeatLeaks(x: string, p: string)
    requires p != "" && p <= REDACTED && IsLearnable(x + p)
    requires forall k :: OccursAt(x + (x + p), x + p, k) ==> k == |x|
    ensures Registry({x + p}) && Usable({x + p}) && Contains(RedactAll({x + p}, x + (x + p)), x + p)
  {
    hide Contains, OccursAt, REDACTED, IsLearnable;
    var s := x + p;
    var text := x + s;
    LearnableBytes(s);
    OrderedOne(s);
    OccursInRight(x, s, s, 0) by { SelfOccurs(s); }
    ContainsFromOccurrence(text, s, |x|);
    assert x + s + "" == text && x + REDACTED + "" == x + REDACTED;
    ReplaceOnly(x, s, "");
    RedactOne(s, text);
    PrefixContained(x + REDACTED, s);
  }

  lemma RedactOne(s: string, text: string)
    requires s != "" && Contains(text, s)
    ensures RedactAll({s}, text) == Replace(text, s, REDACTED)
  {
    hide Contains, REDACTED, Replace;
    OrderedOne(s);
    var next := Replace(text, s, REDACTED);
    assert Redact([], next) == next;
    assert [s][1..] == [] && Redact([s], text) == Redact([s][1..], next);
  }

  /** In particular every secret whose first bracket opens a start of the placeholder at its end. */
  lemma PlainRepeatLeaks(x: string, p: string)
    requires '<' !in x && p != "" && p <= REDACTED && IsLearnable(x + p)
    ensures Registry({x + p}) && Usable({x + p}) && Contains(RedactAll({x + p}, x + (x + p)), x + p)
  {
    hide Contains, IsLearnable;
    forall k | OccursAt(x + (x + p), x + p, k)
      ensures k == |x|
    {
      OccurrenceChar(x + (x + p), x + p, k, |x|);
    }
    RepeatLeaks(x, p);
  }

  lemma SelfOccurs(u: string)
    ensures OccursAt(u, u, 0)
  {
    assert u[0..|u|] == u;
  }

  lemma PrefixContained(t: string, s: string)
    requires s <= t
    ensures Contains(t, s)
  {
    assert t[0..|s|] == s;
    ContainsFromOccurrence(t, s, 0);
  }

  lemma TailAbsent(x: string, u: string, p: string)
    requires p != "" && p <= REDACTED && '<' !in u
    ensures !Contains(x + u, x + p)
  {
    if Contains(x + u, x + p) {
      var k := OccurrenceOf(x + u, x + p);
      OccurrenceChar(x + u, x + p, k, |x|);
    }
  }

  /** A run that is not in x and does not continue x occurs behind x only. */
  lemma RunBehind(x: string, c: char, n: nat)
    requires n > 0 && x != "" && x[|x| - 1] != c && !Contains(x, Run(c, n))
    ensures forall k :: OccursAt(x + Run(c, n), Run(c, n), k) ==> k == |x|
  {
    hide Contains;
    var u := Run(c, n);
    forall k | OccursAt(x + u, u, k)
      ensures k == |x|
    {
      if k < |x| {
        if k + n <= |x| {
          assert x[k..k + n] == (x + u)[k..k + n];
          ContainsFromOccurrence(x, u, k);
        } else {
          OccurrenceChar(x + u, u, k, |x| - 1 - k);
        }
      }
    }
  }

  lemma RunIn(x: string, c: char, n: nat)
    requires n > 0 && Contains(x, Run(c, n))
    ensures |x| >= n && (|x| == n ==> x[|x| - 1] == c)
  {
    var k := OccurrenceOf(x, Run(c, n));
    OccurrenceChar(x, Run(c, n), k, n - 1);
  }

  lemma RunNotIn(x: string, c: char, n: nat)
    requires n > 0 && |x| <= n && (|x| == n ==> x[|x| - 1] != c)
    ensures !Contains(x, Run(c, n))
  {
    hide Contains, Run;
    if Contains(x, Run(c, n)) { RunIn(x, c, n); }
  }

  lemma IntoLeaks(x: string, p: string) returns (u: string)
    requires x != "" && p != "" && p <= REDACTED && IsLearnable(x + p)
    ensures Registry({x + p, u}) && Usable({x + p, u}) && Contains(RedactAll({x + p, u}, x + u), x + p)
  {
    hide Contains, REDACTED, IsLearnable;
    var s, last := x + p, x[|x| - 1];
    Utf8LenConcat(x, p);
    LearnableBytes(s);
    if Utf8Len(s) > 8 {
      var c, n := Other(last, last), if |x| > 8 then |x| else 8;
      u := Run(c, n);
      OtherFacts(c);
      RunLearnable(c, n);
      LongerFirst(s, u);
      RunNotIn(x, c, n);
      RunBehind(x, c, n);
      TailLeaks(x, u, p);
    } else {
      u := IntoLeaksShort(x, p);
    }
  }

  lemma LearnableBytes(s: string)
    requires IsLearnable(s)
    ensures Utf8Len(s) >= 8 && s != ""
  {
  }

  /** Eight bytes: the other secret must be eight bytes too, and lexically greater. */
  lemma IntoLeaksShort(x: string, p: string) returns (u: string)
    requires x != "" && p != "" && p <= REDACTED && IsLearnable(x + p) && Utf8Len(x + p) == 8
    ensures Registry({x + p, u}) && Usable({x + p, u}) && Contains(RedactAll({x + p, u}, x + u), x + p)
  {
    hide Contains, REDACTED, IsLearnable, Before;
    var s, last := x + p, x[|x| - 1];
    Utf8LenConcat(x, p);
    if last == LAST && |x| == 1 {
      u := [LAST] + "ZZZZ";
      LastOne(x, p);
      TailLeaks(x, u, p);
    } else {
      var c := if last == LAST then NEXT_TO_LAST else LAST;
      u := Run(c, 2);
      PairOf(c);
      if Contains(x, u) { BytesContained(x, u); }
      RunBehind(x, c, 2);
      ShortOrder(x, p, c);
      NoBracket(u, c);
      TailLeaks(x, u, p);
    }
  }

  lemma NoBracket(u: string, c: char)
    requires c > 'Z' && forall i :: 0 <= i < |u| ==> u[i] == c
    ensures '<' !in u
  {
  }

  lemma FirstBytes(x: string)
    requires x != ""
    ensures Utf8Len(x) >= CharLen(x[0]) + |x| - 1
    ensures |x| >= 2 ==> Utf8Len(x) >= CharLen(x[0]) + CharLen(x[1]) && Utf8Len(x) >= CharLen(x[0]) + CharLen(x[|x| - 1])
  {
    if |x| >= 2 {
      var y, z := x[1..], x[1..|x| - 1];
      assert y[0] == x[1] && y == z + [x[|x| - 1]] && [x[|x| - 1]][1..] == "";
      Utf8LenConcat(z, [x[|x| - 1]]);
    }
  }

  lemma ShortOrder(x: string, p: string, c: char)
    requires x != "" && p != "" && p <= REDACTED && Utf8Len(x) < 8 && Utf8Len(x + p) == 8
    requires c == if x[|x| - 1] == LAST then NEXT_TO_LAST else LAST
    requires x[|x| - 1] == LAST ==> |x| > 1
    ensures Before(x + p, Run(c, 2))
  {
    hide Before, REDACTED;
    var s, u := x + p, Run(c, 2);
    FirstBytes(x);
    PairOf(c);
    assert s[0] == x[0];
    if s[0] < c {
      SmallerFirst(s, u);
    } else {
      assert |x| >= 2 && s[1] == x[1];
      SmallerSecond(s, u);
    }
  }

  lemma LastOne(x: string, p: string)
    requires x == [LAST] && p != "" && p <= REDACTED && Utf8Len(x + p) == 8
    ensures var u := [LAST] + "ZZZZ";
      IsLearnable(u) && Before(x + p, u) && '<' !in u && forall k :: OccursAt(x + u, u, k) ==> k == 1
  {
    hide Before;
    var u := [LAST] + "ZZZZ";
    assert u == [LAST, 'Z', 'Z', 'Z', 'Z'];
    Utf8LenConcat([LAST], "ZZZZ");
    assert "ZZZZ" == Run('Z', 4) && [LAST] == Run(LAST, 1);
    RunLength('Z', 4);
    RunLength(LAST, 1);
    Learnable(u);
    assert (x + p)[0] == LAST && (x + p)[1] == p[0] == REDACTED[0] == '<';
    SmallerSecond(x + p, u);
    forall k | OccursAt(x + u, u, k) ensures k == 1 { OccurrenceChar(x + u, u, k, 1); }
  }

  // ---------- a secret that runs out of a placeholder: s = q + y, q an end of the placeholder ----------

  lemma HeadLeaks(j: nat, y: string, u: string)
    requires 0 < j < |REDACTED| && u != "" && IsLearnable(REDACTED[j..] + y) && IsLearnable(u)
    requires Before(REDACTED[j..] + y, u) && !Contains(y, u)
    requires forall i :: 0 <= i < |u| ==> u[i] !in REDACTED
    ensures var s := REDACTED[j..] + y;
      Registry({s, u}) && Usable({s, u}) && Contains(RedactAll({s, u}, u + y), s)
  {
    hide Contains, Before, IsLearnable;
    var s, text := REDACTED[j..] + y, u + y;
    if Contains(text, s) { HeadAbsent(j, y, u); }
    PrefixContained(text, u);
    ReplaceAtFront(u, y);
    assert (REDACTED + y)[j..j + |s|] == s;
    ContainsFromOccurrence(REDACTED + y, s, j);
    PairLeaks(s, u, text);
  }

  lemma HeadAbsent(j: nat, y: string, u: string)
    requires 0 < j < |REDACTED|
    requires forall i :: 0 <= i < |u| ==> u[i] !in REDACTED
    ensures !Contains(u + y, REDACTED[j..] + y)
  {
    var s := REDACTED[j..] + y;
    if Contains(u + y, s) {
      var k := OccurrenceOf(u + y, s);
      OccurrenceChar(u + y, s, k, 0);
    }
  }

  lemma OutOfLeaks(j: nat, y: string) returns (u: string)
    requires 0 < j < |REDACTED| && IsLearnable(REDACTED[j..] + y)
    ensures var s := REDACTED[j..] + y;
      Registry({s, u}) && Usable({s, u}) && Contains(RedactAll({s, u}, u + y), s)
  {
    hide Contains, IsLearnable, Before, REDACTED;
    var q := REDACTED[j..];
    var s := q + y;
    Utf8LenConcat(q, y);
    LearnableBytes(s);
    if Utf8Len(s) > 8 {
      var edge := if y == "" then 'X' else y[|y| - 1];
      var c, n := Other(edge, edge), if |y| > 8 then |y| else 8;
      u := Run(c, n);
      OtherFacts(c);
      RunLearnable(c, n);
      LongerFirst(s, u);
      RunNotIn(y, c, n);
    } else {
      u := Run(LAST, 2);
      PairOf(LAST);
      if Contains(y, u) { BytesContained(y, u); }
      PlaceholderIsAscii(j);
      SmallerFirst(s, u);
    }
    HeadLeaks(j, y, u);
  }

  lemma PlaceholderIsAscii(j: nat)
    requires j < |REDACTED|
    ensures REDACTED[j] < 0x80 as char
  {
  }

  // ---------- a secret around a placeholder: s = a + placeholder + b ----------

  lemma AroundLeaks(a: string, b: string) returns (u: string)
    requires IsLearnable(a + REDACTED + b)
    ensures var s := a + REDACTED + b;
      Registry({s, u}) && Usable({s, u}) && Contains(RedactAll({s, u}, a + u + b), s)
  {
    hide Contains, IsLearnable, Before, REDACTED, OccursAt;
    var s := a + REDACTED + b;
    var c := Other(if a == "" then 'X' else a[|a| - 1], if b == "" then 'X' else b[0]);
    var n := if |a| + |b| + 1 > 8 then |a| + |b| + 1 else 8;
    u := Run(c, n);
    OtherFacts(c);
    RunLearnable(c, n);
    PlaceholderLength();
    LongerFirst(s, u);
    RunBetween(a, c, n, b);
    ReplaceOnly(a, u, b);
    SelfContained(s);
    MiddleContained(a, u, b);
    if Contains(a + u + b, s) { AroundAbsent(a, c, n, b); }
    PairLeaks(s, u, a + u + b);
  }

  lemma PlaceholderLength()
    ensures |REDACTED| == 23 && REDACTED[0] == '<'
  {
  }

  lemma MiddleContained(a: string, u: string, b: string)
    ensures Contains(a + u + b, u)
  {
    assert (a + u + b)[|a|..|a| + |u|] == u;
    ContainsFromOccurrence(a + u + b, u, |a|);
  }

  lemma RunBetween(a: string, c: char, n: nat, b: string)
    requires n > |a| + |b|
    requires (a != "" ==> a[|a| - 1] != c) && (b != "" ==> b[0] != c)
    ensures forall k :: OccursAt(a + Run(c, n) + b, Run(c, n), k) ==> k == |a|
  {
    var u := Run(c, n);
    var text := a + u + b;
    forall k | OccursAt(text, u, k)
      ensures k == |a|
    {
      if k < |a| { OccurrenceChar(text, u, k, |a| - 1 - k); }
      if k > |a| { OccurrenceChar(text, u, k, |a| + n - k); }
    }
  }

  lemma AroundAbsent(a: string, c: char, n: nat, b: string)
    requires c != '<'
    ensures !Contains(a + Run(c, n) + b, a + REDACTED + b)
  {
    var u, s := Run(c, n), a + REDACTED + b;
    if Contains(a + u + b, s) {
      var k := OccurrenceOf(a + u + b, s);
      OccurrenceChar(a + u + b, s, k, |a|);
    }
  }

  // ---------- the exact condition ----------

  lemma TouchingInto(s: string, i: nat) returns (values: set<string>, text: string)
    requires IsLearnable(s) && i < |s| && Agree(s[i..], REDACTED)
    ensures Registry(values) && Usable(values) && s in values && Contains(RedactAll(values, text), s)
  {
    hide Contains, IsLearnable, REDACTED, RedactAll;
    var head, tail := s[..i], s[i..];
    Sequences.Rejoin(s, i);
    if tail <= REDACTED && i > 0 {
      var u := IntoLeaks(head, tail);
      values, text := {s, u}, head + u;
    } else if tail <= REDACTED {
      assert tail == s;
      PrefixContained(REDACTED, s);
      InsideLeaks(s);
      values, text := {s}, s;
    } else {
      var b := tail[|REDACTED|..];
      assert tail == REDACTED + b;
      Sequences.Associative(head, REDACTED, b);
      var u := AroundLeaks(head, b);
      values, text := {s, u}, head + u + b;
    }
  }

  lemma TouchingOutOf(s: string, j: nat) returns (values: set<string>, text: string)
    requires IsLearnable(s) && 0 < j < |REDACTED| && Agree(s, REDACTED[j..])
    ensures Registry(values) && Usable(values) && s in values && Contains(RedactAll(values, text), s)
  {
    hide Contains, IsLearnable, REDACTED, RedactAll;
    var q := REDACTED[j..];
    if q <= s {
      var y := s[|q|..];
      assert s == q + y;
      var u := OutOfLeaks(j, y);
      values, text := {s, u}, u + y;
    } else {
      assert REDACTED[j..j + |s|] == q[..|s|] == s;
      ContainsFromOccurrence(REDACTED, s, j);
      InsideLeaks(s);
      values, text := {s}, s;
    }
  }

  /** Every secret that can touch a placeholder leaks, from some registry and some text. */
  lemma Touching(s: string) returns (values: set<string>, text: string)
    requires IsLearnable(s) && !Apart(s)
    ensures Registry(values) && Usable(values) && s in values && Contains(RedactAll(values, text), s)
  {
    hide Contains, IsLearnable, REDACTED, RedactAll, Agree;
    if !NeverInto(s) {
      var i: nat :| 0 <= i < |s| && Agree(s[i..], REDACTED);
      values, text := TouchingInto(s, i);
    } else {
      var j: nat :| 0 < j < |REDACTED| && Agree(s, REDACTED[j..]);
      values, text := TouchingOutOf(s, j);
    }
  }

  /** A secret is safe in every registry that holds it and every text if and only if it stands apart from the
      placeholder. */
  lemma ApartExactly(s: string)
    requires IsLearnable(s)
    ensures Apart(s) <==>
      forall values, text :: Usable(values) && Registry(values) && s in values ==> !Contains(RedactAll(values, text), s)
  {
    hide Contains, IsLearnable, Apart, Redact;
    if Apart(s) {
      forall values, text | Usable(values) && Registry(values) && s in values
        ensures !Contains(RedactAll(values, text), s)
      {
        NoSecretSurvives(values, text);
      }
    } else {
      var values, text := Touching(s);
      assert Contains(RedactAll(values, text), s);
    }
  }

  // ---------- one of each ----------

  /** Brackets alone do not matter. */
  lemma BracketsCanBeSafe()
    ensures Apart("p<ss>w0rd")
  {
    var s := "p<ss>w0rd";
    forall i | 0 <= i < |s| ensures !Agree(s[i..], REDACTED) { assert s[i..][0] == s[i] && (i == 1 ==> s[i..][1] == 's'); }
    forall j | 0 < j < |REDACTED| ensures !Agree(s, REDACTED[j..]) { assert REDACTED[j..][0] == REDACTED[j]; }
  }

  /** A secret that ends like a placeholder starts. */
  lemma BracketSecretExample()
    ensures !Apart("aaaa<red")
    ensures var s, u := "aaaa<red", "bbbbbbbb";
      Registry({s, u}) && Usable({s, u}) && Contains(RedactAll({s, u}, "aaaabbbbbbbb"), s)
  {
    hide Contains, IsLearnable, Before;
    var x, p := "aaaa", "<red";
    var s := x + p;
    assert s == "aaaa<red" && "bbbbbbbb" == Run('b', 8) && x == Run('a', 4);
    assert s[4..] == p <= REDACTED && Agree(s[4..], REDACTED);
    EightBytes(s);
    Learnable(s);
    RunLearnable('b', 8);
    SmallerFirst(s, Run('b', 8));
    RunNotIn(x, 'b', 8);
    RunBehind(x, 'b', 8);
    assert x + Run('b', 8) == "aaaabbbbbbbb";
    TailLeaks(x, Run('b', 8), p);
  }

  /** The first of them leaks alone, too. */
  lemma LoneSecretExample()
    ensures Registry({"aaaa<red"}) && Usable({"aaaa<red"})
    ensures Contains(RedactAll({"aaaa<red"}, "aaaaaaaa<red"), "aaaa<red")
  {
    var x, p := "aaaa", "<red";
    EightBytes("aaaa<red");
    Learnable("aaaa<red");
    assert x + p == "aaaa<red" && x + (x + p) == "aaaaaaaa<red";
    PlainRepeatLeaks(x, p);
  }

  lemma EightBytes(s: string)
    requires |s| == 8 && forall i :: 0 <= i < 8 ==> s[i] < 0x80 as char
    ensures Utf8Len(s) == 8
  {
    AsciiLen(s);
  }

  lemma {:induction false} AsciiLen(s: string)
    requires forall i :: 0 <= i < |s| ==> s[i] < 0x80 as char
    ensures Utf8Len(s) == |s|
  {
    if s != "" { AsciiLen(s[1..]); }
  }
}
