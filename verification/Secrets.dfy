/** `secrets.rs`: the registry of vault strings and the redaction of every one of them. */
module Secrets {
  import opened Options
  import opened Text
  import Sequences

  const REDACTED: string := "<redacted: vault value>"
  const INTERIOR: string := "redacted: vault value"  // the placeholder between its delimiters
  const MIN_SECRET_LEN: nat := 8

  datatype Json =
    | Null
    | Bool(b: bool)
    | Number(digits: string)
    | String(s: string)
    | Array(items: seq<Json>)
    | Object(fields: seq<Field>)

  datatype Field = Field(key: string, value: Json)

  // ---------- which strings are learned ----------

  predicate IsLearnable(s: string) {
    Utf8Len(s) >= MIN_SECRET_LEN && Trim(s) != ""
  }

  function Leaves(v: Json): seq<string> {
    match v
    case String(s) => [s]
    case Array(items) => LeavesOfItems(items)
    case Object(fields) => LeavesOfFields(fields)
    case _ => []
  }

  function LeavesOfItems(items: seq<Json>): seq<string> {
    if items == [] then [] else Leaves(items[0]) + LeavesOfItems(items[1..])
  }

  function LeavesOfFields(fields: seq<Field>): seq<string> {
    if fields == [] then [] else Leaves(fields[0].value) + LeavesOfFields(fields[1..])
  }

  function Learned(strings: seq<string>): set<string> {
    set s | s in strings && IsLearnable(s)
  }

  // ---------- the order of replacement: longest first, then lexicographic ----------

  predicate LexLess(a: string, b: string) {
    if b == "" then false
    else if a == "" then true
    else a[0] < b[0] || (a[0] == b[0] && LexLess(a[1..], b[1..]))
  }

  predicate Before(a: string, b: string) {
    Utf8Len(a) > Utf8Len(b) || (Utf8Len(a) == Utf8Len(b) && LexLess(a, b))
  }

  lemma {:induction false} LexTotal(a: string, b: string)
    ensures LexLess(a, b) || LexLess(b, a) || a == b
    ensures !(LexLess(a, b) && LexLess(b, a))
  {
    if a != "" && b != "" {
      LexTotal(a[1..], b[1..]);
      assert a == [a[0]] + a[1..] && b == [b[0]] + b[1..];
    }
  }

  lemma {:induction false} LexTransitive(a: string, b: string, c: string)
    requires LexLess(a, b) && LexLess(b, c)
    ensures LexLess(a, c)
  {
    assert b != "" && c != "";
    if a != "" {
      if a[0] == b[0] && b[0] == c[0] {
        LexTransitive(a[1..], b[1..], c[1..]);
      } else {
        assert a[0] < c[0];
      }
    }
  }

  ghost predicate IsFirst(s: string, values: set<string>) {
    s in values && forall u :: u in values && u != s ==> Before(s, u)
  }

  lemma {:induction false} FirstExists(values: set<string>) returns (first: string)
    requires values != {}
    ensures IsFirst(first, values)
  {
    var s :| s in values;
    var rest := values - {s};
    if rest == {} {
      first := s;
      assert values == {s};
    } else {
      var f := FirstExists(rest);
      LexTotal(s, f);
      assert values == rest + {s};
      if Before(s, f) {
        first := s;
        forall u | u in values && u != s
          ensures Before(s, u)
        {
          assert u in rest;
          if Utf8Len(s) == Utf8Len(f) == Utf8Len(u) && u != f { LexTransitive(s, f, u); }
        }
      } else {
        first := f;
      }
    }
  }

  lemma FirstUnique(s: string, u: string, values: set<string>)
    requires IsFirst(s, values) && IsFirst(u, values)
    ensures s == u
  {
    LexTotal(s, u);
  }

  ghost function First(values: set<string>): (s: string)
    requires values != {}
    ensures IsFirst(s, values)
  {
    assert exists s :: IsFirst(s, values) by { var f := FirstExists(values); }
    var s :| IsFirst(s, values);
    s
  }

  /** The values in the order they are replaced. */
  ghost function Ordered(values: set<string>): (order: seq<string>)
    ensures forall s :: s in order <==> s in values
    ensures forall i :: 0 <= i < |order| ==> order[i] in values
    decreases |values|
  {
    if values == {} then [] else
      var s := First(values);
      [s] + Ordered(values - {s})
  }

  // ---------- redaction ----------

  predicate AllNonEmpty(order: seq<string>) {
    forall i :: 0 <= i < |order| ==> order[i] != ""
  }

  /** One pass over the secrets in the given order. */
  function Redact(order: seq<string>, text: string): string
    requires AllNonEmpty(order)
  {
    if order == [] then text
    else Redact(order[1..], if Contains(text, order[0]) then Replace(text, order[0], REDACTED) else text)
  }

  ghost predicate Usable(values: set<string>) {
    forall s :: s in values ==> s != ""
  }

  ghost function RedactAll(values: set<string>, text: string): string
    requires Usable(values)
  {
    Redact(Ordered(values), text)
  }

  ghost predicate Clean(values: set<string>, text: string) {
    forall s :: s in values ==> !Contains(text, s)
  }

  // ---------- how a secret can touch a placeholder ----------

  /** One of the two strings starts with the other. */
  predicate Agree(a: string, b: string) {
    a <= b || b <= a
  }

  /** From no position on can s run into a placeholder. */
  predicate NeverInto(s: string) {
    forall i :: 0 <= i < |s| ==> !Agree(s[i..], REDACTED)
  }

  /** At no position inside a placeholder can s begin. */
  predicate NeverOutOf(s: string) {
    forall j :: 0 < j < |REDACTED| ==> !Agree(s, REDACTED[j..])
  }

  /** No occurrence of s shares a character with a placeholder, in any text. */
  predicate Apart(s: string) {
    NeverInto(s) && NeverOutOf(s)
  }

  ghost predicate AllApart(values: set<string>) {
    forall s :: s in values ==> Apart(s)
  }

  // ---------- a replacement creates nothing outside the placeholder ----------

  lemma {:induction false} PrefixOfReplaced(t: string, u: string, s: string)
    requires u != "" && NeverInto(s) && s <= Replace(t, u, REDACTED)
    ensures s <= t
    decreases |t|
  {
    hide Agree;
    if s != "" && |t| >= |u| {
      if u <= t {
        StartsPlaceholder(s, Replace(t[|u|..], u, REDACTED));
      } else {
        var rest := Replace(t[1..], u, REDACTED);
        assert s[0] == Replace(t, u, REDACTED)[0];
        assert Replace(t, u, REDACTED)[1..] == rest;
        NeverIntoTail(s);
        PrefixOfReplaced(t[1..], u, s[1..]);
        assert s == [s[0]] + s[1..] && t == [t[0]] + t[1..];
      }
    }
  }

  lemma NeverIntoTail(s: string)
    requires s != "" && NeverInto(s)
    ensures NeverInto(s[1..])
  {
    hide Agree;
    forall i | 0 <= i < |s[1..]|
      ensures !Agree(s[1..][i..], REDACTED)
    {
      assert s[1..][i..] == s[i + 1..];
    }
  }

  /** A string that never runs into a placeholder does not start text that starts with one. */
  lemma StartsPlaceholder(s: string, rest: string)
    requires s != "" && NeverInto(s)
    ensures !(s <= REDACTED + rest)
  {
    hide Agree, REDACTED;
    assert s[0..] == s;
    assert !Agree(s[0..], REDACTED);
    if s <= REDACTED + rest { PrefixesAgree(s, REDACTED, rest); }
  }

  lemma PrefixesAgree(s: string, p: string, rest: string)
    requires s <= p + rest
    ensures Agree(s, p)
  {
    if |s| > |p| {
      assert s[..|p|] == (p + rest)[..|p|] == p;
    } else {
      assert p[..|s|] == (p + rest)[..|s|] == s;
    }
  }

  /** What stands apart from the placeholder lies behind it in text that starts with one. */
  lemma BehindPlaceholder(rest: string, s: string, k: int)
    requires Apart(s) && s != "" && OccursAt(REDACTED + rest, s, k)
    ensures OccursAt(rest, s, k - |REDACTED|)
  {
    var n := |REDACTED|;
    var text := REDACTED + rest;
    hide REDACTED, NeverInto, Agree;
    if k >= n {
      assert text[k..k + |s|] == rest[k - n..k - n + |s|];
    } else if k == 0 {
      OccursAtStart(text, s);
      StartsPlaceholder(s, rest);
    } else {
      AgreeAt(rest, s, k);
    }
  }

  lemma AgreeAt(rest: string, s: string, k: nat)
    requires k < |REDACTED| && OccursAt(REDACTED + rest, s, k)
    ensures Agree(s, REDACTED[k..])
  {
    var text, q := REDACTED + rest, REDACTED[k..];
    hide REDACTED;
    if |s| <= |q| {
      assert q[..|s|] == text[k..k + |s|];
    } else {
      assert s == text[k..k + |s|];
      assert text[k..|REDACTED|] == q;
      assert s[..|q|] == text[k..k + |q|] == q;
    }
  }

  /** The hard step: a later replacement never recreates an earlier secret. */
  lemma {:induction false} NothingCreated(t: string, u: string, s: string, k: int)
    requires u != "" && Apart(s) && s != "" && OccursAt(Replace(t, u, REDACTED), s, k)
    ensures Contains(t, s)
    decreases |t|
  {
    hide Apart, Contains;
    if |t| < |u| {
      ContainsFromOccurrence(t, s, k);
    } else if u <= t {
      BehindPlaceholder(Replace(t[|u|..], u, REDACTED), s, k);
      NothingCreated(t[|u|..], u, s, k - |REDACTED|);
      ContainsLater(t, |u|, s);
    } else if k == 0 {
      ApartNeverInto(s);
      PrefixOfReplaced(t, u, s);
      ContainsFromOccurrence(t, s, 0);
    } else {
      ReplaceSkips(t, u);
      OccursAfterFirst(t[0], Replace(t[1..], u, REDACTED), s, k);
      NothingCreated(t[1..], u, s, k - 1);
      ContainsLater(t, 1, s);
    }
  }

  lemma ReplaceSkips(t: string, u: string)
    requires u != "" && |u| <= |t| && !(u <= t)
    ensures Replace(t, u, REDACTED) == [t[0]] + Replace(t[1..], u, REDACTED)
  {
  }

  lemma OccursAfterFirst(c: char, rest: string, s: string, k: int)
    requires k > 0 && OccursAt([c] + rest, s, k)
    ensures OccursAt(rest, s, k - 1)
  {
    assert rest[k - 1..k - 1 + |s|] == ([c] + rest)[k..k + |s|];
  }

  lemma ApartNeverInto(s: string)
    requires Apart(s)
    ensures NeverInto(s)
  {
  }

  lemma ContainsLater(t: string, n: nat, s: string)
    requires n <= |t| && Contains(t[n..], s)
    ensures Contains(t, s)
  {
    var k := OccurrenceOf(t[n..], s);
    assert t[n..][k..k + |s|] == t[n + k..n + k + |s|];
    ContainsFromOccurrence(t, s, n + k);
  }

  /** Replacing removes every occurrence of the pattern itself. */
  lemma {:induction false} PatternGone(t: string, u: string, k: int)
    requires u != "" && Apart(u)
    ensures !OccursAt(Replace(t, u, REDACTED), u, k)
    decreases |t|
  {
    hide Apart;
    if OccursAt(Replace(t, u, REDACTED), u, k) {
      if |t| < |u| {
        assert false;
      } else if u <= t {
        BehindPlaceholder(Replace(t[|u|..], u, REDACTED), u, k);
        PatternGone(t[|u|..], u, k - |REDACTED|);
      } else if k == 0 {
        ApartNeverInto(u);
        PrefixOfReplaced(t, u, u);
      } else {
        ReplaceSkips(t, u);
        OccursAfterFirst(t[0], Replace(t[1..], u, REDACTED), u, k);
        PatternGone(t[1..], u, k - 1);
      }
    }
  }

  // ---------- no secret survives ----------

  lemma {:induction false} RedactKeepsAbsence(order: seq<string>, text: string, s: string)
    requires AllNonEmpty(order)
    requires s != "" && Apart(s) && !Contains(text, s)
    ensures !Contains(Redact(order, text), s)
    decreases |order|
  {
    hide Apart;
    if order != [] {
      var u := order[0];
      if Contains(text, u) {
        var next := Replace(text, u, REDACTED);
        if Contains(next, s) {
          var k := OccurrenceOf(next, s);
          NothingCreated(text, u, s, k);
        }
        RedactKeepsAbsence(order[1..], next, s);
      } else {
        RedactKeepsAbsence(order[1..], text, s);
      }
    }
  }

  /** Whatever else is replaced, and however it touches placeholders itself. */
  lemma {:induction false} RedactRemoves(order: seq<string>, text: string, s: string)
    requires AllNonEmpty(order)
    requires s in order && Apart(s)
    ensures !Contains(Redact(order, text), s)
    decreases |order|
  {
    hide Apart;
    var u := order[0];
    var next := if Contains(text, u) then Replace(text, u, REDACTED) else text;
    if u == s {
      if Contains(next, s) {
        var k := OccurrenceOf(next, s);
        PatternGone(text, s, k);
      }
      RedactKeepsAbsence(order[1..], next, s);
    } else {
      RedactRemoves(order[1..], next, s);
    }
  }

  /** In every text and every registry, each secret that stands apart from the placeholder is removed. */
  lemma NoSecretSurvives(values: set<string>, text: string)
    requires Usable(values)
    ensures forall s :: s in values && Apart(s) ==> !Contains(RedactAll(values, text), s)
  {
    forall s | s in values && Apart(s)
      ensures !Contains(RedactAll(values, text), s)
    {
      RedactRemoves(Ordered(values), text, s);
    }
  }

  lemma {:induction false} RedactOfClean(order: seq<string>, text: string)
    requires AllNonEmpty(order) && forall i :: 0 <= i < |order| ==> !Contains(text, order[i])
    ensures Redact(order, text) == text
    decreases |order|
  {
    if order != [] { RedactOfClean(order[1..], text); }
  }

  /** Text without a secret passes unchanged, whatever the registry holds. */
  lemma RedactIsIdentityOnClean(values: set<string>, text: string)
    requires Usable(values) && Clean(values, text)
    ensures RedactAll(values, text) == text
  {
    RedactOfClean(Ordered(values), text);
  }

  lemma RedactIsIdempotent(values: set<string>, text: string)
    requires Usable(values) && AllApart(values)
    ensures RedactAll(values, RedactAll(values, text)) == RedactAll(values, text)
  {
    hide Apart;
    NoSecretSurvives(values, text);
    RedactIsIdentityOnClean(values, RedactAll(values, text));
  }

  // ---------- a registry as a whole ----------

  lemma SubstringNoLonger(w: string, u: string)
    requires Contains(w, u) && Utf8Len(u) >= Utf8Len(w)
    ensures u == w
  {
    var k := OccurrenceOf(w, u);
    var x, y := w[..k], w[k + |u|..];
    assert w == (x + u) + y;
    Utf8LenConcat(x + u, y);
    Utf8LenConcat(x, u);
  }

  lemma FirstNotInLater(values: set<string>, w: string)
    requires w in values && w != First(values)
    ensures !Contains(w, First(values))
  {
    var f := First(values);
    LexTotal(f, w);
    if Contains(w, f) { SubstringNoLonger(w, f); }
  }

  lemma ReplaceWhole(s: string)
    requires s != ""
    ensures Replace(s, s, REDACTED) == REDACTED
  {
    assert s[|s|..] == "";
  }

  lemma NotInPlaceholder(u: string)
    requires u != "" && Apart(u)
    ensures !Contains(REDACTED, u)
  {
    hide Apart;
    if Contains(REDACTED, u) {
      var k := OccurrenceOf(REDACTED, u);
      assert REDACTED + "" == REDACTED;
      BehindPlaceholder("", u, k);
    }
  }

  /** Every secret either stands apart from the placeholder or lies inside it. */
  ghost predicate ApartOrInside(values: set<string>) {
    forall s :: s in values ==> Apart(s) || Contains(REDACTED, s)
  }

  /** The last of the secrets that lie inside the placeholder leaks from its own redaction. */
  lemma {:induction false} Leak(values: set<string>) returns (w: string)
    requires Usable(values) && ApartOrInside(values) && !AllApart(values)
    ensures w in values && Contains(REDACTED, w) && RedactAll(values, w) == REDACTED
    decreases |values|
  {
    hide Apart;
    var f := First(values);
    var rest := values - {f};
    assert Ordered(values)[1..] == Ordered(rest);
    if AllApart(rest) {
      w := f;
      assert f <= f;
      ReplaceWhole(f);
      forall u | u in rest ensures !Contains(REDACTED, u) { NotInPlaceholder(u); }
      RedactOfClean(Ordered(rest), REDACTED);
    } else {
      w := Leak(rest);
      FirstNotInLater(values, w);
    }
  }

  /** For such a registry: every text comes out clean exactly if no secret lies inside the placeholder. */
  lemma InsideExactly(values: set<string>)
    requires Usable(values) && ApartOrInside(values)
    ensures (forall text :: Clean(values, RedactAll(values, text))) <==> AllApart(values)
  {
    hide Apart, Contains, Redact;
    if AllApart(values) {
      forall text ensures Clean(values, RedactAll(values, text)) { NoSecretSurvives(values, text); }
    } else {
      var w := Leak(values);
      assert !Clean(values, RedactAll(values, w));
    }
  }

  /** A value free of the placeholder's own delimiters. */
  predicate Bracketless(s: string) {
    '<' !in s && '>' !in s
  }

  lemma PlaceholderShape()
    ensures REDACTED == ['<'] + INTERIOR + ['>'] && Bracketless(INTERIOR)
  {
  }

  lemma InsideShape(open: char, inner: string, close: char, j: nat)
    requires 0 < j <= |inner| + 1
    ensures ([open] + inner + [close])[j..] == inner[j - 1..] + [close]
  {
  }

  lemma AgreesInside(inner: string, close: char, s: string)
    requires Agree(s, inner + [close])
    ensures s <= inner || close in s
  {
    var q := inner + [close];
    if s <= q {
      assert s == q[..|s|];
      if |s| == |q| { assert s[|inner|] == close; }
    } else {
      assert s[|inner|] == q[|inner|];
    }
  }

  lemma InteriorLies(s: string)
    requires s != "" && Contains(INTERIOR, s)
    ensures Contains(REDACTED, s) && !Apart(s)
  {
    PlaceholderShape();
    hide REDACTED, INTERIOR, Contains, Bracketless;
    var k := OccurrenceOf(INTERIOR, s);
    InsideShape('<', INTERIOR, '>', k + 1);
    assert s <= INTERIOR[k..] by { assert INTERIOR[k..][..|s|] == INTERIOR[k..k + |s|]; }
    assert s <= REDACTED[k + 1..];
    assert REDACTED[k + 1..k + 1 + |s|] == REDACTED[k + 1..][..|s|] == s;
    assert Agree(s, REDACTED[k + 1..]);
    ContainsFromOccurrence(REDACTED, s, k + 1);
  }

  lemma BracketlessInside(s: string, j: nat)
    requires s != "" && Bracketless(s) && 0 < j < |REDACTED| && Agree(s, REDACTED[j..])
    ensures Contains(INTERIOR, s)
  {
    PlaceholderShape();
    hide REDACTED, INTERIOR, Contains, Agree;
    InsideShape('<', INTERIOR, '>', j);
    AgreesInside(INTERIOR[j - 1..], '>', s);
    assert INTERIOR[j - 1..j - 1 + |s|] == INTERIOR[j - 1..][..|s|] == s;
    ContainsFromOccurrence(INTERIOR, s, j - 1);
  }

  /** Such a value can only lie wholly inside a placeholder. */
  lemma BracketlessApart(s: string)
    requires s != "" && Bracketless(s)
    ensures Apart(s) <==> !Contains(INTERIOR, s)
    ensures Apart(s) || Contains(REDACTED, s)
  {
    if Contains(INTERIOR, s) {
      InteriorLies(s);
    } else {
      PlaceholderShape();
      hide REDACTED, INTERIOR, Contains;
      forall i | 0 <= i < |s| ensures !Agree(s[i..], REDACTED) { assert s[i..][0] == s[i] && s[i] in s; }
      forall j | 0 < j < |REDACTED|
        ensures !Agree(s, REDACTED[j..])
      {
        if Agree(s, REDACTED[j..]) { BracketlessInside(s, j); }
      }
    }
  }

  /** A registry without brackets redacts every text exactly if no secret lies inside the placeholder. */
  lemma BracketlessExactly(values: set<string>)
    requires Usable(values) && forall s :: s in values ==> Bracketless(s)
    ensures (forall text :: Clean(values, RedactAll(values, text)))
       <==> forall s :: s in values ==> !Contains(INTERIOR, s)
  {
    hide Apart, Contains, Redact, Bracketless;
    forall s | s in values ensures Apart(s) <==> !Contains(INTERIOR, s) ensures Apart(s) || Contains(REDACTED, s) {
      BracketlessApart(s);
    }
    InsideExactly(values);
  }

  // ---------- longest first: a secret is replaced whole ----------

  lemma NotAgain(s: string, b: string)
    requires s != "" && forall k :: OccursAt("" + s + b, s, k) ==> k == 0
    ensures !Contains(b, s)
  {
    ContainsIff(b, s);
    if k :| OccursAt(b, s, k) { OccursInRight(s, b, s, k); }
    assert "" + s + b == s + b;
  }

  lemma ReplaceAtFront(s: string, b: string)
    requires s != "" && !Contains(b, s)
    ensures Replace(s + b, s, REDACTED) == REDACTED + b
  {
    hide Contains;
    assert (s + b)[|s|..] == b;
    ReplaceNothing(b, s, REDACTED);
  }

  lemma ReplaceLater(c: char, rest: string, s: string)
    requires s != "" && !(s <= [c] + rest) && |s| <= |rest| + 1
    ensures Replace([c] + rest, s, REDACTED) == [c] + Replace(rest, s, REDACTED)
  {
    assert ([c] + rest)[1..] == rest;
  }

  lemma {:induction false} ReplaceOnly(a: string, s: string, b: string)
    requires s != "" && forall k :: OccursAt(a + s + b, s, k) ==> k == |a|
    ensures Replace(a + s + b, s, REDACTED) == a + REDACTED + b
    decreases |a|
  {
    hide Contains, OccursAt, Replace;
    if a == "" {
      assert a + s + b == s + b && a + REDACTED + b == REDACTED + b;
      NotAgain(s, b);
      ReplaceAtFront(s, b);
    } else {
      var c, rest := a[0], a[1..] + s + b;
      assert a + s + b == [c] + rest;
      if s <= [c] + rest { PrefixOccurs([c] + rest, s); }
      forall k | OccursAt(rest, s, k)
        ensures k == |a[1..]|
      {
        OccursInRight([c], rest, s, k);
      }
      ReplaceOnly(a[1..], s, b);
      ReplaceLater(c, rest, s);
      assert a + REDACTED + b == [c] + (a[1..] + REDACTED + b);
    }
  }

  /** Every secret that occurs in a + s + b occurs inside that s. */
  ghost predicate OnlyWithin(values: set<string>, a: string, s: string, b: string) {
    forall u, k :: u in values && OccursAt(a + s + b, u, k) ==> |a| <= k && k + |u| <= |a| + |s|
  }

  lemma NoneOutside(values: set<string>, a: string, s: string, b: string, u: string, k: int)
    requires OnlyWithin(values, a, s, b) && u in values && u != ""
    ensures OccursAt(a + s + b, u, k) ==> |a| <= k && k + |u| <= |a| + |s|
  {
  }

  lemma AroundPlaceholder(values: set<string>, a: string, s: string, b: string, u: string)
    requires OnlyWithin(values, a, s, b) && u in values
    requires u != "" && Apart(u)
    ensures !Contains(a + REDACTED + b, u)
  {
    hide Contains, OnlyWithin, Apart;
    if Contains(a + REDACTED + b, u) {
      var k := OccurrenceOf(a + REDACTED + b, u);
      var j := k - |a| - |REDACTED|;
      AroundBoth(a, b, u, k);
      if OccursAt(a, u, k) {
        OccursInLeft(a, s + b, u, k);
        assert a + (s + b) == a + s + b;
        NoneOutside(values, a, s, b, u, k);
      } else {
        OccursInRight(a + s, b, u, j);
        NoneOutside(values, a, s, b, u, |a + s| + j);
      }
    }
  }

  /** An occurrence around a placeholder lies before it or behind it. */
  lemma AroundBoth(a: string, b: string, u: string, k: int)
    requires u != "" && Apart(u) && OccursAt(a + REDACTED + b, u, k)
    ensures OccursAt(a, u, k) || OccursAt(b, u, k - |a| - |REDACTED|)
  {
    hide Apart, REDACTED;
    var text := a + REDACTED + b;
    assert text == a + (REDACTED + b);
    if k >= |a| {
      assert (REDACTED + b)[k - |a|..k - |a| + |u|] == text[k..k + |u|];
      BehindPlaceholder(b, u, k - |a|);
    } else if k + |u| <= |a| {
      assert a[k..k + |u|] == text[k..k + |u|];
    } else {
      var tail := u[|a| - k..];
      assert tail == text[|a|..k + |u|] == (REDACTED + b)[..|tail|];
      ApartNeverInto(u);
      NeverIntoDrop(u, |a| - k);
      StartsPlaceholder(tail, b);
    }
  }

  lemma {:induction false} NeverIntoDrop(s: string, n: nat)
    requires n <= |s| && NeverInto(s)
    ensures NeverInto(s[n..])
  {
    hide NeverInto;
    if n > 0 {
      NeverIntoTail(s);
      NeverIntoDrop(s[1..], n - 1);
      assert s[1..][n - 1..] == s[n..];
    } else {
      assert s[0..] == s;
    }
  }

  /** A secret containing shorter ones is replaced whole: its surroundings stay, and nothing of it. */
  lemma {:induction false} ReplacedWhole(values: set<string>, a: string, s: string, b: string)
    requires Usable(values) && AllApart(values)
    requires s in values && OnlyWithin(values, a, s, b)
    ensures RedactAll(values, a + s + b) == a + REDACTED + b
    decreases |values|
  {
    hide RedactAll, Ordered, Contains, Replace, OnlyWithin, Apart;
    var text, f := a + s + b, First(values);
    var rest := values - {f};
    RedactStep(values, text);
    if f == s {
      assert text[|a|..|a| + |s|] == s;
      ContainsFromOccurrence(text, s, |a|);
      forall k | OccursAt(text, s, k) ensures k == |a| { NoneOutside(values, a, s, b, s, k); }
      ReplaceOnly(a, s, b);
      forall u | u in rest ensures !Contains(a + REDACTED + b, u) { AroundPlaceholder(values, a, s, b, u); }
      RedactIsIdentityOnClean(rest, a + REDACTED + b);
    } else {
      FirstAbsent(values, a, s, b);
      ReplacedWhole(rest, a, s, b);
    }
  }

  lemma FirstAbsent(values: set<string>, a: string, s: string, b: string)
    requires Usable(values) && s in values && s != First(values) && OnlyWithin(values, a, s, b)
    ensures !Contains(a + s + b, First(values))
    ensures OnlyWithin(values - {First(values)}, a, s, b)
  {
    hide Contains;
    var text, f := a + s + b, First(values);
    if Contains(text, f) {
      var k := OccurrenceOf(text, f);
      NoneOutside(values, a, s, b, f, k);
      assert s[k - |a|..k - |a| + |f|] == text[k..k + |f|];
      ContainsFromOccurrence(s, f, k - |a|);
      FirstNotInLater(values, s);
    }
  }

  lemma RedactStep(values: set<string>, text: string)
    requires Usable(values) && values != {}
    ensures RedactAll(values, text)
         == RedactAll(values - {First(values)},
                      if Contains(text, First(values)) then Replace(text, First(values), REDACTED) else text)
  {
    hide Contains, Replace;
    assert Ordered(values)[1..] == Ordered(values - {First(values)});
  }

  // ---------- structured payloads ----------

  ghost function RedactJson(values: set<string>, v: Json): Json
    requires Usable(values)
    decreases v
  {
    match v
    case String(s) => String(RedactAll(values, s))
    case Array(items) => Array(RedactItems(values, items))
    case Object(fields) => Object(RedactFields(values, fields))
    case _ => v
  }

  ghost function RedactItems(values: set<string>, items: seq<Json>): (r: seq<Json>)
    requires Usable(values)
    ensures |r| == |items|
    decreases items
  {
    if items == [] then [] else [RedactJson(values, items[0])] + RedactItems(values, items[1..])
  }

  ghost function RedactFields(values: set<string>, fields: seq<Field>): (r: seq<Field>)
    requires Usable(values)
    ensures |r| == |fields|
    decreases fields
  {
    if fields == [] then []
    else [Field(fields[0].key, RedactJson(values, fields[0].value))] + RedactFields(values, fields[1..])
  }

  ghost predicate AllClean(values: set<string>, leaves: seq<string>) {
    forall i :: 0 <= i < |leaves| ==> Clean(values, leaves[i])
  }

  predicate AllFree(leaves: seq<string>, s: string) {
    forall i :: 0 <= i < |leaves| ==> !Contains(leaves[i], s)
  }

  /** After redaction no string leaf holds a secret that stands apart, however deep. */
  lemma {:induction false} JsonLeavesClean(values: set<string>, v: Json, s: string)
    requires Usable(values) && s in values && Apart(s)
    ensures AllFree(Leaves(RedactJson(values, v)), s)
    decreases v, 1
  {
    hide Apart, Contains;
    match v
    case String(text) => NoSecretSurvives(values, text);
    case Array(items) => ItemLeavesClean(values, items, s);
    case Object(fields) => FieldLeavesClean(values, fields, s);
    case _ =>
  }

  lemma {:induction false} ItemLeavesClean(values: set<string>, items: seq<Json>, s: string)
    requires Usable(values) && s in values && Apart(s)
    ensures AllFree(LeavesOfItems(RedactItems(values, items)), s)
    decreases items, 0
  {
    hide Apart, Contains;
    if items != [] {
      JsonLeavesClean(values, items[0], s);
      ItemLeavesClean(values, items[1..], s);
      assert RedactItems(values, items)[1..] == RedactItems(values, items[1..]);
    }
  }

  lemma {:induction false} FieldLeavesClean(values: set<string>, fields: seq<Field>, s: string)
    requires Usable(values) && s in values && Apart(s)
    ensures AllFree(LeavesOfFields(RedactFields(values, fields)), s)
    decreases fields, 0
  {
    hide Apart, Contains;
    if fields != [] {
      JsonLeavesClean(values, fields[0].value, s);
      FieldLeavesClean(values, fields[1..], s);
      assert RedactFields(values, fields)[1..] == RedactFields(values, fields[1..]);
    }
  }

  /** A document without secrets in its string leaves is left exactly as it is. */
  lemma {:induction false} JsonUntouched(values: set<string>, v: Json)
    requires Usable(values) && AllClean(values, Leaves(v))
    ensures RedactJson(values, v) == v
    decreases v, 1
  {
    match v
    case String(s) =>
      assert s == Leaves(v)[0];
      RedactIsIdentityOnClean(values, s);
    case Array(items) => ItemsUntouched(values, items);
    case Object(fields) => FieldsUntouched(values, fields);
    case _ =>
  }

  lemma {:induction false} ItemsUntouched(values: set<string>, items: seq<Json>)
    requires Usable(values) && AllClean(values, LeavesOfItems(items))
    ensures RedactItems(values, items) == items
    decreases items, 0
  {
    if items != [] {
      CleanParts(values, Leaves(items[0]), LeavesOfItems(items[1..]));
      JsonUntouched(values, items[0]);
      ItemsUntouched(values, items[1..]);
    }
  }

  lemma {:induction false} FieldsUntouched(values: set<string>, fields: seq<Field>)
    requires Usable(values) && AllClean(values, LeavesOfFields(fields))
    ensures RedactFields(values, fields) == fields
    decreases fields, 0
  {
    if fields != [] {
      CleanParts(values, Leaves(fields[0].value), LeavesOfFields(fields[1..]));
      JsonUntouched(values, fields[0].value);
      FieldsUntouched(values, fields[1..]);
    }
  }

  lemma CleanParts(values: set<string>, a: seq<string>, b: seq<string>)
    requires AllClean(values, a + b)
    ensures AllClean(values, a) && AllClean(values, b)
  {
    hide Clean;
    assert forall i :: 0 <= i < |a| ==> (a + b)[i] == a[i];
    assert forall i :: 0 <= i < |b| ==> (a + b)[|a| + i] == b[i];
  }

  /** A serialized payload: parse, redact every leaf, print; text that does not parse or print is
      redacted as text. `parse` and `show` stand for the JSON library. */
  ghost function RedactPayload(values: set<string>, payload: string,
                               parse: string -> Option<Json>, show: Json -> Option<string>): string
    requires Usable(values)
  {
    if values == {} then payload
    else
      match parse(payload)
      case None => RedactAll(values, payload)
      case Some(v) =>
        match show(RedactJson(values, v))
        case None => RedactAll(values, payload)
        case Some(out) => out
  }

  /** For every JSON library whose printer is undone by its parser: a payload that parses comes out as a text
      that parses to the redacted document, none of whose strings holds a secret that stands apart, however the
      text writes them; any other payload comes out as text without it. */
  lemma PayloadIsClean(values: set<string>, payload: string,
                       parse: string -> Option<Json>, show: Json -> Option<string>, s: string)
    requires Usable(values) && s in values && Apart(s)
    requires forall v :: show(v).Some? ==> parse(show(v).value) == Some(v)
    ensures var out := RedactPayload(values, payload, parse, show);
      if parse(payload).Some? && show(RedactJson(values, parse(payload).value)).Some? then
        parse(out) == Some(RedactJson(values, parse(payload).value)) && AllFree(Leaves(parse(out).value), s)
      else
        out == RedactAll(values, payload) && !Contains(out, s)
  {
    hide Apart, Contains;
    NoSecretSurvives(values, payload);
    if parse(payload).Some? { JsonLeavesClean(values, parse(payload).value, s); }
  }

  // ---------- the registry ----------

  class SecretRegistry {
    var values: set<string>

    /** Only learnable strings are ever held. */
    ghost predicate Valid()
      reads this
    {
      forall s :: s in values ==> IsLearnable(s)
    }

    constructor ()
      ensures Valid() && values == {}
    {
      values := {};
    }

    /** Transport keeps the floor: unlearnable values are dropped. */
    constructor FromValues(strings: seq<string>)
      ensures Valid() && values == Learned(strings)
    {
      values := {};
      new;
      for i := 0 to |strings|
        invariant values == Learned(strings[..i])
      {
        assert strings[..i + 1] == strings[..i] + [strings[i]];
        if IsLearnable(strings[i]) {
          values := values + {strings[i]};
        }
      }
      assert strings[..|strings|] == strings;
    }

    method Learn(value: Json)
      requires Valid()
      modifies this
      ensures Valid() && values == old(values) + Learned(Leaves(value))
    {
      values := Walk(value, values);
    }

    method RedactText(text: string) returns (out: string)
      requires Valid()
      ensures Usable(values) && out == RedactAll(values, text)
    {
      LearnableIsUsable(values);
      var ordered := SortLongestFirst(values);
      out := text;
      assert ordered[0..] == ordered;
      for i := 0 to |ordered|
        invariant AllNonEmpty(ordered)
        invariant Redact(ordered[i..], out) == RedactAll(values, text)
      {
        Sequences.DropDrop(ordered, i, 1);
        var secret := ordered[i];
        if Contains(out, secret) {
          out := Replace(out, secret, REDACTED);
        }
      }
    }

    method RedactValue(value: Json) returns (r: Json)
      requires Valid()
      ensures Usable(values) && r == RedactJson(values, value)
      decreases value
    {
      LearnableIsUsable(values);
      match value {
        case String(s) =>
          var red := RedactText(s);
          r := String(red);
        case Array(items) =>
          var done := [];
          assert items[0..] == items;
          for i := 0 to |items|
            invariant Usable(values) && done + RedactItems(values, items[i..]) == RedactItems(values, items)
          {
            assert items[i..][1..] == items[i + 1..];
            var item := RedactValue(items[i]);
            assert done + ([item] + RedactItems(values, items[i + 1..]))
                == (done + [item]) + RedactItems(values, items[i + 1..]);
            done := done + [item];
          }
          assert done + [] == done;
          r := Array(done);
        case Object(fields) =>
          var done := [];
          assert fields[0..] == fields;
          for i := 0 to |fields|
            invariant Usable(values) && done + RedactFields(values, fields[i..]) == RedactFields(values, fields)
          {
            assert fields[i..][1..] == fields[i + 1..];
            assert fields[i] in fields;
            var inner := RedactValue(fields[i].value);
            var field := Field(fields[i].key, inner);
            assert done + ([field] + RedactFields(values, fields[i + 1..]))
                == (done + [field]) + RedactFields(values, fields[i + 1..]);
            done := done + [field];
          }
          assert done + [] == done;
          r := Object(done);
        case _ =>
          r := value;
      }
    }

    method RedactJsonPayload(payload: string, parse: string -> Option<Json>, show: Json -> Option<string>)
      returns (out: string)
      requires Valid()
      ensures Usable(values) && out == RedactPayload(values, payload, parse, show)
    {
      LearnableIsUsable(values);
      if values == {} {
        return payload;
      }
      match parse(payload) {
        case Some(v) =>
          var redacted := RedactValue(v);
          match show(redacted) {
            case Some(text) => out := text;
            case None => out := RedactText(payload);
          }
        case None =>
          out := RedactText(payload);
      }
    }
  }

  /** A registry rebuilt from the snapshot of another, as a forwarder does, holds the same secrets. */
  lemma SnapshotRestores(values: set<string>, snapshot: seq<string>)
    requires forall s :: s in values ==> IsLearnable(s)
    requires forall s :: s in snapshot <==> s in values
    ensures Learned(snapshot) == values
  {
    hide IsLearnable;
  }

  /** What was learned from a vault document is in no string of any payload redacted afterwards, whatever else
      the registry holds. */
  lemma LearnedNeverLeaves(values: set<string>, vault: Json, secret: string, payload: Json, leaf: string)
    requires values >= Learned(Leaves(vault)) && Usable(values)
    requires secret in Leaves(vault) && IsLearnable(secret) && Apart(secret)
    requires leaf in Leaves(RedactJson(values, payload))
    ensures !Contains(leaf, secret)
  {
    hide Apart, Contains;
    JsonLeavesClean(values, payload, secret);
  }

  lemma LearnableIsUsable(values: set<string>)
    requires forall s :: s in values ==> IsLearnable(s)
    ensures Usable(values)
  {
  }

  method Walk(value: Json, out: set<string>) returns (r: set<string>)
    ensures r == out + Learned(Leaves(value))
    decreases value
  {
    hide IsLearnable, Learned;
    LearnedFew();
    r := out;
    match value {
      case String(s) =>
        LearnedOne(s);
        if IsLearnable(s) {
          r := r + {s};
        }
      case Array(items) =>
        assert items[0..] == items;
        for i := 0 to |items|
          invariant r + Learned(LeavesOfItems(items[i..])) == out + Learned(Leaves(value))
        {
          assert items[i..][1..] == items[i + 1..];
          LearnedMore(r, Leaves(items[i]), LeavesOfItems(items[i + 1..]));
          r := Walk(items[i], r);
        }
      case Object(fields) =>
        assert fields[0..] == fields;
        for i := 0 to |fields|
          invariant r + Learned(LeavesOfFields(fields[i..])) == out + Learned(Leaves(value))
        {
          assert fields[i..][1..] == fields[i + 1..];
          assert fields[i] in fields;
          LearnedMore(r, Leaves(fields[i].value), LeavesOfFields(fields[i + 1..]));
          r := Walk(fields[i].value, r);
        }
      case _ =>
    }
  }

  lemma LearnedFew()
    ensures Learned([]) == {}
  {
  }

  lemma LearnedOne(s: string)
    ensures Learned([s]) == if IsLearnable(s) then {s} else {}
  {
  }

  lemma LearnedMore(r: set<string>, a: seq<string>, b: seq<string>)
    ensures r + Learned(a + b) == (r + Learned(a)) + Learned(b)
  {
    hide IsLearnable;
  }

  /** `sort_by` length descending, then lexicographic: the order is unique, so any sort yields it. */
  lemma OrderedFirst(values: set<string>, first: string)
    requires values != {} && first == First(values)
    ensures Ordered(values) == [first] + Ordered(values - {first})
  {
  }

  method SortLongestFirst(values: set<string>) returns (ordered: seq<string>)
    ensures ordered == Ordered(values)
  {
    ordered := [];
    var rest := values;
    while rest != {}
      invariant ordered + Ordered(rest) == Ordered(values)
      decreases |rest|
    {
      ghost var f := First(rest);
      var s: string :| s in rest && forall u :: u in rest && u != s ==> Before(s, u);
      FirstUnique(s, f, rest);
      OrderedFirst(rest, s);
      Sequences.Associative(ordered, [s], Ordered(rest - {s}));
      ordered := ordered + [s];
      rest := rest - {s};
    }
  }
}
