/** What redaction is made of: which strings are learned, what a replacement does, and where in a document both
    apply. */
module SecretRules {
  import opened Options
  import opened Text
  import opened Secrets
  import Sequences
  import Utf8

  // ---------- what is learned ----------

  /** A string is learned if its UTF-8 encoding has at least eight bytes and not all of it is blank. */
  lemma LearnableExactly(s: string)
    ensures IsLearnable(s) <==> |Utf8.Encode(s)| >= 8 && exists i :: 0 <= i < |s| && !IsWhitespace(s[i])
  {
    hide IsWhitespace, Utf8Len;
    Utf8.LengthIsBytes(s);
    var left, right := TrimSplit(s);
    if Trim(s) == "" {
      assert s == left + right by { Sequences.NothingAdded(left); }
      assert AllBlank(s);
    } else {
      assert s[|left|] == Trim(s)[0];
    }
  }

  // ---------- what a replacement does ----------

  lemma PrefixIsOccurrence(t: string, u: string)
    ensures u <= t <==> OccursAt(t, u, 0)
  {
    if u <= t { assert t[0..|u|] == u; }
  }

  /** The first occurrence is replaced, what stands before it is kept, and what follows is treated likewise; text
      without an occurrence is kept. */
  lemma {:induction false} ReplaceExactly(a: string, u: string, rest: string, with: string)
    requires u != "" && forall k :: 0 <= k < |a| ==> !OccursAt(a + (u + rest), u, k)
    ensures Replace(a + (u + rest), u, with) == a + (with + Replace(rest, u, with))
    decreases |a|
  {
    var t := a + (u + rest);
    if a == "" {
      Sequences.NothingAdded(u + rest);
      Sequences.NothingAdded(with + Replace(rest, u, with));
      assert u <= t && t[|u|..] == rest;
    } else {
      Sequences.OffTheFront(a, u + rest);
      assert !OccursAt(t, u, 0);
      PrefixIsOccurrence(t, u);
      forall k | 0 <= k < |a[1..]|
        ensures !OccursAt(a[1..] + (u + rest), u, k)
      {
        assert !OccursAt(t, u, k + 1);
        assert t[k + 1..k + 1 + |u|] == t[1..][k..k + |u|];
      }
      ReplaceExactly(a[1..], u, rest, with);
      Sequences.OffTheFront(a, with + Replace(rest, u, with));
    }
  }

  lemma WithoutOccurrence(t: string, u: string, with: string)
    requires u != "" && forall k :: !OccursAt(t, u, k)
    ensures Replace(t, u, with) == t
  {
    if Contains(t, u) { var k := OccurrenceOf(t, u); }
    ReplaceNothing(t, u, with);
  }

  // ---------- where in a document ----------

  datatype Step = Item(i: nat) | Value(i: nat)

  /** The part of a document that a path leads to. */
  function At(v: Json, path: seq<Step>): Option<Json>
    decreases |path|
  {
    if path == [] then Some(v)
    else match (path[0], v)
      case (Item(i), Array(items)) => if i < |items| then At(items[i], path[1..]) else None
      case (Value(i), Object(fields)) => if i < |fields| then At(fields[i].value, path[1..]) else None
      case _ => None
  }

  /** The leaves are the strings that paths lead to, wherever they are. */
  lemma LeavesExactly(v: Json, s: string)
    ensures s in Leaves(v) <==> exists path :: At(v, path) == Some(String(s))
  {
    if s in Leaves(v) { var path := PathTo(v, s); }
    if path :| At(v, path) == Some(String(s)) { LeafAt(v, path, s); }
  }

  lemma {:induction false} PathTo(v: Json, s: string) returns (path: seq<Step>)
    requires s in Leaves(v)
    ensures At(v, path) == Some(String(s))
    decreases v, 1
  {
    match v
    case String(t) =>
      path := [];
    case Array(items) =>
      var i, rest := PathToItem(items, s);
      path := [Item(i)] + rest;
      assert path[1..] == rest;
    case Object(fields) =>
      var i, rest := PathToField(fields, s);
      path := [Value(i)] + rest;
      assert path[1..] == rest;
  }

  lemma {:induction false} PathToItem(items: seq<Json>, s: string) returns (i: nat, path: seq<Step>)
    requires s in LeavesOfItems(items)
    ensures i < |items| && At(items[i], path) == Some(String(s))
    decreases items, 0
  {
    if s in Leaves(items[0]) {
      path := PathTo(items[0], s);
      i := 0;
    } else {
      i, path := PathToItem(items[1..], s);
      i := i + 1;
    }
  }

  lemma {:induction false} PathToField(fields: seq<Field>, s: string) returns (i: nat, path: seq<Step>)
    requires s in LeavesOfFields(fields)
    ensures i < |fields| && At(fields[i].value, path) == Some(String(s))
    decreases fields, 0
  {
    if s in Leaves(fields[0].value) {
      path := PathTo(fields[0].value, s);
      i := 0;
    } else {
      i, path := PathToField(fields[1..], s);
      i := i + 1;
    }
  }

  lemma {:induction false} LeafAt(v: Json, path: seq<Step>, s: string)
    requires At(v, path) == Some(String(s))
    ensures s in Leaves(v)
    decreases |path|
  {
    if path != [] {
      match path[0]
      case Item(i) =>
        LeafAt(v.items[i], path[1..], s);
        LeafOfItem(v.items, i, s);
      case Value(i) =>
        LeafAt(v.fields[i].value, path[1..], s);
        LeafOfField(v.fields, i, s);
    }
  }

  lemma {:induction false} LeafOfItem(items: seq<Json>, i: nat, s: string)
    requires i < |items| && s in Leaves(items[i])
    ensures s in LeavesOfItems(items)
    decreases i
  {
    if i > 0 { LeafOfItem(items[1..], i - 1, s); }
  }

  lemma {:induction false} LeafOfField(fields: seq<Field>, i: nat, s: string)
    requires i < |fields| && s in Leaves(fields[i].value)
    ensures s in LeavesOfFields(fields)
    decreases i
  {
    if i > 0 { LeafOfField(fields[1..], i - 1, s); }
  }

  /** Redaction keeps the shape of a document, its keys, numbers, Booleans and nulls, and replaces each string by
      its redaction, at every path. */
  lemma {:induction false} RedactedAt(values: set<string>, v: Json, path: seq<Step>)
    requires Usable(values)
    ensures At(RedactJson(values, v), path) ==
      match At(v, path)
      case None => None
      case Some(part) => Some(RedactJson(values, part))
    decreases |path|
  {
    if path != [] {
      match (path[0], v)
      case (Item(i), Array(items)) =>
        if i < |items| {
          RedactedItem(values, items, i);
          RedactedAt(values, items[i], path[1..]);
        }
      case (Value(i), Object(fields)) =>
        if i < |fields| {
          RedactedField(values, fields, i);
          RedactedAt(values, fields[i].value, path[1..]);
        }
      case _ =>
    }
  }

  /** One part of a document: strings are redacted, containers keep their size and keys, the rest is kept. */
  lemma RedactedPart(values: set<string>, v: Json)
    requires Usable(values)
    ensures match v
      case String(s) => RedactJson(values, v) == String(RedactAll(values, s))
      case Array(items) =>
        var r := RedactJson(values, v);
        r.Array? && |r.items| == |items| && forall i :: 0 <= i < |items| ==> r.items[i] == RedactJson(values, items[i])
      case Object(fields) =>
        var r := RedactJson(values, v);
        r.Object? && |r.fields| == |fields|
        && forall i :: 0 <= i < |fields| ==>
             r.fields[i].key == fields[i].key && r.fields[i].value == RedactJson(values, fields[i].value)
      case _ => RedactJson(values, v) == v
  {
    match v
    case Array(items) =>
      forall i | 0 <= i < |items|
        ensures RedactItems(values, items)[i] == RedactJson(values, items[i])
      {
        RedactedItem(values, items, i);
      }
    case Object(fields) =>
      forall i | 0 <= i < |fields|
        ensures RedactFields(values, fields)[i] == Field(fields[i].key, RedactJson(values, fields[i].value))
      {
        RedactedField(values, fields, i);
      }
    case _ =>
  }

  lemma {:induction false} RedactedItem(values: set<string>, items: seq<Json>, i: nat)
    requires Usable(values) && i < |items|
    ensures RedactItems(values, items)[i] == RedactJson(values, items[i])
    decreases i
  {
    if i > 0 { RedactedItem(values, items[1..], i - 1); }
  }

  lemma {:induction false} RedactedField(values: set<string>, fields: seq<Field>, i: nat)
    requires Usable(values) && i < |fields|
    ensures RedactFields(values, fields)[i] == Field(fields[i].key, RedactJson(values, fields[i].value))
    decreases i
  {
    if i > 0 { RedactedField(values, fields[1..], i - 1); }
  }

  /** With nothing learned a payload is not even parsed. */
  lemma NothingLearned(payload: string, parse: string -> Option<Json>, show: Json -> Option<string>)
    ensures RedactPayload({}, payload, parse, show) == payload
  {
  }
}
