/** The scanner's rules, byte by byte: which byte sequences enter and leave code, comments and strings, and which
    subscripts are rewritten.  Together they determine the result for every source. */
module JinjaRules {
  import opened Words
  import opened Jinja
  import Sequences

  predicate DecimalDigit(b: Byte) {
    0x30 <= b <= 0x39
  }

  /** An ASCII letter or digit, `_`, `]` or `)`. */
  predicate ValueByte(b: Byte) {
    0x41 <= b <= 0x5A || 0x61 <= b <= 0x7A || DecimalDigit(b) || b == 0x5F || b == 0x5D || b == 0x29
  }

  predicate StartsWithDigit(s: seq<Byte>) {
    s != [] && DecimalDigit(s[0])
  }

  // ---------- text ----------

  /** `{{` and `{%` enter code, `{#` a comment. */
  lemma Opening(rest: seq<Byte>, prev: Byte)
    ensures Rewrite([0x7B, 0x7B] + rest, Text, prev) == [0x7B, 0x7B] + Rewrite(rest, Code, 0x7B)
    ensures Rewrite([0x7B, 0x25] + rest, Text, prev) == [0x7B, 0x25] + Rewrite(rest, Code, 0x25)
    ensures Rewrite([0x7B, 0x23] + rest, Text, prev) == [0x7B, 0x23] + Rewrite(rest, Comment, 0x23)
  {
    TwoTaken(0x7B, 0x7B, rest, Text, prev);
    TwoTaken(0x7B, 0x25, rest, Text, prev);
    TwoTaken(0x7B, 0x23, rest, Text, prev);
  }

  /** Any other byte of text is copied. */
  lemma TextByte(b: Byte, rest: seq<Byte>, prev: Byte)
    requires !(b == 0x7B && rest != [] && rest[0] in {0x7B, 0x25, 0x23})
    ensures Rewrite([b] + rest, Text, prev) == [b] + Rewrite(rest, Text, b)
  {
    OneTaken(b, rest, Text, prev);
  }

  // ---------- comments ----------

  lemma CommentByte(b: Byte, rest: seq<Byte>, prev: Byte)
    ensures Rewrite([0x23, 0x7D] + rest, Comment, prev) == [0x23, 0x7D] + Rewrite(rest, Text, 0x7D)
    ensures !(b == 0x23 && rest != [] && rest[0] == 0x7D) ==>
      Rewrite([b] + rest, Comment, prev) == [b] + Rewrite(rest, Comment, b)
  {
    TwoTaken(0x23, 0x7D, rest, Comment, prev);
    OneTaken(b, rest, Comment, prev);
  }

  // ---------- strings ----------

  /** A backslash takes the next byte with it; the quote that opened the string ends it. */
  lemma StringByte(q: Byte, b: Byte, rest: seq<Byte>, prev: Byte)
    ensures Rewrite([0x5C, b] + rest, Str(q), prev) == [0x5C, b] + Rewrite(rest, Str(q), b)
    ensures q != 0x5C ==> Rewrite([q] + rest, Str(q), prev) == [q] + Rewrite(rest, Code, q)
    ensures b != q && (b != 0x5C || rest == []) ==>
      Rewrite([b] + rest, Str(q), prev) == [b] + Rewrite(rest, Str(q), b)
  {
    TwoTaken(0x5C, b, rest, Str(q), prev);
    OneTaken(q, rest, Str(q), prev);
    OneTaken(b, rest, Str(q), prev);
  }

  // ---------- code ----------

  /** `}}` and `%}` leave code, both quotes open a string. */
  lemma Closing(rest: seq<Byte>, prev: Byte)
    ensures Rewrite([0x7D, 0x7D] + rest, Code, prev) == [0x7D, 0x7D] + Rewrite(rest, Text, 0x7D)
    ensures Rewrite([0x25, 0x7D] + rest, Code, prev) == [0x25, 0x7D] + Rewrite(rest, Text, 0x7D)
    ensures Rewrite([0x27] + rest, Code, prev) == [0x27] + Rewrite(rest, Str(0x27), 0x27)
    ensures Rewrite([0x22] + rest, Code, prev) == [0x22] + Rewrite(rest, Str(0x22), 0x22)
  {
    TwoTaken(0x7D, 0x7D, rest, Code, prev);
    TwoTaken(0x25, 0x7D, rest, Code, prev);
    OneTaken(0x27, rest, Code, prev);
    OneTaken(0x22, rest, Code, prev);
  }

  /** Any other byte of code is copied, a dot among them unless it is an index. */
  lemma CodeByte(b: Byte, rest: seq<Byte>, prev: Byte)
    requires b != 0x27 && b != 0x22
    requires !((b == 0x7D || b == 0x25) && rest != [] && rest[0] == 0x7D)
    requires !(b == 0x2E && StartsWithDigit(rest) && ValueByte(prev))
    ensures Rewrite([b] + rest, Code, prev) == [b] + Rewrite(rest, Code, b)
  {
    OneTaken(b, rest, Code, prev);
  }

  /** Digits behind a dot behind the last byte of a value become an index in square brackets. */
  lemma Subscript(c: Byte, ds: seq<Byte>, rest: seq<Byte>, prev: Byte)
    requires ValueByte(c) && ds != [] && (forall i :: 0 <= i < |ds| ==> DecimalDigit(ds[i])) && !StartsWithDigit(rest)
    ensures Rewrite([c] + ([0x2E] + ds + rest), Code, prev)
         == [c] + ([0x5B] + ds + [0x5D] + Rewrite(rest, Code, 0x5D))
  {
    hide Rewrite;
    var s := [0x2E] + ds + rest;
    CodeByte(c, s, prev);
    RewriteStep(s, Code, c);
    assert s[1..] == ds + rest && s[1] == ds[0];
    DigitsOf(ds, rest);
    var m := Scan(s, Code, c);
    assert m == Move(1 + |ds|, Code, true);
    assert s[1..m.take] == ds && s[m.take..] == rest;
    assert Emit(s, m) == [0x5B] + ds + [0x5D];
  }

  /** Behind any other byte the dot and the digits are copied. */
  lemma NoSubscript(ds: seq<Byte>, rest: seq<Byte>, prev: Byte)
    requires !ValueByte(prev) && ds != [] && forall i :: 0 <= i < |ds| ==> DecimalDigit(ds[i])
    ensures Rewrite([0x2E] + (ds + rest), Code, prev) == [0x2E] + (ds + Rewrite(rest, Code, ds[|ds| - 1]))
  {
    hide Rewrite;
    CodeByte(0x2E, ds + rest, prev);
    PlainPasses(ds, rest, 0x2E);
  }

  /** `{{a.0}}` becomes `{{a[0]}}`. */
  lemma SubscriptExample()
    ensures Rewrite([0x7B, 0x7B, 0x61, 0x2E, 0x30, 0x7D, 0x7D], Text, 0)
         == [0x7B, 0x7B, 0x61, 0x5B, 0x30, 0x5D, 0x7D, 0x7D]
  {
    hide Rewrite;
    var end: seq<Byte> := [0x7D, 0x7D];
    var code: seq<Byte> := [0x61] + ([0x2E] + [0x30] + end);
    assert [0x7B, 0x7B, 0x61, 0x2E, 0x30, 0x7D, 0x7D] == [0x7B, 0x7B] + code;
    Opening(code, 0);
    Subscript(0x61, [0x30], end, 0x7B);
    Closing([], 0x5D);
    assert end + [] == end;
    Ended(Text, 0x7D);
  }

  lemma Ended(st: St, prev: Byte)
    ensures Rewrite([], st, prev) == []
  {
  }

  // ---------- one move ----------

  lemma OneTaken(b: Byte, rest: seq<Byte>, st: St, prev: Byte)
    ensures var s := [b] + rest;
      var m := Scan(s, st, prev);
      m.take == 1 && !m.subscript ==> Rewrite(s, st, prev) == [b] + Rewrite(rest, m.next, b)
  {
    hide Rewrite;
    var s := [b] + rest;
    RewriteStep(s, st, prev);
    assert s[1..] == rest && s[..1] == [b];
  }

  lemma TwoTaken(a: Byte, b: Byte, rest: seq<Byte>, st: St, prev: Byte)
    ensures var s := [a, b] + rest;
      var m := Scan(s, st, prev);
      m.take == 2 && !m.subscript ==> Rewrite(s, st, prev) == [a, b] + Rewrite(rest, m.next, b)
  {
    hide Rewrite;
    var s := [a, b] + rest;
    RewriteStep(s, st, prev);
    assert s[2..] == rest && s[..2] == [a, b];
  }

  lemma {:induction false} DigitsOf(ds: seq<Byte>, rest: seq<Byte>)
    requires (forall i :: 0 <= i < |ds| ==> DecimalDigit(ds[i])) && !StartsWithDigit(rest)
    ensures Digits(ds + rest) == |ds|
    decreases |ds|
  {
    if ds == [] {
      Sequences.NothingAdded(rest);
    } else {
      Sequences.OffTheFront(ds, rest);
      DigitsOf(ds[1..], rest);
    }
  }
}
