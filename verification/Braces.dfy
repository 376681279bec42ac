/** `braces_balance`: a byte scanner with a depth counter and a quote flag, and the language it accepts. */
module Braces {
  import opened Options
  import opened Words
  import opened Jinja
  import Sequences

  // ---------- the scanner ----------

  predicate IsQuote(b: Byte) {
    b == QUOTE || b == DQUOTE
  }

  /** `{%` and `{#` only begin template tags. */
  predicate OpensTag(s: seq<Byte>) {
    s != [] && (s[0] == PERCENT || s[0] == HASH)
  }

  predicate Accepts(s: seq<Byte>, depth: nat, quote: Option<Byte>)
    decreases |s|
  {
    if s == [] then depth == 0 && quote.None?
    else
      match quote
      case Some(q) =>
        if s[0] == BACKSLASH then Accepts(if |s| == 1 then [] else s[2..], depth, quote)
        else Accepts(s[1..], depth, if s[0] == q then None else quote)
      case None =>
        if IsQuote(s[0]) then Accepts(s[1..], depth, Some(s[0]))
        else if s[0] == LBRACE then !OpensTag(s[1..]) && Accepts(s[1..], depth + 1, None)
        else if s[0] == RBRACE then depth > 0 && Accepts(s[1..], depth - 1, None)
        else Accepts(s[1..], depth, None)
  }

  method BracesBalance(expr: seq<Byte>) returns (balanced: bool)
    ensures balanced <==> Accepts(expr, 0, None)
  {
    var depth: nat := 0;
    var quote: Option<Byte> := None;
    var i := 0;
    assert expr[0..] == expr;
    while i < |expr|
      invariant 0 <= i
      invariant Accepts(if i > |expr| then [] else expr[i..], depth, quote) <==> Accepts(expr, 0, None)
    {
      var b := expr[i];
      var rest := expr[i..];
      Sequences.DropDrop(expr, i, 1);
      if i + 1 < |expr| { Sequences.DropDrop(expr, i, 2); }
      match quote {
        case Some(q) =>
          if b == BACKSLASH {
            i := i + 1;
          } else if b == q {
            quote := None;
          }
        case None =>
          if IsQuote(b) {
            quote := Some(b);
          } else if b == LBRACE {
            if i + 1 < |expr| && (expr[i + 1] == PERCENT || expr[i + 1] == HASH) {
              return false;
            }
            depth := depth + 1;
          } else if b == RBRACE {
            if depth == 0 {
              return false;
            }
            depth := depth - 1;
          }
      }
      i := i + 1;
    }
    balanced := depth == 0 && quote.None?;
  }

  // ---------- the language ----------

  datatype Item = Plain(b: Byte) | Quoted(q: Byte, body: seq<Byte>) | Group(items: seq<Item>)

  /** What stands between two quotes: every backslash takes the next byte with it, and no bare quote. */
  predicate IsBody(body: seq<Byte>, q: Byte) {
    if body == [] then true
    else if body[0] == 0x5C then |body| >= 2 && IsBody(body[2..], q)
    else body[0] != q && IsBody(body[1..], q)
  }

  predicate WellFormed(item: Item) {
    match item
    case Plain(b) => b !in {0x22, 0x27, 0x7B, 0x7D}
    case Quoted(q, body) => q in {0x22, 0x27} && IsBody(body, q)
    case Group(items) => AllWellFormed(items) && (Written(items) == [] || Written(items)[0] !in {0x23, 0x25})
  }

  predicate AllWellFormed(items: seq<Item>) {
    items == [] || (WellFormed(items[0]) && AllWellFormed(items[1..]))
  }

  function WrittenItem(item: Item): seq<Byte> {
    match item
    case Plain(b) => [b]
    case Quoted(q, body) => [q] + body + [q]
    case Group(items) => [0x7B] + Written(items) + [0x7D]
  }

  function Written(items: seq<Item>): seq<Byte> {
    if items == [] then [] else WrittenItem(items[0]) + Written(items[1..])
  }

  /** Text whose braces nest outside string literals. */
  ghost predicate Nested(s: seq<Byte>) {
    exists items :: AllWellFormed(items) && Written(items) == s
  }

  // ---------- nested text is accepted ----------

  lemma {:induction false} BodySkipped(body: seq<Byte>, q: Byte, rest: seq<Byte>, depth: nat)
    requires IsQuote(q) && IsBody(body, q)
    ensures Accepts(body + ([q] + rest), depth, Some(q)) == Accepts(rest, depth, None)
    decreases |body|
  {
    var s := body + ([q] + rest);
    if body == [] {
      assert s[1..] == rest;
    } else if body[0] == BACKSLASH {
      assert s[2..] == body[2..] + ([q] + rest);
      BodySkipped(body[2..], q, rest, depth);
    } else {
      assert s[1..] == body[1..] + ([q] + rest);
      BodySkipped(body[1..], q, rest, depth);
    }
  }

  lemma {:induction false} ItemSkipped(item: Item, rest: seq<Byte>, depth: nat)
    requires WellFormed(item)
    ensures Accepts(WrittenItem(item) + rest, depth, None) == Accepts(rest, depth, None)
    decreases item, 1
  {
    var s := WrittenItem(item) + rest;
    match item
    case Plain(b) =>
      assert s[1..] == rest;
    case Quoted(q, body) =>
      assert s[1..] == body + ([q] + rest);
      BodySkipped(body, q, rest, depth);
    case Group(items) =>
      var tail := [RBRACE] + rest;
      assert s[1..] == Written(items) + tail;
      ItemsSkipped(items, tail, depth + 1);
      assert tail[1..] == rest;
  }

  lemma {:induction false} ItemsSkipped(items: seq<Item>, rest: seq<Byte>, depth: nat)
    requires AllWellFormed(items)
    ensures Accepts(Written(items) + rest, depth, None) == Accepts(rest, depth, None)
    decreases items, 0
  {
    if items == [] {
      Sequences.NothingAdded(rest);
    } else {
      var more := Written(items[1..]) + rest;
      Sequences.Associative(WrittenItem(items[0]), Written(items[1..]), rest);
      ItemSkipped(items[0], more, depth);
      ItemsSkipped(items[1..], rest, depth);
    }
  }

  // ---------- accepted text is nested ----------

  lemma {:induction false} BodySplit(s: seq<Byte>, q: Byte, depth: nat) returns (body: seq<Byte>, rest: seq<Byte>)
    requires IsQuote(q) && Accepts(s, depth, Some(q))
    ensures s == body + [q] + rest && IsBody(body, q) && Accepts(rest, depth, None)
    decreases |s|
  {
    if s[0] == BACKSLASH {
      body, rest := BodySplit(s[2..], q, depth);
      body := s[..2] + body;
    } else if s[0] == q {
      body, rest := [], s[1..];
    } else {
      body, rest := BodySplit(s[1..], q, depth);
      body := [s[0]] + body;
    }
  }

  /** Accepted text splits at the brace that closes the current group, or is one run of items. */
  lemma {:induction false} ItemsSplit(s: seq<Byte>, depth: nat) returns (items: seq<Item>, rest: seq<Byte>)
    requires Accepts(s, depth, None)
    ensures AllWellFormed(items)
    ensures depth == 0 ==> s == Written(items)
    ensures depth > 0 ==> s == Written(items) + ([RBRACE] + rest) && Accepts(rest, depth - 1, None)
    decreases |s|
  {
    if s == [] {
      items, rest := [], [];
    } else if s[0] == RBRACE {
      items, rest := [], s[1..];
    } else {
      var first, more := ItemSplit(s, depth);
      items, rest := ItemsSplit(more, depth);
      Sequences.Associative(WrittenItem(first), Written(items), [RBRACE] + rest);
      items := [first] + items;
    }
  }

  lemma {:induction false} ItemSplit(s: seq<Byte>, depth: nat) returns (item: Item, rest: seq<Byte>)
    requires s != [] && s[0] != RBRACE && Accepts(s, depth, None)
    ensures WellFormed(item) && s == WrittenItem(item) + rest && |rest| < |s| && Accepts(rest, depth, None)
    decreases |s|, 0
  {
    if IsQuote(s[0]) {
      var body: seq<Byte>;
      body, rest := BodySplit(s[1..], s[0], depth);
      item := Quoted(s[0], body);
      assert s == [s[0]] + (body + [s[0]] + rest);
    } else if s[0] == LBRACE {
      var items: seq<Item>;
      items, rest := ItemsSplit(s[1..], depth + 1);
      item := Group(items);
      assert Written(items) != [] ==> s[1] == Written(items)[0];
      assert s == [LBRACE] + (Written(items) + ([RBRACE] + rest));
    } else {
      item, rest := Plain(s[0]), s[1..];
    }
  }

  /** The counter machine accepts exactly the text whose braces nest. */
  lemma AcceptsIsNested(s: seq<Byte>)
    ensures Accepts(s, 0, None) <==> Nested(s)
  {
    if Accepts(s, 0, None) {
      var items, _ := ItemsSplit(s, 0);
    }
    if Nested(s) {
      var items :| AllWellFormed(items) && Written(items) == s;
      ItemsSkipped(items, [], 0);
      Sequences.NothingAdded(s);
    }
  }

  /** A brace that closes nothing is refused, whatever follows: the case that the expression compiler cannot take. */
  lemma StrayBraceRefused(a: seq<Byte>, b: seq<Byte>)
    requires Accepts(a, 0, None)
    ensures !Accepts(a + ([RBRACE] + b), 0, None)
  {
    var items, _ := ItemsSplit(a, 0);
    ItemsSkipped(items, [RBRACE] + b, 0);
  }

  /** Balanced expressions can be put side by side and put in braces. */
  lemma BalancedCompose(a: seq<Byte>, b: seq<Byte>)
    requires Accepts(a, 0, None)
    ensures Accepts(a + b, 0, None) <==> Accepts(b, 0, None)
    ensures Accepts([LBRACE] + a + [RBRACE], 0, None) <==> !OpensTag(a)
  {
    var items, _ := ItemsSplit(a, 0);
    ItemsSkipped(items, b, 0);
    ItemsSkipped(items, [RBRACE], 1);
    var s := [LBRACE] + a + [RBRACE];
    assert s[1..] == a + [RBRACE];
    assert [RBRACE][1..] == [];
  }
}
