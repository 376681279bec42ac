/** `prepare_jinja_source`: the rewrite of `a.0` into `a[0]` inside Jinja code, over the bytes of a template. */
module Jinja {
  import opened Words
  import Utf8
  import Sequences

  const LBRACE: Byte := 0x7B
  const RBRACE: Byte := 0x7D
  const PERCENT: Byte := 0x25
  const HASH: Byte := 0x23
  const QUOTE: Byte := 0x27
  const DQUOTE: Byte := 0x22
  const BACKSLASH: Byte := 0x5C
  const DOT: Byte := 0x2E
  const LBRACKET: Byte := 0x5B
  const RBRACKET: Byte := 0x5D
  const RPAREN: Byte := 0x29
  const UNDERSCORE: Byte := 0x5F

  datatype St = Text | Code | Comment | Str(quote: Byte)

  predicate IsDigit(b: Byte) {
    0x30 <= b <= 0x39
  }

  /** A byte after which `.0` is an index: the end of a name, `]` or `)`. */
  predicate EndsValue(b: Byte) {
    IsDigit(b) || 0x41 <= b <= 0x5A || 0x61 <= b <= 0x7A || b == UNDERSCORE || b == RBRACKET || b == RPAREN
  }

  /** `.` followed by a digit: the pattern whose absence is the fast path. */
  predicate CandidateAt(s: seq<Byte>, i: int) {
    0 <= i && i + 1 < |s| && s[i] == DOT && IsDigit(s[i + 1])
  }

  predicate HasCandidate(s: seq<Byte>) {
    exists i | 0 <= i < |s| :: CandidateAt(s, i)
  }

  /** How many leading bytes are digits. */
  function Digits(s: seq<Byte>): (n: nat)
    ensures n <= |s|
    ensures forall i :: 0 <= i < n ==> IsDigit(s[i])
    ensures n < |s| ==> !IsDigit(s[n])
  {
    if s != [] && IsDigit(s[0]) then 1 + Digits(s[1..]) else 0
  }

  // ---------- one transition of the scanner ----------

  /** What the scanner does at the front of the text: how many bytes it takes, where it goes, and whether
      it rewrites a subscript. */
  datatype Move = Move(take: nat, next: St, subscript: bool)

  function Scan(s: seq<Byte>, st: St, prev: Byte): (m: Move)
    requires s != []
    ensures 1 <= m.take <= |s|
    ensures m.subscript ==> m.take >= 2
  {
    var b := s[0];
    match st
    case Text =>
      if b == LBRACE && |s| > 1 && (s[1] == LBRACE || s[1] == PERCENT) then Move(2, Code, false)
      else if b == LBRACE && |s| > 1 && s[1] == HASH then Move(2, Comment, false)
      else Move(1, Text, false)
    case Comment =>
      if b == HASH && |s| > 1 && s[1] == RBRACE then Move(2, Text, false) else Move(1, Comment, false)
    case Code =>
      if (b == RBRACE || b == PERCENT) && |s| > 1 && s[1] == RBRACE then Move(2, Text, false)
      else if b == QUOTE || b == DQUOTE then Move(1, Str(b), false)
      else if b == DOT && |s| > 1 && IsDigit(s[1]) && EndsValue(prev) then Move(1 + Digits(s[1..]), Code, true)
      else Move(1, Code, false)
    case Str(q) =>
      if b == BACKSLASH && |s| > 1 then Move(2, Str(q), false)
      else if b == q then Move(1, Code, false)
      else Move(1, Str(q), false)
  }

  /** The bytes written for a move. */
  function Emit(s: seq<Byte>, m: Move): (out: seq<Byte>)
    requires m.take <= |s| && m.take >= 1
    ensures out != []
    ensures |out| == m.take + if m.subscript then 1 else 0
  {
    if m.subscript then [LBRACKET] + s[1..m.take] + [RBRACKET] else s[..m.take]
  }

  function Last(s: seq<Byte>): Byte
    requires s != []
  {
    s[|s| - 1]
  }

  /** The rest of the output from state `st`, `prev` being the last byte written. */
  function Rewrite(s: seq<Byte>, st: St, prev: Byte): seq<Byte>
    decreases |s|
  {
    if s == [] then []
    else
      var m := Scan(s, st, prev);
      var out := Emit(s, m);
      out + Rewrite(s[m.take..], m.next, Last(out))
  }

  /** `prepare_jinja_source`.  The byte before the output is never looked at outside code, and code starts
      with two written bytes, so its initial value does not matter. */
  function Prepare(s: seq<Byte>): seq<Byte> {
    if !HasCandidate(s) then s else Rewrite(s, Text, 0)
  }

  // ---------- the second pass sees what the first pass saw ----------

  lemma RewriteStep(s: seq<Byte>, st: St, prev: Byte)
    requires s != []
    ensures var m := Scan(s, st, prev);
      Rewrite(s, st, prev) == Emit(s, m) + Rewrite(s[m.take..], m.next, Last(Emit(s, m)))
  {
  }

  lemma FirstByte(s: seq<Byte>, st: St, prev: Byte)
    ensures Rewrite(s, st, prev) == [] <==> s == []
    ensures s != [] ==>
      Rewrite(s, st, prev)[0] == if Scan(s, st, prev).subscript then LBRACKET else s[0]
  {
  }

  /** The output of a plain move is scanned as the same move. */
  lemma ScanAgain(s: seq<Byte>, st: St, prev: Byte)
    requires s != [] && !Scan(s, st, prev).subscript
    ensures Scan(Rewrite(s, st, prev), st, prev) == Scan(s, st, prev)
  {
    hide Rewrite;
    var m := Scan(s, st, prev);
    var out := Rewrite(s, st, prev);
    var rest := s[m.take..];
    RewriteStep(s, st, prev);
    FirstByte(rest, m.next, Last(Emit(s, m)));
    assert forall i :: 0 <= i < m.take ==> out[i] == s[i];
    assert |out| == m.take <==> rest == [];
    if m.take == 1 && rest != [] {
      assert out[1] == Rewrite(rest, m.next, Last(Emit(s, m)))[0];
      assert rest[0] == s[1];
    }
  }

  predicate PlainInCode(b: Byte) {
    IsDigit(b) || b == LBRACKET || b == RBRACKET
  }

  lemma PlainScan(s: seq<Byte>, prev: Byte)
    requires s != [] && PlainInCode(s[0])
    ensures Scan(s, Code, prev) == Move(1, Code, false)
    ensures Emit(s, Move(1, Code, false)) == [s[0]]
  {
  }

  /** Digits and brackets pass through code unchanged. */
  lemma {:induction false} PlainPasses(x: seq<Byte>, rest: seq<Byte>, prev: Byte)
    requires forall i :: 0 <= i < |x| ==> PlainInCode(x[i])
    ensures Rewrite(x + rest, Code, prev) == x + Rewrite(rest, Code, if x == [] then prev else Last(x))
    decreases |x|
  {
    hide Rewrite, Scan, Emit;
    if x == [] {
      Sequences.NothingAdded(rest);
      Sequences.NothingAdded(Rewrite(rest, Code, prev));
    } else {
      var end := Rewrite(rest, Code, Last(x));
      Sequences.OffTheFront(x, rest);
      PlainScan(x + rest, prev);
      RewriteStep(x + rest, Code, prev);
      PlainPasses(x[1..], rest, x[0]);
      Sequences.OffTheFront(x, end);
    }
  }

  /** The written form of a subscript. */
  lemma SubscriptShape(s: seq<Byte>, prev: Byte)
    requires s != [] && Scan(s, Code, prev).subscript
    ensures var m := Scan(s, Code, prev);
      m.next == Code && Last(Emit(s, m)) == RBRACKET && forall i :: 0 <= i < |Emit(s, m)| ==> PlainInCode(Emit(s, m)[i])
  {
    var m := Scan(s, Code, prev);
    assert forall i :: 0 <= i < Digits(s[1..]) ==> IsDigit(s[1..][i]);
  }

  lemma OnlyCodeSubscripts(s: seq<Byte>, st: St, prev: Byte)
    requires s != [] && Scan(s, st, prev).subscript
    ensures st == Code
  {
  }

  lemma {:induction false} RewriteIdempotent(s: seq<Byte>, st: St, prev: Byte)
    ensures Rewrite(Rewrite(s, st, prev), st, prev) == Rewrite(s, st, prev)
    decreases |s|
  {
    if s != [] {
      hide Rewrite, Scan;
      var m := Scan(s, st, prev);
      var out := Emit(s, m);
      var rest := s[m.take..];
      var tail := Rewrite(rest, m.next, Last(out));
      RewriteStep(s, st, prev);
      RewriteIdempotent(rest, m.next, Last(out));
      if m.subscript {
        OnlyCodeSubscripts(s, st, prev);
        SubscriptShape(s, prev);
        PlainPasses(out, tail, prev);
      } else {
        ScanAgain(s, st, prev);
        Sequences.TakeDrop(out, tail);
        RewriteStep(out + tail, st, prev);
      }
    }
  }

  // ---------- the fast path ----------

  /** Without a candidate the scanner changes nothing, from any state. */
  lemma {:induction false} NoCandidateNoChange(s: seq<Byte>, st: St, prev: Byte)
    requires !HasCandidate(s)
    ensures Rewrite(s, st, prev) == s
    decreases |s|
  {
    if s != [] {
      hide Rewrite, Scan, Emit;
      var m := Scan(s, st, prev);
      RewriteStep(s, st, prev);
      NotASubscript(s, st, prev);
      PlainEmit(s, m);
      NoCandidateLater(s, m.take);
      NoCandidateNoChange(s[m.take..], m.next, Last(Emit(s, m)));
      Sequences.Rejoin(s, m.take);
    }
  }

  lemma NotASubscript(s: seq<Byte>, st: St, prev: Byte)
    requires s != [] && !HasCandidate(s)
    ensures !Scan(s, st, prev).subscript
  {
    assert !CandidateAt(s, 0);
  }

  lemma NoCandidateLater(s: seq<Byte>, n: nat)
    requires n <= |s| && !HasCandidate(s)
    ensures !HasCandidate(s[n..])
  {
    forall i | 0 <= i < |s[n..]|
      ensures !CandidateAt(s[n..], i)
    {
      assert !CandidateAt(s, n + i);
    }
  }

  /** The early return is an optimisation only: with or without it the result is the same. */
  lemma FastPathIsSlowPath(s: seq<Byte>)
    ensures Prepare(s) == Rewrite(s, Text, 0)
  {
    if !HasCandidate(s) { NoCandidateNoChange(s, Text, 0); }
  }

  lemma PrepareIdempotent(s: seq<Byte>)
    ensures Prepare(Prepare(s)) == Prepare(s)
  {
    FastPathIsSlowPath(s);
    FastPathIsSlowPath(Prepare(s));
    RewriteIdempotent(s, Text, 0);
  }

  // ---------- what is kept ----------

  /** The bytes the scanner takes outside code: text, comments and string literals, in order. */
  function Outside(s: seq<Byte>, st: St, prev: Byte): seq<Byte>
    decreases |s|
  {
    if s == [] then []
    else
      var m := Scan(s, st, prev);
      (if st.Code? then [] else s[..m.take]) + Outside(s[m.take..], m.next, Last(Emit(s, m)))
  }

  /** How many subscripts are rewritten. */
  function Subscripts(s: seq<Byte>, st: St, prev: Byte): nat
    decreases |s|
  {
    if s == [] then 0
    else
      var m := Scan(s, st, prev);
      (if m.subscript then 1 else 0) + Subscripts(s[m.take..], m.next, Last(Emit(s, m)))
  }

  lemma {:induction false} GrowsBySubscripts(s: seq<Byte>, st: St, prev: Byte)
    ensures |Rewrite(s, st, prev)| == |s| + Subscripts(s, st, prev)
    decreases |s|
  {
    if s != [] {
      var m := Scan(s, st, prev);
      GrowsBySubscripts(s[m.take..], m.next, Last(Emit(s, m)));
    }
  }

  lemma OutsideStep(s: seq<Byte>, st: St, prev: Byte)
    requires s != []
    ensures var m := Scan(s, st, prev);
      Outside(s, st, prev) == (if st.Code? then [] else s[..m.take]) + Outside(s[m.take..], m.next, Last(Emit(s, m)))
  {
  }

  lemma {:induction false} PlainIsCode(x: seq<Byte>, rest: seq<Byte>, prev: Byte)
    requires forall i :: 0 <= i < |x| ==> PlainInCode(x[i])
    ensures Outside(x + rest, Code, prev) == Outside(rest, Code, if x == [] then prev else Last(x))
    decreases |x|
  {
    hide Outside, Scan, Emit;
    if x == [] {
      Sequences.NothingAdded(rest);
    } else {
      Sequences.OffTheFront(x, rest);
      Sequences.NothingAdded(Outside(x[1..] + rest, Code, x[0]));
      PlainScan(x + rest, prev);
      OutsideStep(x + rest, Code, prev);
      PlainIsCode(x[1..], rest, x[0]);
    }
  }

  /** Read back, the output has exactly the text, comment and string bytes of the input, in order. */
  lemma {:induction false} OutsideKept(s: seq<Byte>, st: St, prev: Byte)
    ensures Outside(Rewrite(s, st, prev), st, prev) == Outside(s, st, prev)
    decreases |s|
  {
    if s != [] {
      hide Rewrite, Scan, Outside;
      var m := Scan(s, st, prev);
      var out := Emit(s, m);
      var rest := s[m.take..];
      var tail := Rewrite(rest, m.next, Last(out));
      RewriteStep(s, st, prev);
      OutsideStep(s, st, prev);
      OutsideKept(rest, m.next, Last(out));
      if m.subscript {
        OnlyCodeSubscripts(s, st, prev);
        SubscriptShape(s, prev);
        PlainIsCode(out, tail, prev);
      } else {
        ScanAgain(s, st, prev);
        Sequences.TakeDrop(out, tail);
        OutsideStep(out + tail, st, prev);
      }
    }
  }

  /** Everything but dots and square brackets. */
  function Solid(s: seq<Byte>): seq<Byte> {
    if s == [] then []
    else (if s[0] == DOT || s[0] == LBRACKET || s[0] == RBRACKET then [] else [s[0]]) + Solid(s[1..])
  }

  lemma {:induction false} SolidConcat(a: seq<Byte>, b: seq<Byte>)
    ensures Solid(a + b) == Solid(a) + Solid(b)
    decreases |a|
  {
    if a == [] {
      Sequences.NothingAdded(b);
    } else {
      Sequences.OffTheFront(a, b);
      SolidConcat(a[1..], b);
    }
  }

  lemma SolidOfEmit(s: seq<Byte>, st: St, prev: Byte)
    requires s != []
    ensures Solid(Emit(s, Scan(s, st, prev))) == Solid(s[..Scan(s, st, prev).take])
  {
    var m := Scan(s, st, prev);
    if m.subscript {
      var digits := s[1..m.take];
      assert s[..m.take] == [DOT] + digits;
      SolidConcat([LBRACKET] + digits, [RBRACKET]);
      SolidConcat([LBRACKET], digits);
      SolidConcat([DOT], digits);
      SolidOfPunctuation();
      Sequences.NothingAdded(Solid(digits));
    }
  }

  lemma SolidOfPunctuation()
    ensures Solid([DOT]) == Solid([LBRACKET]) == Solid([RBRACKET]) == []
  {
    assert [DOT][1..] == [] && [LBRACKET][1..] == [] && [RBRACKET][1..] == [];
  }

  /** In code too, no byte is lost, added or moved except dots and square brackets. */
  lemma {:induction false} SolidKept(s: seq<Byte>, st: St, prev: Byte)
    ensures Solid(Rewrite(s, st, prev)) == Solid(s)
    decreases |s|
  {
    hide Solid, Scan, Emit, Rewrite;
    if s == [] {
      RewriteNothing(st, prev);
    } else {
      var m := Scan(s, st, prev);
      RewriteStep(s, st, prev);
      SolidOfEmit(s, st, prev);
      SolidKept(s[m.take..], m.next, Last(Emit(s, m)));
      SolidConcat(Emit(s, m), Rewrite(s[m.take..], m.next, Last(Emit(s, m))));
      SolidConcat(s[..m.take], s[m.take..]);
      Sequences.Rejoin(s, m.take);
    }
  }

  // ---------- the output is valid UTF-8 ----------

  lemma {:induction false} AsciiKeepsStart(x: seq<Byte>)
    requires forall i :: 0 <= i < |x| ==> x[i] <= 0x7F
    ensures Utf8.After(Utf8.Start, x) == Utf8.Start
  {
    if x != [] { AsciiKeepsStart(x[1..]); }
  }

  lemma {:induction false} TracksAfter(q: Utf8.State, x: seq<Byte>)
    requires Utf8.Tracks(q)
    ensures Utf8.Tracks(Utf8.After(q, x))
    decreases |x|
  {
    if x != [] {
      Utf8.TracksKept(q, x[0]);
      TracksAfter(Utf8.Next(q, x[0]), x[1..]);
    }
  }

  /** A text that starts with ASCII can only be accepted from the start of a character. */
  lemma AsciiFirst(q: Utf8.State, s: seq<Byte>)
    requires s != [] && s[0] <= 0x7F && Utf8.Tracks(q) && Utf8.After(q, s) == Utf8.Start
    ensures q == Utf8.Start
  {
    Utf8.AsciiOnlyAtStart(q, s[0]);
    Utf8.BadStays(s[1..]);
  }

  lemma {:induction false} RewriteKeepsUtf8(s: seq<Byte>, st: St, prev: Byte, q: Utf8.State)
    requires Utf8.Tracks(q) && Utf8.After(q, s) == Utf8.Start
    ensures Utf8.After(q, Rewrite(s, st, prev)) == Utf8.Start
    decreases |s|
  {
    if s != [] {
      hide Rewrite, Scan, Emit, Utf8.After, Utf8.Tracks;
      var m := Scan(s, st, prev);
      var out := Emit(s, m);
      var head, rest := s[..m.take], s[m.take..];
      RewriteStep(s, st, prev);
      Sequences.Rejoin(s, m.take);
      Utf8.AfterConcat(q, head, rest);
      Utf8.AfterConcat(q, out, Rewrite(rest, m.next, Last(out)));
      if m.subscript {
        SubscriptAscii(s, st, prev);
        AsciiFirst(q, s);
        AsciiKeepsStart(head);
        AsciiKeepsStart(out);
      } else {
        PlainEmit(s, m);
      }
      TracksAfter(q, head);
      RewriteKeepsUtf8(rest, m.next, Last(out), Utf8.After(q, head));
    }
  }

  lemma PlainEmit(s: seq<Byte>, m: Move)
    requires 1 <= m.take <= |s| && !m.subscript
    ensures Emit(s, m) == s[..m.take]
  {
  }

  lemma SubscriptAscii(s: seq<Byte>, st: St, prev: Byte)
    requires s != [] && Scan(s, st, prev).subscript
    ensures var m := Scan(s, st, prev);
      s[0] <= 0x7F && (forall i :: 0 <= i < m.take ==> s[i] <= 0x7F)
      && forall i :: 0 <= i < |Emit(s, m)| ==> Emit(s, m)[i] <= 0x7F
  {
    OnlyCodeSubscripts(s, st, prev);
    SubscriptShape(s, prev);
    var m := Scan(s, st, prev);
    assert forall i :: 1 <= i < m.take ==> s[i] == s[1..][i - 1] && IsDigit(s[1..][i - 1]);
  }

  /** Valid UTF-8 in, valid UTF-8 out: the final conversion never fails. */
  lemma PrepareKeepsUtf8(s: seq<Byte>)
    requires Utf8.Valid(s)
    ensures Utf8.Valid(Prepare(s))
  {
    Utf8.AutomatonIsGrammar(s);
    FastPathIsSlowPath(s);
    RewriteKeepsUtf8(s, Text, 0, Utf8.Start);
    Utf8.AutomatonIsGrammar(Prepare(s));
  }

  // ---------- the state machine itself ----------

  method FindCandidate(bytes: seq<Byte>) returns (found: bool)
    ensures found <==> HasCandidate(bytes)
  {
    var i := 0;
    while i + 1 < |bytes|
      invariant 0 <= i <= |bytes|
      invariant forall k :: 0 <= k < i ==> !CandidateAt(bytes, k)
    {
      if bytes[i] == DOT && IsDigit(bytes[i + 1]) {
        assert CandidateAt(bytes, i);
        return true;
      }
      i := i + 1;
    }
    found := false;
  }

  function LastOr0(out: seq<Byte>): Byte {
    if out == [] then 0 else Last(out)
  }

  method PrepareJinjaSource(src: seq<Byte>) returns (out: seq<Byte>)
    ensures out == Prepare(src)
  {
    var hasCandidate := FindCandidate(src);
    if !hasCandidate {
      return src;
    }
    out := RunScanner(src);
  }

  /** The slow path: scan from the start in the text state. */
  method RunScanner(src: seq<Byte>) returns (out: seq<Byte>)
    ensures out == Rewrite(src, Text, 0)
  {
    hide Rewrite, Scan, Emit;
    out := [];
    var state := Text;
    var rest := src;
    Sequences.NothingAdded(Rewrite(src, Text, 0));
    while rest != []
      invariant out + Rewrite(rest, state, LastOr0(out)) == Rewrite(src, Text, 0)
      decreases |rest|
    {
      RewriteStep(rest, state, LastOr0(out));
      var take, next, written := OneMove(rest, state, LastOr0(out));
      Rejoin(out, written, Rewrite(rest[take..], next, Last(written)));
      out, state, rest := out + written, next, rest[take..];
    }
    RewriteNothing(state, LastOr0(out));
    Sequences.NothingAdded(out);
  }

  lemma RewriteNothing(st: St, prev: Byte)
    ensures Rewrite([], st, prev) == []
  {
  }

  lemma Rejoin(out: seq<Byte>, written: seq<Byte>, tail: seq<Byte>)
    requires written != []
    ensures out + (written + tail) == (out + written) + tail
    ensures LastOr0(out + written) == Last(written)
  {
  }

  /** One iteration of the loop, on the bytes still to be read. */
  method OneMove(s: seq<Byte>, state: St, prev: Byte) returns (take: nat, next: St, written: seq<Byte>)
    requires s != []
    ensures Scan(s, state, prev).take == take && Scan(s, state, prev).next == next
    ensures 1 <= take <= |s| && written != []
    ensures written == Emit(s, Scan(s, state, prev))
  {
    var b := s[0];
    match state {
      case Text =>
        if b == LBRACE && 1 < |s| {
          var n := s[1];
          if n == LBRACE || n == PERCENT {
            return 2, Code, [LBRACE, n];
          } else if n == HASH {
            return 2, Comment, [LBRACE, HASH];
          }
        }
      case Comment =>
        if b == HASH && 1 < |s| && s[1] == RBRACE {
          return 2, Text, [HASH, RBRACE];
        }
      case Code =>
        if (b == RBRACE || b == PERCENT) && 1 < |s| && s[1] == RBRACE {
          return 2, Text, [b, RBRACE];
        }
        if b == QUOTE || b == DQUOTE {
          return 1, Str(b), [b];
        }
        if b == DOT && 1 < |s| && IsDigit(s[1]) {
          if EndsValue(prev) {
            var end := 1;
            while end < |s| && IsDigit(s[end])
              invariant 1 <= end <= |s|
              invariant Digits(s[1..]) == end - 1 + Digits(s[end..])
            {
              end := end + 1;
            }
            return end, Code, [LBRACKET] + s[1..end] + [RBRACKET];
          }
        }
      case Str(q) =>
        if b == BACKSLASH && 1 < |s| {
          return 2, Str(q), [BACKSLASH, s[1]];
        }
        if b == q {
          return 1, Code, [b];
        }
    }
    return 1, state, [b];
  }
}
