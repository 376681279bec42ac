/** Strings as sequences of Unicode scalar values, with the library operations the controller uses. */
module Text {
  import Sequences

  /** The characters with the Unicode property White_Space. */
  predicate IsWhitespace(c: char) {
    var u := c as int;
    || 0x9 <= u <= 0xD || u == 0x20 || u == 0x85 || u == 0xA0 || u == 0x1680
    || 0x2000 <= u <= 0x200A || u == 0x2028 || u == 0x2029 || u == 0x202F || u == 0x205F || u == 0x3000
  }

  function TrimStart(s: string): (t: string)
    ensures |t| <= |s|
    ensures t != "" ==> !IsWhitespace(t[0])
  {
    if s != "" && IsWhitespace(s[0]) then TrimStart(s[1..]) else s
  }

  function TrimEnd(s: string): (t: string)
    ensures t <= s
    ensures t != "" ==> !IsWhitespace(t[|t| - 1])
  {
    if s != "" && IsWhitespace(s[|s| - 1]) then TrimEnd(s[..|s| - 1]) else s
  }

  function Trim(s: string): (t: string)
    ensures t != "" ==> !IsWhitespace(t[0]) && !IsWhitespace(t[|t| - 1])
  {
    TrimEnd(TrimStart(s))
  }

  predicate IsTrimmed(s: string) {
    s != "" ==> !IsWhitespace(s[0]) && !IsWhitespace(s[|s| - 1])
  }

  lemma TrimOfTrimmed(s: string)
    requires IsTrimmed(s)
    ensures Trim(s) == s
  {
  }

  predicate AllBlank(s: string) {
    forall i :: 0 <= i < |s| ==> IsWhitespace(s[i])
  }

  /** Trimming takes blanks off both ends and nothing else. */
  lemma TrimSplit(s: string) returns (left: string, right: string)
    ensures s == left + Trim(s) + right && AllBlank(left) && AllBlank(right)
  {
    TrimIs(s);
    hide TrimStart, TrimEnd, IsWhitespace;
    var t := TrimStart(s);
    var m := TrimEnd(t);
    left := s[..|s| - |t|];
    right := t[|m|..];
    TrimStartIsSuffix(s);
    TrimStartBlank(s);
    TrimEndBlank(t);
    Sequences.Rejoin(s, |s| - |t|);
    Sequences.Rejoin(t, |m|);
    Sequences.Associative(left, m, right);
  }

  lemma TrimIs(s: string)
    ensures Trim(s) == TrimEnd(TrimStart(s))
  {
  }

  lemma {:induction false} TrimStartIsSuffix(s: string)
    ensures TrimStart(s) == s[|s| - |TrimStart(s)|..]
    decreases |s|
  {
    if s != "" && IsWhitespace(s[0]) { TrimStartIsSuffix(s[1..]); }
  }

  lemma {:induction false} TrimStartBlank(s: string)
    ensures AllBlank(s[..|s| - |TrimStart(s)|])
    decreases |s|
  {
    if s != "" && IsWhitespace(s[0]) {
      TrimStartBlank(s[1..]);
      var n := |s| - |TrimStart(s)|;
      assert s[..n] == [s[0]] + s[1..][..n - 1];
    }
  }

  lemma {:induction false} TrimEndBlank(s: string)
    ensures AllBlank(s[|TrimEnd(s)|..])
    decreases |s|
  {
    if s != "" && IsWhitespace(s[|s| - 1]) {
      var n := |TrimEnd(s)|;
      TrimEndBlank(s[..|s| - 1]);
      assert s[n..] == s[..|s| - 1][n..] + [s[|s| - 1]];
    }
  }

  lemma {:induction false} TrimOfBlank(s: string)
    requires AllBlank(s)
    ensures TrimStart(s) == ""
  {
    if s != "" { TrimOfBlank(s[1..]); }
  }

  lemma {:induction false} BlankStart(left: string, t: string)
    requires AllBlank(left) && (t != "" ==> !IsWhitespace(t[0]))
    ensures TrimStart(left + t) == t
    decreases |left|
  {
    if left == "" {
      Sequences.NothingAdded(t);
    } else {
      Sequences.OffTheFront(left, t);
      BlankStart(left[1..], t);
    }
  }

  lemma {:induction false} BlankEnd(t: string, right: string)
    requires AllBlank(right) && (t != "" ==> !IsWhitespace(t[|t| - 1]))
    ensures TrimEnd(t + right) == t
    decreases |right|
  {
    hide IsWhitespace;
    if right == "" {
      Sequences.NothingAdded(t);
    } else {
      var s := t + right;
      assert s[..|s| - 1] == t + right[..|right| - 1] && s[|s| - 1] == right[|right| - 1];
      BlankEnd(t, right[..|right| - 1]);
    }
  }

  /** Blanks around trimmed text are what trimming takes off. */
  lemma TrimPadded(left: string, t: string, right: string)
    requires AllBlank(left) && AllBlank(right) && IsTrimmed(t)
    ensures Trim(left + (t + right)) == t
  {
    hide TrimStart, TrimEnd, IsWhitespace;
    if t == "" {
      Sequences.NothingAdded(right);
      assert AllBlank(left + right);
      TrimOfBlank(left + right);
      BlankEnd("", "");
    } else {
      BlankStart(left, t + right);
      BlankEnd(t, right);
    }
  }

  /** The twenty-five code points with the Unicode property White_Space. */
  lemma WhitespaceExactly(c: char)
    ensures IsWhitespace(c) <==> c as int in {
      0x9, 0xA, 0xB, 0xC, 0xD, 0x20, 0x85, 0xA0, 0x1680, 0x2000, 0x2001, 0x2002, 0x2003, 0x2004, 0x2005, 0x2006, 0x2007,
      0x2008, 0x2009, 0x200A, 0x2028, 0x2029, 0x202F, 0x205F, 0x3000}
  {
  }

  /** `str::len`: the number of UTF-8 bytes. */
  function Utf8Len(s: string): (n: nat)
    ensures n >= |s|
  {
    if s == "" then 0 else CharLen(s[0]) + Utf8Len(s[1..])
  }

  function CharLen(c: char): (n: nat)
    ensures 1 <= n <= 4
  {
    if c < 0x80 as char then 1 else if c < 0x800 as char then 2 else if c < 0x1_0000 as char then 3 else 4
  }

  lemma {:induction false} Utf8LenConcat(a: string, b: string)
    ensures Utf8Len(a + b) == Utf8Len(a) + Utf8Len(b)
  {
    if a == "" {
      assert a + b == b;
    } else {
      assert (a + b)[1..] == a[1..] + b;
      Utf8LenConcat(a[1..], b);
    }
  }

  predicate Contains(t: string, s: string) {
    s <= t || (t != "" && Contains(t[1..], s))
  }

  /** s occurs in t at position k. */
  predicate OccursAt(t: string, s: string, k: int) {
    0 <= k && k + |s| <= |t| && t[k..k + |s|] == s
  }

  lemma {:induction false} ContainsFromOccurrence(t: string, s: string, k: int)
    requires OccursAt(t, s, k)
    ensures Contains(t, s)
  {
    if k > 0 {
      assert t[1..][k - 1..k - 1 + |s|] == s;
      ContainsFromOccurrence(t[1..], s, k - 1);
    }
  }

  lemma {:induction false} OccurrenceOf(t: string, s: string) returns (k: nat)
    requires Contains(t, s)
    ensures OccursAt(t, s, k)
  {
    if s <= t {
      k := 0;
    } else {
      var j := OccurrenceOf(t[1..], s);
      assert t[1..][j..j + |s|] == t[j + 1..j + 1 + |s|];
      k := j + 1;
    }
  }

  lemma OccurrenceChar(t: string, s: string, k: int, i: nat)
    requires OccursAt(t, s, k) && i < |s|
    ensures t[k + i] == s[i]
  {
    assert t[k..k + |s|][i] == s[i];
  }

  lemma PrefixOccurs(t: string, s: string)
    requires s <= t
    ensures OccursAt(t, s, 0)
  {
  }

  lemma OccursAtStart(t: string, s: string)
    requires OccursAt(t, s, 0)
    ensures s <= t
  {
    assert t[0..|s|] == t[..|s|];
  }

  lemma OccursInLeft(a: string, b: string, s: string, k: int)
    requires OccursAt(a, s, k)
    ensures OccursAt(a + b, s, k)
  {
    assert (a + b)[k..k + |s|] == a[k..k + |s|];
  }

  lemma OccursInRight(a: string, b: string, s: string, k: int)
    requires OccursAt(b, s, k)
    ensures OccursAt(a + b, s, |a| + k)
  {
    assert (a + b)[|a| + k..|a| + k + |s|] == b[k..k + |s|];
  }

  lemma ContainsIff(t: string, s: string)
    ensures Contains(t, s) <==> exists k :: OccursAt(t, s, k)
  {
    if Contains(t, s) {
      var k := OccurrenceOf(t, s);
    }
    forall k | OccursAt(t, s, k) ensures Contains(t, s) { ContainsFromOccurrence(t, s, k); }
  }

  /** `str::replace` with a non-empty pattern: leftmost, non-overlapping. */
  function Replace(t: string, pattern: string, with: string): string
    requires pattern != ""
    decreases |t|
  {
    if |t| < |pattern| then t
    else if pattern <= t then with + Replace(t[|pattern|..], pattern, with)
    else [t[0]] + Replace(t[1..], pattern, with)
  }

  lemma {:induction false} ReplaceNothing(t: string, pattern: string, with: string)
    requires pattern != "" && !Contains(t, pattern)
    ensures Replace(t, pattern, with) == t
    decreases |t|
  {
    if |t| >= |pattern| { ReplaceNothing(t[1..], pattern, with); }
  }

  /** The position of the first `c`, or the length if there is none. */
  function Find(s: string, c: char): (k: nat)
    ensures k <= |s|
    ensures k < |s| ==> s[k] == c
    decreases |s|
  {
    if s == "" || s[0] == c then 0 else 1 + Find(s[1..], c)
  }

  lemma {:induction false} FindAt(a: string, c: char, b: string)
    requires c !in a
    ensures Find(a + [c] + b, c) == |a|
    decreases |a|
  {
    var s := a + [c] + b;
    if a != "" {
      assert a[0] in a && c !in a[1..];
      assert s[1..] == a[1..] + [c] + b;
      FindAt(a[1..], c, b);
    }
  }

  lemma {:induction false} FindNone(s: string, c: char)
    requires c !in s
    ensures Find(s, c) == |s|
    decreases |s|
  {
    if s != "" { FindNone(s[1..], c); }
  }

  /** The position of the last `c`, or -1 if there is none. */
  function FindLast(s: string, c: char): (k: int)
    ensures -1 <= k < |s|
    ensures k >= 0 ==> s[k] == c
    decreases |s|
  {
    if s == "" then -1 else if s[|s| - 1] == c then |s| - 1 else FindLast(s[..|s| - 1], c)
  }

  lemma {:induction false} FindLastAt(a: string, c: char, b: string)
    requires c !in b
    ensures FindLast(a + [c] + b, c) == |a|
    decreases |b|
  {
    var s := a + [c] + b;
    if b == "" {
      assert s[..|s| - 1] == a;
    } else {
      var b' := b[..|b| - 1];
      assert b[|b| - 1] in b && c !in b';
      assert s[..|s| - 1] == a + [c] + b';
      FindLastAt(a, c, b');
    }
  }

  /** `split(sep)`: always at least one part. */
  function Split(s: string, sep: char): (parts: seq<string>)
    ensures parts != []
    decreases |s|
  {
    if s == "" then [""]
    else if s[0] == sep then [""] + Split(s[1..], sep)
    else
      var parts := Split(s[1..], sep);
      [[s[0]] + parts[0]] + parts[1..]
  }

  lemma {:induction false} SplitJoin(a: string, sep: char, b: string)
    requires sep !in a
    ensures Split(a + [sep] + b, sep) == [a] + Split(b, sep)
    decreases |a|
  {
    var s := a + [sep] + b;
    if a == "" {
      assert s[1..] == b;
    } else {
      assert sep !in a[1..];
      assert s[1..] == a[1..] + [sep] + b;
      SplitJoin(a[1..], sep, b);
      assert a == [a[0]] + a[1..];
    }
  }

  /** The first part is what stands before the first separator. */
  lemma {:induction false} SplitFirst(s: string, sep: char) returns (rest: string)
    ensures var parts := Split(s, sep);
      if |parts| == 1 then s == parts[0] && sep !in s
      else sep !in parts[0] && s == parts[0] + [sep] + rest && Split(rest, sep) == parts[1..]
    decreases |s|
  {
    if s == "" {
      rest := "";
    } else if s[0] == sep {
      rest := s[1..];
    } else {
      rest := SplitFirst(s[1..], sep);
      assert s == [s[0]] + s[1..];
    }
  }

  lemma {:induction false} SplitNone(a: string, sep: char)
    requires sep !in a
    ensures Split(a, sep) == [a]
    decreases |a|
  {
    if a != "" {
      assert sep !in a[1..];
      SplitNone(a[1..], sep);
      assert a == [a[0]] + a[1..];
    }
  }

  /** `lines`: the parts that a newline ends, without a carriage return before it, and what follows the
      last newline unless it is empty. */
  function Lines(text: string): seq<string> {
    LinesOfParts(Split(text, '\n'))
  }

  function LinesOfParts(parts: seq<string>): seq<string>
    requires parts != []
  {
    if |parts| == 1 then (if parts[0] == "" then [] else parts)
    else [StripReturn(parts[0])] + LinesOfParts(parts[1..])
  }

  function StripReturn(line: string): string {
    if line != "" && line[|line| - 1] == '\r' then line[..|line| - 1] else line
  }

  lemma LinesStep(line: string, rest: string)
    requires '\n' !in line
    ensures Lines(line + "\n" + rest) == [StripReturn(line)] + Lines(rest)
  {
    SplitJoin(line, '\n', rest);
    assert line + ['\n'] + rest == line + "\n" + rest;
    assert Split(line + "\n" + rest, '\n')[1..] == Split(rest, '\n');
  }

  /** A line ends at a newline, which may have one carriage return before it, or at the end of a text that does not
      end in a newline. */
  lemma LinesExactly(line: string, rest: string)
    requires '\n' !in line
    ensures Lines(line + "\r\n" + rest) == [line] + Lines(rest)
    ensures line == "" || line[|line| - 1] != '\r' ==> Lines(line + "\n" + rest) == [line] + Lines(rest)
    ensures Lines(line) == if line == "" then [] else [line]
  {
    LinesStep(line + "\r", rest);
    assert line + "\r\n" + rest == (line + "\r") + "\n" + rest;
    LinesStep(line, rest);
    SplitNone(line, '\n');
  }
}
