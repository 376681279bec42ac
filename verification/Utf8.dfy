/** UTF-8 well-formedness (section 4 of RFC 3629), as a grammar and as a byte-by-byte automaton. */
module Utf8 {
  import opened Options
  import opened Words
  import Sequences
  import Text

  predicate Tail(b: Byte) {
    0x80 <= b <= 0xBF
  }

  /** The length of the character that starts the text, or 0 if there is none. */
  function CharLength(s: seq<Byte>): (n: nat)
    ensures n <= 4 && n <= |s|
  {
    if s == [] then 0
    else if s[0] <= 0x7F then 1
    else if 0xC2 <= s[0] <= 0xDF then (if |s| >= 2 && Tail(s[1]) then 2 else 0)
    else if 0xE0 <= s[0] <= 0xEF then
      (if |s| >= 3 && Second(s[0], s[1]) && Tail(s[2]) then 3 else 0)
    else if 0xF0 <= s[0] <= 0xF4 then
      (if |s| >= 4 && Second(s[0], s[1]) && Tail(s[2]) && Tail(s[3]) then 4 else 0)
    else 0
  }

  /** The second byte of a three- or four-byte character, which excludes overlong forms and surrogates. */
  predicate Second(first: Byte, b: Byte) {
    if first == 0xE0 then 0xA0 <= b <= 0xBF
    else if first == 0xED then 0x80 <= b <= 0x9F
    else if first == 0xF0 then 0x90 <= b <= 0xBF
    else if first == 0xF4 then 0x80 <= b <= 0x8F
    else Tail(b)
  }

  predicate Valid(s: seq<Byte>)
    decreases |s|
  {
    s == [] || (CharLength(s) > 0 && Valid(s[CharLength(s)..]))
  }

  /** Where the automaton is inside a character: at its start, or owing tail bytes. */
  datatype State = Start | AfterLead(lead: Byte) | Owing(tails: nat) | Bad

  function Next(q: State, b: Byte): State {
    match q
    case Start =>
      if b <= 0x7F then Start
      else if 0xC2 <= b <= 0xDF then Owing(1)
      else if 0xE0 <= b <= 0xF4 then AfterLead(b)
      else Bad
    case AfterLead(lead) => if Second(lead, b) then Owing(if lead <= 0xEF then 1 else 2) else Bad
    case Owing(n) => if !Tail(b) then Bad else if n <= 1 then Start else Owing(n - 1)
    case Bad => Bad
  }

  function After(q: State, s: seq<Byte>): State
    decreases |s|
  {
    if s == [] then q else After(Next(q, s[0]), s[1..])
  }

  /** Inside a character or after an error, an ASCII byte is never accepted. */
  predicate Tracks(q: State) {
    q.Bad? || (q.AfterLead? && 0xE0 <= q.lead <= 0xF4) || (q.Owing? && 1 <= q.tails <= 2) || q.Start?
  }

  lemma AsciiOnlyAtStart(q: State, b: Byte)
    requires Tracks(q) && b <= 0x7F
    ensures Next(q, b) == if q.Start? then Start else Bad
  {
  }

  lemma TracksKept(q: State, b: Byte)
    requires Tracks(q)
    ensures Tracks(Next(q, b))
  {
  }

  lemma {:induction false} BadStays(s: seq<Byte>)
    ensures After(Bad, s) == Bad
  {
    if s != [] { BadStays(s[1..]); }
  }

  lemma {:induction false} AfterConcat(q: State, a: seq<Byte>, b: seq<Byte>)
    ensures After(q, a + b) == After(After(q, a), b)
    decreases |a|
  {
    if a == [] {
      assert a + b == b;
    } else {
      assert (a + b)[1..] == a[1..] + b;
      AfterConcat(Next(q, a[0]), a[1..], b);
    }
  }

  /** The automaton accepts exactly the well-formed texts. */
  lemma {:induction false} AutomatonIsGrammar(s: seq<Byte>)
    ensures Valid(s) <==> After(Start, s) == Start
    decreases |s|
  {
    if s != [] {
      var n := CharLength(s);
      if n > 0 {
        var head, rest := s[..n], s[n..];
        assert s == head + rest;
        AfterConcat(Start, head, rest);
        CharAccepted(s);
        AutomatonIsGrammar(rest);
      } else {
        NoCharRejected(s);
      }
    }
  }

  lemma CharAccepted(s: seq<Byte>)
    requires CharLength(s) > 0
    ensures After(Start, s[..CharLength(s)]) == Start
  {
    var n := CharLength(s);
    var head := s[..n];
    var q1 := Next(Start, head[0]);
    assert After(Start, head) == After(q1, head[1..]);
    if n >= 2 {
      var q2 := Next(q1, head[1]);
      assert head[1..][1..] == head[2..];
      assert After(q1, head[1..]) == After(q2, head[2..]);
      if n >= 3 {
        var q3 := Next(q2, head[2]);
        assert head[2..][1..] == head[3..];
        assert After(q2, head[2..]) == After(q3, head[3..]);
        if n >= 4 {
          assert head[3..][1..] == [];
          assert After(q3, head[3..]) == After(Next(q3, head[3]), []);
        }
      }
    }
  }

  lemma NoCharRejected(s: seq<Byte>)
    requires s != [] && CharLength(s) == 0
    ensures After(Start, s) != Start
  {
    var q1 := Next(Start, s[0]);
    assert After(Start, s) == After(q1, s[1..]);
    BadStays(s[1..]);
    if |s| >= 2 {
      var q2 := Next(q1, s[1]);
      assert s[1..][1..] == s[2..];
      assert After(q1, s[1..]) == After(q2, s[2..]);
      BadStays(s[2..]);
      if |s| >= 3 {
        var q3 := Next(q2, s[2]);
        assert s[2..][1..] == s[3..];
        assert After(q2, s[2..]) == After(q3, s[3..]);
        BadStays(s[3..]);
        if |s| >= 4 {
          var q4 := Next(q3, s[3]);
          assert s[3..][1..] == s[4..];
          assert After(q3, s[3..]) == After(q4, s[4..]);
          BadStays(s[4..]);
        }
      }
    }
  }

  // ---------- decoding ----------

  /** The scalar value of the character at the front. */
  function CodePoint(s: seq<Byte>): (u: int)
    requires CharLength(s) > 0
    ensures 0 <= u < 0xD800 || 0xE000 <= u < 0x11_0000
  {
    var b := (i: nat) => if i < |s| then s[i] as int else 0;
    match CharLength(s)
    case 1 => b(0)
    case 2 => 64 * (b(0) - 0xC0) + (b(1) - 0x80)
    case 3 => 4096 * (b(0) - 0xE0) + 64 * (b(1) - 0x80) + (b(2) - 0x80)
    case _ => 262144 * (b(0) - 0xF0) + 4096 * (b(1) - 0x80) + 64 * (b(2) - 0x80) + (b(3) - 0x80)
  }

  /** `str::from_utf8`. */
  function Decode(s: seq<Byte>): Option<string>
    decreases |s|
  {
    if s == [] then Some("")
    else if CharLength(s) == 0 then None
    else match Decode(s[CharLength(s)..])
      case None => None
      case Some(rest) => Some([CodePoint(s) as char] + rest)
  }

  lemma {:induction false} DecodesExactlyValid(s: seq<Byte>)
    ensures Decode(s).Some? <==> Valid(s)
    decreases |s|
  {
    if s != [] && CharLength(s) > 0 { DecodesExactlyValid(s[CharLength(s)..]); }
  }

  predicate IsAscii(s: string) {
    forall i :: 0 <= i < |s| ==> s[i] < 0x80 as char
  }

  function AsciiBytes(s: string): (bs: seq<Byte>)
    requires IsAscii(s)
    ensures |bs| == |s|
  {
    seq(|s|, i requires 0 <= i < |s| => s[i] as int)
  }

  lemma {:induction false} DecodeAscii(s: string)
    requires IsAscii(s)
    ensures Decode(AsciiBytes(s)) == Some(s)
    decreases |s|
  {
    if s != "" {
      var bs := AsciiBytes(s);
      assert bs[1..] == AsciiBytes(s[1..]);
      DecodeAscii(s[1..]);
      assert CharLength(bs) == 1 && CodePoint(bs) == s[0] as int;
      assert s == [s[0]] + s[1..];
    }
  }

  // ---------- encoding ----------

  /** The bytes of a character (section 3 of RFC 3629). */
  function EncodeChar(c: char): (bs: seq<Byte>)
    ensures 1 <= |bs| <= 4
  {
    var u := c as int;
    if u < 0x80 then [u]
    else if u < 0x800 then [0xC0 + u / 64, 0x80 + u % 64]
    else if u < 0x1_0000 then [0xE0 + u / 4096, 0x80 + u / 64 % 64, 0x80 + u % 64]
    else [0xF0 + u / 262144, 0x80 + u / 4096 % 64, 0x80 + u / 64 % 64, 0x80 + u % 64]
  }

  function Encode(text: string): seq<Byte> {
    if text == "" then [] else EncodeChar(text[0]) + Encode(text[1..])
  }

  lemma CharBack(c: char, rest: seq<Byte>)
    ensures var s := EncodeChar(c) + rest;
      CharLength(s) == |EncodeChar(c)| && CodePoint(s) == c as int && s[CharLength(s)..] == rest
  {
    var bs := EncodeChar(c);
    var s := bs + rest;
    assert forall i :: 0 <= i < |bs| ==> s[i] == bs[i];
    assert s[|bs|..] == rest;
    Sixes(c as int);
  }

  lemma Sixes(u: int)
    requires 0 <= u
    ensures u == 64 * (u / 64) + u % 64
    ensures u / 64 == 64 * (u / 4096) + u / 64 % 64
    ensures u / 4096 == 64 * (u / 262144) + u / 4096 % 64
  {
  }

  lemma CharAgain(s: seq<Byte>)
    requires CharLength(s) > 0
    ensures EncodeChar(CodePoint(s) as char) == s[..CharLength(s)]
  {
    hide EncodeChar;
    match CharLength(s)
    case 1 => OneAgain(s);
    case 2 => TwoAgain(s);
    case 3 => ThreeAgain(s);
    case _ => FourAgain(s);
  }

  lemma OneAgain(s: seq<Byte>)
    requires CharLength(s) == 1
    ensures EncodeChar(CodePoint(s) as char) == s[..1]
  {
  }

  lemma TwoAgain(s: seq<Byte>)
    requires CharLength(s) == 2
    ensures EncodeChar(CodePoint(s) as char) == s[..2]
  {
    Digits64(s[0] - 0xC0, s[1] - 0x80);
  }

  lemma ThreeAgain(s: seq<Byte>)
    requires CharLength(s) == 3
    ensures EncodeChar(CodePoint(s) as char) == s[..3]
  {
    var lead: int := s[0];
    var second: int := s[1];
    Digits64(lead - 0xE0, second - 0x80);
    Digits64(64 * (lead - 0xE0) + (second - 0x80), s[2] - 0x80);
  }

  lemma FourAgain(s: seq<Byte>)
    requires CharLength(s) == 4
    ensures EncodeChar(CodePoint(s) as char) == s[..4]
  {
    var lead: int := s[0];
    var second: int := s[1];
    var third: int := s[2];
    Digits64(lead - 0xF0, second - 0x80);
    Digits64(64 * (lead - 0xF0) + (second - 0x80), third - 0x80);
    Digits64(4096 * (lead - 0xF0) + 64 * (second - 0x80) + (third - 0x80), s[3] - 0x80);
  }

  lemma Digits64(high: int, low: int)
    requires 0 <= high && 0 <= low < 64
    ensures (64 * high + low) / 64 == high && (64 * high + low) % 64 == low
    ensures (64 * high + low) / 4096 == high / 64 && (64 * high + low) / 262144 == high / 4096
  {
  }

  /** Decoding undoes encoding, and encoding undoes decoding: the well-formed texts are exactly the encodings of
      strings of scalar values, each of one string. */
  lemma {:induction false} DecodeEncode(text: string)
    ensures Decode(Encode(text)) == Some(text)
    decreases |text|
  {
    hide CharLength, CodePoint, EncodeChar;
    if text != "" {
      CharBack(text[0], Encode(text[1..]));
      DecodeEncode(text[1..]);
      assert text == [text[0]] + text[1..];
    }
  }

  lemma {:induction false} EncodeDecode(s: seq<Byte>)
    ensures Valid(s) <==> exists text :: Encode(text) == s
    ensures Decode(s).Some? ==> Encode(Decode(s).value) == s
    decreases |s|
  {
    DecodesExactlyValid(s);
    if s != [] && CharLength(s) > 0 {
      var n := CharLength(s);
      EncodeDecode(s[n..]);
      CharAgain(s);
      if Decode(s).Some? {
        var rest := Decode(s[n..]).value;
        var text := Decode(s).value;
        assert text[0] == CodePoint(s) as char && text[1..] == rest;
        Sequences.Rejoin(s, n);
      }
    }
    if Decode(s).Some? { assert Encode(Decode(s).value) == s; }
    if text :| Encode(text) == s { DecodeEncode(text); }
  }

  /** `str::len` counts the bytes of the encoding. */
  lemma {:induction false} LengthIsBytes(text: string)
    ensures Text.Utf8Len(text) == |Encode(text)|
    decreases |text|
  {
    if text != "" { LengthIsBytes(text[1..]); }
  }
}
