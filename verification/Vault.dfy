/** `vault.rs`: the Ansible Vault envelope.  Key derivation, MAC and keystream are arbitrary functions. */
module Vault {
  import opened Words
  import opened Text
  import Utf8
  import Sequences

  datatype Error =
    | NotUtf8
    | Empty
    | BadHeader
    | UnsupportedVersion
    | UnsupportedCipher
    | BadHex
    | NotThreeParts
    | HmacMismatch
    | BadPadding

  datatype Result<T> = Ok(value: T) | Err(error: Error)

  datatype Keys = Keys(aes: seq<Byte>, hmac: seq<Byte>, counter: seq<Byte>)

  /** What the key derivation yields: two keys of 32 bytes and a counter of 16. */
  type Derived = d: seq<Byte> | |d| == 80
    witness seq(80, _ => 0)

  function KeysOf(d: Derived): Keys {
    Keys(d[..32], d[32..64], d[64..])
  }

  datatype Crypto = Crypto(
    kdf: (string, seq<Byte>) -> Derived,                  // password and salt
    mac: (seq<Byte>, seq<Byte>) -> seq<Byte>,             // key and message
    keystream: (seq<Byte>, seq<Byte>, nat) -> Byte        // key, counter and position
  )

  // ---------- hex ----------

  function HexDigit(n: nat): (c: char)
    requires n < 16
    ensures c < 0x80 as char && !IsWhitespace(c) && HexValue(c) == n
  {
    "0123456789abcdef"[n]
  }

  /** The value of a hex digit in either case, or 16 for any other character. */
  function HexValue(c: char): (n: nat)
    ensures n <= 16
  {
    if '0' <= c <= '9' then c as int - '0' as int
    else if 'a' <= c <= 'f' then c as int - 'a' as int + 10
    else if 'A' <= c <= 'F' then c as int - 'A' as int + 10
    else 16
  }

  function HexEncode(bs: seq<Byte>): (s: string)
    ensures |s| == 2 * |bs|
  {
    if bs == [] then "" else [HexDigit(bs[0] / 16), HexDigit(bs[0] % 16)] + HexEncode(bs[1..])
  }

  function HexDecode(s: string): Result<seq<Byte>>
    decreases |s|
  {
    if s == "" then Ok([])
    else if |s| == 1 || HexValue(s[0]) == 16 || HexValue(s[1]) == 16 then Err(BadHex)
    else match HexDecode(s[2..])
      case Ok(bs) => Ok([16 * HexValue(s[0]) + HexValue(s[1])] + bs)
      case Err(e) => Err(e)
  }

  lemma {:induction false} HexRoundTrip(bs: seq<Byte>)
    ensures HexDecode(HexEncode(bs)) == Ok(bs)
  {
    if bs != [] {
      var s := HexEncode(bs);
      assert s[2..] == HexEncode(bs[1..]);
      HexRoundTrip(bs[1..]);
      assert bs == [bs[0]] + bs[1..];
    }
  }

  /** Plain text: ASCII without whitespace. */
  predicate IsPlain(s: string) {
    forall i :: 0 <= i < |s| ==> s[i] < 0x80 as char && !IsWhitespace(s[i])
  }

  lemma {:induction false} HexIsPlain(bs: seq<Byte>)
    ensures IsPlain(HexEncode(bs))
  {
    if bs != [] { HexIsPlain(bs[1..]); }
  }

  // ---------- padding (section 6.3 of RFC 5652) ----------

  function Repeat(b: Byte, n: nat): (bs: seq<Byte>)
    ensures |bs| == n
  {
    seq(n, _ => b)
  }

  function Pad(p: seq<Byte>): (bs: seq<Byte>)
    ensures |bs| % 16 == 0 && bs != []
  {
    var pad := 16 - |p| % 16;
    p + Repeat(pad, pad)
  }

  function Unpad(buf: seq<Byte>): Result<seq<Byte>> {
    if buf == [] then Err(BadPadding)
    else
      var pad := buf[|buf| - 1];
      if pad == 0 || pad > |buf| then Err(BadPadding)
      else if buf[|buf| - pad..] != Repeat(pad, pad) then Err(BadPadding)
      else Ok(buf[..|buf| - pad])
  }

  lemma UnpadPad(p: seq<Byte>)
    ensures Unpad(Pad(p)) == Ok(p)
  {
    var pad := 16 - |p| % 16;
    Sequences.TakeDrop(p, Repeat(pad, pad));
    assert Pad(p)[|Pad(p)| - 1] == pad;
  }

  // ---------- the cipher ----------

  function XorByte(a: Byte, b: Byte): (c: Byte)
    ensures forall j: nat :: Bit(c, j) == (Bit(a, j) != Bit(b, j))
  {
    XorIsByte(a, b);
    XorDigits(a, b);
    Xor(a, b)
  }

  lemma XorDigits(a: Byte, b: Byte)
    ensures forall j: nat :: Bit(Xor(a, b), j) == (Bit(a, j) != Bit(b, j))
  {
    forall j: nat ensures Bit(Xor(a, b), j) == (Bit(a, j) != Bit(b, j)) { BitXor(a, b, j); }
  }

  lemma XorIsByte(a: Byte, b: Byte)
    ensures Xor(a, b) < 256
  {
    Pow2Small();
    forall j: nat | j >= 8
      ensures !Bit(Xor(a, b), j)
    {
      BitXor(a, b, j);
      BitBeyond(a, 8, j);
      BitBeyond(b, 8, j);
    }
    BoundedByDigits(Xor(a, b), 8);
  }

  lemma XorTwice(a: Byte, k: Byte)
    ensures XorByte(XorByte(a, k), k) == a
  {
    forall j: nat
      ensures Bit(Xor(Xor(a, k), k), j) == Bit(a, j)
    {
      BitXor(a, k, j);
      BitXor(Xor(a, k), k, j);
    }
    SameDigits(Xor(Xor(a, k), k), a);
  }

  function ApplyKeystream(c: Crypto, keys: Keys, buf: seq<Byte>): (r: seq<Byte>)
    ensures |r| == |buf|
  {
    seq<Byte>(|buf|, i requires 0 <= i < |buf| => XorByte(buf[i], c.keystream(keys.aes, keys.counter, i)))
  }

  lemma KeystreamTwice(c: Crypto, keys: Keys, buf: seq<Byte>)
    ensures ApplyKeystream(c, keys, ApplyKeystream(c, keys, buf)) == buf
  {
    forall i | 0 <= i < |buf|
      ensures ApplyKeystream(c, keys, ApplyKeystream(c, keys, buf))[i] == buf[i]
    {
      XorTwice(buf[i], c.keystream(keys.aes, keys.counter, i));
    }
  }

  // ---------- lines and parts ----------

  function NonSpace(s: string): string {
    if s == "" then ""
    else (if IsWhitespace(s[0]) then "" else [s[0]]) + NonSpace(s[1..])
  }

  /** The characters of all lines, without whitespace. */
  function Body(lines: seq<string>): string {
    if lines == [] then "" else NonSpace(lines[0]) + Body(lines[1..])
  }

  lemma {:induction false} NonSpaceConcat(a: string, b: string)
    ensures NonSpace(a + b) == NonSpace(a) + NonSpace(b)
  {
    if a == "" {
      Sequences.NothingAdded(b);
    } else {
      Sequences.OffTheFront(a, b);
      NonSpaceConcat(a[1..], b);
    }
  }

  lemma {:induction false} NonSpaceOfPlain(s: string)
    requires IsPlain(s)
    ensures NonSpace(s) == s
  {
    if s != "" {
      NonSpaceOfPlain(s[1..]);
      Sequences.Rejoin(s, 1);
    }
  }

  lemma NonSpaceStripReturn(line: string)
    ensures NonSpace(StripReturn(line)) == NonSpace(line)
  {
    if line != "" && line[|line| - 1] == '\r' {
      Sequences.Rejoin(line, |line| - 1);
      NonSpaceConcat(line[..|line| - 1], line[|line| - 1..]);
      assert line[|line| - 1..][1..] == "";
    }
  }

  /** Carriage returns and an empty last line add nothing to the body. */
  lemma {:induction false} BodyOfParts(parts: seq<string>)
    requires parts != []
    ensures Body(LinesOfParts(parts)) == Body(parts)
  {
    if |parts| == 1 {
      assert parts[1..] == [];
    } else {
      NonSpaceStripReturn(parts[0]);
      BodyOfParts(parts[1..]);
      assert LinesOfParts(parts)[1..] == LinesOfParts(parts[1..]);
    }
  }

  lemma {:induction false} BodyOfSplit(text: string)
    ensures Body(Split(text, '\n')) == NonSpace(text)
    decreases |text|
  {
    var parts := Split(text, '\n');
    if text == "" {
      assert parts[1..] == [];
    } else {
      BodyOfSplit(text[1..]);
      var rest := Split(text[1..], '\n');
      if text[0] == '\n' {
        assert parts[1..] == rest;
      } else {
        assert parts[1..] == rest[1..];
        assert [text[0]] + rest[0] == parts[0];
        assert parts[0][1..] == rest[0];
        Sequences.Associative(if IsWhitespace(text[0]) then "" else [text[0]], NonSpace(rest[0]), Body(rest[1..]));
      }
    }
  }

  /** The first line is the text before the first newline; the body is whatever is left after it, without
      whitespace: line breaks, indentation and wrapping do not matter. */
  lemma LinesOf(first: string, rest: string)
    requires '\n' !in first
    ensures Lines(first + "\n" + rest) != [] && Lines(first + "\n" + rest)[0] == StripReturn(first)
    ensures Body(Lines(first + "\n" + rest)[1..]) == NonSpace(rest)
  {
    hide Lines, Split, NonSpace, StripReturn;
    LinesStep(first, rest);
    assert Lines(first + "\n" + rest)[1..] == Lines(rest);
    BodyOfLines(rest);
  }

  lemma BodyOfLines(text: string)
    ensures Body(Lines(text)) == NonSpace(text)
  {
    hide Split, NonSpace, Body, LinesOfParts;
    BodyOfParts(Split(text, '\n'));
    BodyOfSplit(text);
  }

  // ---------- the header ----------

  const PREFIX: string := "$ANSIBLE_VAULT;"

  function ParseHeader(header: string): Result<()> {
    var h := Trim(header);
    if !(PREFIX <= h) then Err(BadHeader)
    else
      var parts := Split(h[|PREFIX|..], ';');
      if |parts| < 2 then Err(BadHeader)
      else if parts[0] != "1.1" && parts[0] != "1.2" then Err(UnsupportedVersion)
      else if parts[1] != "AES256" then Err(UnsupportedCipher)
      else Ok(())
  }

  ghost predicate IsVersion(v: string) {
    v == "1.1" || v == "1.2"
  }

  /** The headers that are accepted: two versions, one cipher, and any label after another semicolon. */
  ghost predicate AcceptedHeader(h: string) {
    exists v :: IsVersion(v) && (h == PREFIX + v + ";AES256" || PREFIX + v + ";AES256;" <= h)
  }

  lemma HeaderExactly(header: string)
    ensures ParseHeader(header) == Ok(()) <==> AcceptedHeader(Trim(header))
  {
    hide Trim, Split, PREFIX, AcceptedHeader;
    var h := Trim(header);
    if ParseHeader(header) == Ok(()) { AcceptedShape(h); }
    if AcceptedHeader(h) { ShapeAccepted(h); }
  }

  lemma ShapeAccepted(h: string)
    requires AcceptedHeader(h)
    ensures PREFIX <= h
    ensures var parts := Split(h[|PREFIX|..], ';'); |parts| >= 2 && IsVersion(parts[0]) && parts[1] == "AES256"
  {
    hide Split, PREFIX;
    var v :| IsVersion(v) && (h == PREFIX + v + ";AES256" || PREFIX + v + ";AES256;" <= h);
    if h == PREFIX + v + ";AES256" {
      SplitNone("AES256", ';');
      HeaderSplits(h, v, "AES256");
    } else {
      var more := h[|PREFIX + v + ";AES256;"|..];
      SplitJoin("AES256", ';', more);
      assert h == PREFIX + v + ";" + ("AES256" + ";" + more);
      HeaderSplits(h, v, "AES256" + ";" + more);
    }
  }

  lemma HeaderSplits(h: string, v: string, rest: string)
    requires IsVersion(v) && h == PREFIX + v + ";" + rest
    ensures PREFIX <= h && Split(h[|PREFIX|..], ';') == [v] + Split(rest, ';')
  {
    hide Split, PREFIX;
    assert h[|PREFIX|..] == v + [';'] + rest;
    SplitJoin(v, ';', rest);
  }

  lemma AcceptedShape(h: string)
    requires PREFIX <= h
    requires var parts := Split(h[|PREFIX|..], ';'); |parts| >= 2 && IsVersion(parts[0]) && parts[1] == "AES256"
    ensures AcceptedHeader(h)
  {
    var body := h[|PREFIX|..];
    var parts := Split(body, ';');
    var rest := SplitFirst(body, ';');
    var more := SplitFirst(rest, ';');
    assert h == PREFIX + body;
    assert Split(rest, ';') == parts[1..];
    var v := parts[0];
    if |parts| == 2 {
      assert h == PREFIX + v + ";AES256";
    } else {
      assert h == PREFIX + v + ";AES256;" + more;
    }
  }

  // ---------- decryption ----------

  /** `decrypt` on the text of the file. */
  function DecryptText(c: Crypto, text: string, password: string): Result<seq<Byte>> {
    var lines := Lines(text);
    if lines == [] then Err(Empty)
    else match ParseHeader(lines[0])
      case Err(e) => Err(e)
      case Ok(_) => DecryptBody(c, Body(lines[1..]), password)
  }

  function DecryptBody(c: Crypto, hexBody: string, password: string): Result<seq<Byte>> {
    match HexDecode(hexBody)
    case Err(e) => Err(e)
    case Ok(outer) =>
      match Utf8.Decode(outer)
      case None => Err(NotUtf8)
      case Some(outerText) => DecryptParts(c, Split(outerText, '\n'), password)
  }

  function DecryptParts(c: Crypto, parts: seq<string>, password: string): Result<seq<Byte>> {
    if |parts| != 3 then Err(NotThreeParts)
    else match (HexDecode(parts[0]), HexDecode(parts[1]), HexDecode(parts[2]))
      case (Ok(salt), Ok(tag), Ok(ciphertext)) => Open(c, KeysOf(c.kdf(password, salt)), tag, ciphertext)
      case _ => Err(BadHex)
  }

  /** The MAC is checked before anything is deciphered. */
  function Open(c: Crypto, keys: Keys, tag: seq<Byte>, ciphertext: seq<Byte>): Result<seq<Byte>> {
    if c.mac(keys.hmac, ciphertext) != tag then Err(HmacMismatch)
    else Unpad(ApplyKeystream(c, keys, ciphertext))
  }

  function Decrypt(c: Crypto, bytes: seq<Byte>, password: string): Result<seq<Byte>> {
    match Utf8.Decode(bytes)
    case None => Err(NotUtf8)
    case Some(text) => DecryptText(c, text, password)
  }

  // ---------- encryption ----------

  /** Lines of at most 80 characters, each ended by a newline. */
  function Wrap(s: string): string {
    if s == "" then ""
    else if |s| <= 80 then s + "\n"
    else s[..80] + "\n" + Wrap(s[80..])
  }

  const HEADER: string := "$ANSIBLE_VAULT;1.1;AES256"

  function Ciphertext(c: Crypto, keys: Keys, plaintext: seq<Byte>): seq<Byte> {
    ApplyKeystream(c, keys, Pad(plaintext))
  }

  function Inner(salt: seq<Byte>, tag: seq<Byte>, ciphertext: seq<Byte>): string {
    HexEncode(salt) + "\n" + (HexEncode(tag) + "\n" + HexEncode(ciphertext))
  }

  /** A vault file with the given parts. */
  function Envelope(salt: seq<Byte>, tag: seq<Byte>, ciphertext: seq<Byte>): string {
    InnerIsAscii(salt, tag, ciphertext);
    HEADER + "\n" + Wrap(HexEncode(Utf8.AsciiBytes(Inner(salt, tag, ciphertext))))
  }

  function EncryptText(c: Crypto, plaintext: seq<Byte>, password: string, salt: seq<Byte>): string {
    var keys := KeysOf(c.kdf(password, salt));
    var ciphertext := Ciphertext(c, keys, plaintext);
    Envelope(salt, c.mac(keys.hmac, ciphertext), ciphertext)
  }

  function Encrypt(c: Crypto, plaintext: seq<Byte>, password: string, salt: seq<Byte>): seq<Byte> {
    EncryptIsAscii(c, plaintext, password, salt);
    Utf8.AsciiBytes(EncryptText(c, plaintext, password, salt))
  }

  lemma InnerIsAscii(salt: seq<Byte>, tag: seq<Byte>, ciphertext: seq<Byte>)
    ensures Utf8.IsAscii(Inner(salt, tag, ciphertext))
  {
    HexIsPlain(salt);
    HexIsPlain(tag);
    HexIsPlain(ciphertext);
  }

  lemma {:induction false} WrapIsAscii(s: string)
    requires IsPlain(s)
    ensures Utf8.IsAscii(Wrap(s))
    decreases |s|
  {
    if |s| > 80 { WrapIsAscii(s[80..]); }
  }

  lemma HeaderIsAscii()
    ensures Utf8.IsAscii(HEADER) && '\n' !in HEADER
  {
  }

  lemma EnvelopeIsAscii(salt: seq<Byte>, tag: seq<Byte>, ciphertext: seq<Byte>)
    ensures Utf8.IsAscii(Envelope(salt, tag, ciphertext))
  {
    hide Wrap, HexEncode;
    InnerIsAscii(salt, tag, ciphertext);
    var inner := Inner(salt, tag, ciphertext);
    HexIsPlain(Utf8.AsciiBytes(inner));
    WrapIsAscii(HexEncode(Utf8.AsciiBytes(inner)));
    HeaderIsAscii();
  }

  lemma EncryptIsAscii(c: Crypto, plaintext: seq<Byte>, password: string, salt: seq<Byte>)
    ensures Utf8.IsAscii(EncryptText(c, plaintext, password, salt))
  {
    hide Envelope;
    var keys := KeysOf(c.kdf(password, salt));
    var ciphertext := Ciphertext(c, keys, plaintext);
    EnvelopeIsAscii(salt, c.mac(keys.hmac, ciphertext), ciphertext);
  }

  // ---------- the round trip ----------

  lemma {:induction false} UnwrapWrap(s: string)
    requires IsPlain(s)
    ensures NonSpace(Wrap(s)) == s
    decreases |s|
  {
    assert "\n"[1..] == "" && NonSpace("\n") == "";
    if s == "" {
    } else if |s| <= 80 {
      NonSpaceConcat(s, "\n");
      NonSpaceOfPlain(s);
    } else {
      NonSpaceConcat(s[..80] + "\n", Wrap(s[80..]));
      NonSpaceConcat(s[..80], "\n");
      NonSpaceOfPlain(s[..80]);
      UnwrapWrap(s[80..]);
      Sequences.Rejoin(s, 80);
    }
  }

  lemma HeaderAccepted()
    ensures ParseHeader(StripReturn(HEADER)) == Ok(())
  {
    hide Trim, Split, IsTrimmed, StripReturn, PREFIX, HEADER;
    HeaderShape();
    TrimOfTrimmed(HEADER);
    SplitJoin("1.1", ';', "AES256");
    SplitNone("AES256", ';');
  }

  lemma HeaderShape()
    ensures PREFIX <= HEADER && HEADER[|PREFIX|..] == "1.1" + [';'] + "AES256"
    ensures IsTrimmed(HEADER) && StripReturn(HEADER) == HEADER
  {
  }

  lemma PlainHasNoNewline(s: string)
    requires IsPlain(s)
    ensures '\n' !in s
  {
  }

  lemma InnerParts(salt: seq<Byte>, tag: seq<Byte>, ciphertext: seq<Byte>)
    ensures Split(Inner(salt, tag, ciphertext), '\n') == [HexEncode(salt), HexEncode(tag), HexEncode(ciphertext)]
  {
    hide HexEncode, Split;
    var a, b, d := HexEncode(salt), HexEncode(tag), HexEncode(ciphertext);
    HexIsPlain(salt);
    HexIsPlain(tag);
    HexIsPlain(ciphertext);
    PlainHasNoNewline(a);
    PlainHasNoNewline(b);
    PlainHasNoNewline(d);
    SplitJoin(a, '\n', b + "\n" + d);
    SplitJoin(b, '\n', d);
    SplitNone(d, '\n');
  }

  lemma OpenSealed(c: Crypto, keys: Keys, plaintext: seq<Byte>)
    ensures Open(c, keys, c.mac(keys.hmac, Ciphertext(c, keys, plaintext)), Ciphertext(c, keys, plaintext)) == Ok(plaintext)
  {
    hide Unpad, Pad, ApplyKeystream;
    KeystreamTwice(c, keys, Pad(plaintext));
    UnpadPad(plaintext);
  }

  /** Decrypting a file with given parts, whoever made it: the MAC of the ciphertext under the second 32 derived
      bytes is compared with the stored one, then the keystream of the first 32 under the last 16 is taken off,
      then the padding. */
  lemma OpensExactly(c: Crypto, salt: seq<Byte>, tag: seq<Byte>, ciphertext: seq<Byte>, password: string)
    ensures Utf8.IsAscii(Envelope(salt, tag, ciphertext))
    ensures var d := c.kdf(password, salt);
      Decrypt(c, Utf8.AsciiBytes(Envelope(salt, tag, ciphertext)), password)
        == if c.mac(d[32..64], ciphertext) != tag then Err(HmacMismatch)
           else Unpad(seq<Byte>(|ciphertext|, i requires 0 <= i < |ciphertext| =>
                                  XorByte(ciphertext[i], c.keystream(d[..32], d[64..], i))))
  {
    EnvelopeIsAscii(salt, tag, ciphertext);
    EnvelopeOpened(c, salt, tag, ciphertext, password);
    var d := c.kdf(password, salt);
    assert ApplyKeystream(c, KeysOf(d), ciphertext)
        == seq<Byte>(|ciphertext|, i requires 0 <= i < |ciphertext| =>
                       XorByte(ciphertext[i], c.keystream(d[..32], d[64..], i)));
  }

  lemma EnvelopeOpened(c: Crypto, salt: seq<Byte>, tag: seq<Byte>, ciphertext: seq<Byte>, password: string)
    requires Utf8.IsAscii(Envelope(salt, tag, ciphertext))
    ensures Decrypt(c, Utf8.AsciiBytes(Envelope(salt, tag, ciphertext)), password)
         == Open(c, KeysOf(c.kdf(password, salt)), tag, ciphertext)
  {
    hide Lines, HexEncode, HexDecode, Split, Wrap, Utf8.Decode, Open, ParseHeader, Utf8.AsciiBytes, Inner;
    var inner := Inner(salt, tag, ciphertext);
    InnerIsAscii(salt, tag, ciphertext);
    var outer := HexEncode(Utf8.AsciiBytes(inner));
    HexIsPlain(Utf8.AsciiBytes(inner));
    Utf8.DecodeAscii(Envelope(salt, tag, ciphertext));
    HeaderIsAscii();
    LinesOf(HEADER, Wrap(outer));
    HeaderAccepted();
    UnwrapWrap(outer);
    HexRoundTrip(Utf8.AsciiBytes(inner));
    Utf8.DecodeAscii(inner);
    InnerParts(salt, tag, ciphertext);
    HexRoundTrip(salt);
    HexRoundTrip(tag);
    HexRoundTrip(ciphertext);
  }

  /** What any password makes of an envelope: its parts, taken out of the hex, the wrapping and the UTF-8. */
  lemma Unwrapped(c: Crypto, plaintext: seq<Byte>, password: string, salt: seq<Byte>, other: string)
    ensures var keys := KeysOf(c.kdf(password, salt));
      var ciphertext := Ciphertext(c, keys, plaintext);
      Decrypt(c, Encrypt(c, plaintext, password, salt), other)
        == Open(c, KeysOf(c.kdf(other, salt)), c.mac(keys.hmac, ciphertext), ciphertext)
  {
    hide Open, Ciphertext, Utf8.AsciiBytes, Envelope, Decrypt;
    var keys := KeysOf(c.kdf(password, salt));
    var ciphertext := Ciphertext(c, keys, plaintext);
    var tag := c.mac(keys.hmac, ciphertext);
    EnvelopeIsAscii(salt, tag, ciphertext);
    EnvelopeOpened(c, salt, tag, ciphertext, other);
  }

  /** The envelope round trip, for every plaintext, password and salt. */
  lemma RoundTrip(c: Crypto, plaintext: seq<Byte>, password: string, salt: seq<Byte>)
    ensures Decrypt(c, Encrypt(c, plaintext, password, salt), password) == Ok(plaintext)
  {
    hide Decrypt, Encrypt, Open, Ciphertext;
    Unwrapped(c, plaintext, password, salt, password);
    OpenSealed(c, KeysOf(c.kdf(password, salt)), plaintext);
  }

  /** Under another password nothing is deciphered unless the two MAC keys agree on the ciphertext. */
  lemma WrongPassword(c: Crypto, plaintext: seq<Byte>, password: string, salt: seq<Byte>, other: string)
    ensures var ciphertext := Ciphertext(c, KeysOf(c.kdf(password, salt)), plaintext);
      Decrypt(c, Encrypt(c, plaintext, password, salt), other) == Err(HmacMismatch)
      <==> c.mac(KeysOf(c.kdf(other, salt)).hmac, ciphertext) != c.mac(KeysOf(c.kdf(password, salt)).hmac, ciphertext)
  {
    hide Decrypt, Encrypt, Ciphertext, ApplyKeystream;
    Unwrapped(c, plaintext, password, salt, other);
  }

  /** Any two files with the same first line and the same non-space characters after it decrypt alike. */
  lemma LayoutDoesNotMatter(c: Crypto, first: string, rest1: string, rest2: string, password: string)
    requires '\n' !in first && NonSpace(rest1) == NonSpace(rest2)
    ensures DecryptText(c, first + "\n" + rest1, password) == DecryptText(c, first + "\n" + rest2, password)
  {
    LinesOf(first, rest1);
    LinesOf(first, rest2);
  }

  // ---------- the same, step by step ----------

  method StripBody(lines: seq<string>) returns (hexBody: string)
    ensures hexBody == Body(lines)
  {
    hexBody := "";
    var left := lines;
    Sequences.NothingAdded(Body(lines));
    while left != []
      invariant hexBody + Body(left) == Body(lines)
      decreases |left|
    {
      hide IsWhitespace;
      ghost var after := Body(left[1..]);
      ghost var goal := hexBody + NonSpace(left[0]);
      var line := left[0];
      Sequences.Associative(hexBody, NonSpace(line), after);
      while line != ""
        invariant hexBody + NonSpace(line) == goal
        decreases |line|
      {
        Sequences.Associative(hexBody, [line[0]], NonSpace(line[1..]));
        Sequences.NothingAdded(NonSpace(line[1..]));
        if !IsWhitespace(line[0]) {
          hexBody := hexBody + [line[0]];
        }
        line := line[1..];
      }
      Sequences.NothingAdded(hexBody);
      left := left[1..];
    }
    Sequences.NothingAdded(hexBody);
  }

  method StripPadding(buf: seq<Byte>) returns (r: Result<seq<Byte>>)
    ensures r == Unpad(buf)
  {
    if buf == [] {
      return Err(BadPadding);
    }
    var pad := buf[|buf| - 1];
    if pad == 0 || pad > |buf| {
      return Err(BadPadding);
    }
    var cut := |buf| - pad;
    for i := cut to |buf|
      invariant forall k :: cut <= k < i ==> buf[k] == pad
    {
      if buf[i] != pad {
        assert buf[cut..][i - cut] != Repeat(pad, pad)[i - cut];
        return Err(BadPadding);
      }
    }
    assert buf[cut..] == Repeat(pad, pad);
    r := Ok(buf[..cut]);
  }

  method DecryptFile(c: Crypto, bytes: seq<Byte>, password: string) returns (r: Result<seq<Byte>>)
    ensures r == Decrypt(c, bytes, password)
  {
    hide Lines, Body, Split, HexDecode, Utf8.Decode, ParseHeader, Unpad, ApplyKeystream;
    var text := Utf8.Decode(bytes);
    if text.None? {
      return Err(NotUtf8);
    }
    var lines := Lines(text.value);
    if lines == [] {
      return Err(Empty);
    }
    var header := ParseHeader(lines[0]);
    if header.Err? {
      return Err(header.error);
    }
    var hexBody := StripBody(lines[1..]);
    var outer := HexDecode(hexBody);
    if outer.Err? {
      return Err(outer.error);
    }
    var outerText := Utf8.Decode(outer.value);
    if outerText.None? {
      return Err(NotUtf8);
    }
    var parts := Split(outerText.value, '\n');
    if |parts| != 3 {
      return Err(NotThreeParts);
    }
    var salt, storedHmac, ciphertext := HexDecode(parts[0]), HexDecode(parts[1]), HexDecode(parts[2]);
    if salt.Err? || storedHmac.Err? || ciphertext.Err? {
      return Err(BadHex);
    }
    var keys := KeysOf(c.kdf(password, salt.value));
    if c.mac(keys.hmac, ciphertext.value) != storedHmac.value {
      return Err(HmacMismatch);
    }
    var buf := ApplyKeystream(c, keys, ciphertext.value);
    r := StripPadding(buf);
  }

  method WrapLines(outer: string) returns (out: string)
    ensures out == HEADER + "\n" + Wrap(outer)
  {
    out := HEADER + "\n";
    var left := outer;
    while left != ""
      invariant out + Wrap(left) == HEADER + "\n" + Wrap(outer)
      decreases |left|
    {
      hide HEADER;
      var n := if |left| <= 80 then |left| else 80;
      Sequences.Rejoin(left, |left|);
      Sequences.Associative(out, left[..n] + "\n", Wrap(left[n..]));
      Sequences.NothingAdded(left[..n] + "\n");
      out := out + (left[..n] + "\n");
      left := left[n..];
    }
    Sequences.NothingAdded(out);
  }

  method EncryptForTest(c: Crypto, plaintext: seq<Byte>, password: string, salt: seq<Byte>) returns (bytes: seq<Byte>)
    ensures bytes == Encrypt(c, plaintext, password, salt)
  {
    hide Wrap, HexEncode, ApplyKeystream, Inner, Utf8.IsAscii, Utf8.AsciiBytes, HEADER;
    var keys := KeysOf(c.kdf(password, salt));
    var pad: Byte := 16 - |plaintext| % 16;
    var buf := plaintext + Repeat(pad, pad);
    buf := ApplyKeystream(c, keys, buf);
    var tag := c.mac(keys.hmac, buf);
    InnerIsAscii(salt, tag, buf);
    var inner := Inner(salt, tag, buf);
    var out := WrapLines(HexEncode(Utf8.AsciiBytes(inner)));
    EncryptIsAscii(c, plaintext, password, salt);
    bytes := Utf8.AsciiBytes(out);
  }
}
