/** What each layer of a vault file accepts and rejects, for files nobody here has made. */
module VaultRules {
  import opened Words
  import opened Text
  import opened Vault
  import Utf8
  import Sequences

  // ---------- padding ----------

  /** A buffer is unpadded to p exactly if it is p followed by n bytes of value n, for some n from 1 to 255. */
  lemma UnpadExactly(buf: seq<Byte>, p: seq<Byte>)
    ensures var n := |buf| - |p|;
      Unpad(buf) == Ok(p) <==> 1 <= n <= 255 && p <= buf && forall i :: |p| <= i < |buf| ==> buf[i] == n
  {
    var n := |buf| - |p|;
    if Unpad(buf) == Ok(p) {
      assert buf[|p|..] == Repeat(n, n);
      assert forall i :: |p| <= i < |buf| ==> buf[i] == buf[|p|..][i - |p|];
    }
    if 1 <= n <= 255 && p <= buf && forall i :: |p| <= i < |buf| ==> buf[i] == n {
      assert buf[|p|..] == Repeat(n, n);
      assert buf[..|p|] == p;
    }
  }

  /** Everything else is a padding error. */
  lemma UnpadFails(buf: seq<Byte>)
    ensures Unpad(buf).Err? ==> Unpad(buf) == Err(BadPadding)
  {
  }

  /** Padding adds n bytes of value n, the fewest that fill the last block of sixteen and at least one. */
  lemma PadExactly(p: seq<Byte>)
    ensures var n := |Pad(p)| - |p|;
      1 <= n <= 16 && |Pad(p)| % 16 == 0 && p <= Pad(p) && forall i :: |p| <= i < |Pad(p)| ==> Pad(p)[i] == n
  {
  }

  // ---------- hex ----------

  function LowerDigit(c: char): char {
    if 'A' <= c <= 'F' then (c as int - 'A' as int + 'a' as int) as char else c
  }

  function Lower(s: string): (r: string)
    ensures |r| == |s|
  {
    seq(|s|, i requires 0 <= i < |s| => LowerDigit(s[i]))
  }

  lemma DigitExactly(c: char, n: nat)
    requires n < 16
    ensures HexValue(c) == n <==> LowerDigit(c) == HexDigit(n)
  {
  }

  /** A text is decoded to bs exactly if, in lower case, it is the hex of bs. */
  lemma {:induction false} HexExactly(s: string, bs: seq<Byte>)
    ensures HexDecode(s) == Ok(bs) <==> Lower(s) == HexEncode(bs)
    decreases |s|
  {
    if s == "" || |s| == 1 {
      assert HexDecode(s) == Ok(bs) <==> s == "" && bs == [];
      assert Lower(s) == HexEncode(bs) ==> |s| == 2 * |bs|;
    } else if bs == [] {
    } else {
      var low := Lower(s);
      HexExactly(s[2..], bs[1..]);
      assert low[2..] == Lower(s[2..]);
      assert HexEncode(bs) == [HexDigit(bs[0] / 16), HexDigit(bs[0] % 16)] + HexEncode(bs[1..]);
      DigitExactly(s[0], bs[0] / 16);
      DigitExactly(s[1], bs[0] % 16);
      assert low == [low[0], low[1]] + low[2..];
      assert bs == [bs[0]] + bs[1..];
      if HexDecode(s) == Ok(bs) {
        assert bs[0] == 16 * HexValue(s[0]) + HexValue(s[1]);
      }
    }
  }

  // ---------- the header ----------

  /** The first thing wrong with a header decides the error: the prefix, a missing cipher, the version, the cipher. */
  lemma HeaderErrors(header: string, v: string, cipher: string, more: string)
    requires ';' !in v && ';' !in cipher
    ensures !("$ANSIBLE_VAULT;" <= Trim(header)) ==> ParseHeader(header) == Err(BadHeader)
    ensures Trim(header) == "$ANSIBLE_VAULT;" + v ==> ParseHeader(header) == Err(BadHeader)
    ensures Trim(header) in {"$ANSIBLE_VAULT;" + (v + ";" + cipher), "$ANSIBLE_VAULT;" + (v + ";" + (cipher + ";" + more))} ==>
      ParseHeader(header) == if v != "1.1" && v != "1.2" then Err(UnsupportedVersion)
                             else if cipher != "AES256" then Err(UnsupportedCipher)
                             else Ok(())
  {
    hide Trim, Split;
    SplitNone(v, ';');
    SplitNone(cipher, ';');
    SplitJoin(v, ';', cipher);
    SplitJoin(cipher, ';', more);
    SplitJoin(v, ';', cipher + ";" + more);
    assert v + [';'] + cipher == v + ";" + cipher;
    assert cipher + [';'] + more == cipher + ";" + more;
    assert v + [';'] + (cipher + ";" + more) == v + ";" + (cipher + ";" + more);
    Behind(v);
    Behind(v + ";" + cipher);
    Behind(v + ";" + (cipher + ";" + more));
  }

  lemma Behind(rest: string)
    ensures PREFIX <= PREFIX + rest && (PREFIX + rest)[|PREFIX|..] == rest
  {
  }

  // ---------- the body ----------

  function Newlines(s: string): nat {
    if s == "" then 0 else (if s[0] == '\n' then 1 else 0) + Newlines(s[1..])
  }

  lemma {:induction false} PartsAreNewlines(s: string)
    ensures |Split(s, '\n')| == 1 + Newlines(s)
    decreases |s|
  {
    if s != "" { PartsAreNewlines(s[1..]); }
  }

  /** What the outer hex decodes to must be UTF-8 of three lines, each of them hex. */
  lemma BodyErrors(c: Crypto, hexBody: string, password: string)
    ensures HexDecode(hexBody).Err? ==> DecryptBody(c, hexBody, password) == Err(BadHex)
    ensures HexDecode(hexBody).Ok? && !Utf8.Valid(HexDecode(hexBody).value) ==>
      DecryptBody(c, hexBody, password) == Err(NotUtf8)
    ensures forall text :: HexDecode(hexBody) == Ok(Utf8.Encode(text)) && Newlines(text) != 2 ==>
      DecryptBody(c, hexBody, password) == Err(NotThreeParts)
  {
    HexFails(hexBody);
    if HexDecode(hexBody).Ok? { Utf8.DecodesExactlyValid(HexDecode(hexBody).value); }
    forall text | HexDecode(hexBody) == Ok(Utf8.Encode(text)) && Newlines(text) != 2
      ensures DecryptBody(c, hexBody, password) == Err(NotThreeParts)
    {
      Utf8.DecodeEncode(text);
      PartsAreNewlines(text);
    }
  }

  lemma {:induction false} HexFails(s: string)
    ensures HexDecode(s).Err? ==> HexDecode(s) == Err(BadHex)
    decreases |s|
  {
    if |s| >= 2 { HexFails(s[2..]); }
  }

  /** A part that is not hex is reported before any key is derived. */
  lemma PartErrors(c: Crypto, a: string, b: string, d: string, password: string)
    requires HexDecode(a).Err? || HexDecode(b).Err? || HexDecode(d).Err?
    ensures DecryptParts(c, [a, b, d], password) == Err(BadHex)
  {
  }

  // ---------- what encryption writes ----------

  /** The file holds the salt, the MAC under the second 32 derived bytes of the ciphertext, and the ciphertext: the
      padded plaintext, each byte with the byte of the keystream of the first 32 under the last 16. */
  lemma SealsExactly(c: Crypto, plaintext: seq<Byte>, password: string, salt: seq<Byte>)
    ensures var d := c.kdf(password, salt);
      exists ciphertext ::
        EncryptText(c, plaintext, password, salt) == Envelope(salt, c.mac(d[32..64], ciphertext), ciphertext)
        && |ciphertext| == |Pad(plaintext)|
        && forall i :: 0 <= i < |ciphertext| ==>
             ciphertext[i] == XorByte(Pad(plaintext)[i], c.keystream(d[..32], d[64..], i))
  {
    hide Envelope, Pad;
    var d := c.kdf(password, salt);
    var ciphertext := Ciphertext(c, KeysOf(d), plaintext);
    assert EncryptText(c, plaintext, password, salt) == Envelope(salt, c.mac(d[32..64], ciphertext), ciphertext);
  }

  /** Lines of eighty characters: a newline behind every eightieth and behind the last. */
  lemma {:induction false} WrapExactly(s: string)
    ensures |Wrap(s)| == |s| + (|s| + 79) / 80
    ensures forall i :: 0 <= i < |s| ==> Wrap(s)[i + i / 80] == s[i]
    ensures s != "" ==> Wrap(s)[|Wrap(s)| - 1] == '\n'
    ensures forall k :: 0 <= k && 80 * k + 80 < |s| ==> Wrap(s)[81 * k + 80] == '\n'
    decreases |s|
  {
    if |s| > 80 {
      var rest := s[80..];
      WrapExactly(rest);
      var w := Wrap(s);
      assert w == s[..80] + "\n" + Wrap(rest);
      forall i | 0 <= i < |s|
        ensures w[i + i / 80] == s[i]
      {
        if i >= 80 { assert (i - 80) + (i - 80) / 80 + 81 == i + i / 80 && rest[i - 80] == s[i]; }
      }
      forall k | 0 <= k && 80 * k + 80 < |s|
        ensures w[81 * k + 80] == '\n'
      {
        if k > 0 { assert w[81 * k + 80] == Wrap(rest)[81 * (k - 1) + 80]; }
      }
    }
  }
}
