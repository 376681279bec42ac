/** A message that was cut short is noticed: no read ever makes up the bytes that are missing. */
module WireTruncation {
  import opened Words
  import opened BitLayout
  import opened Varint
  import opened VarintRules
  import opened WireProgram
  import Sequences

  // ---------- one value ----------

  lemma ContinuedPrefix(bs: seq<Byte>, n: nat)
    requires Delimited(bs) && n < |bs|
    ensures AllContinued(bs[..n])
  {
  }

  lemma LebCut(v: nat, n: nat)
    requires v < TWO_TO_63 && n < |LebBytes(v)|
    ensures LebDecode(LebBytes(v)[..n]) == Err(UnexpectedEof)
  {
    LebMeaning(v);
    LebLength(v, 8);
    Pow2Of64();
    ContinuedPrefix(LebBytes(v), n);
    LebReads(LebBytes(v)[..n], []);
  }

  lemma SlebCut(v: I64, n: nat)
    requires n < |SlebBytes(v)|
    ensures SlebDecode(SlebBytes(v)[..n]) == Err(UnexpectedEof)
  {
    SlebMeaning(v);
    SlebRoundTrip(v, []);
    ContinuedPrefix(SlebBytes(v), n);
    SlebReads(SlebBytes(v)[..n], []);
  }

  lemma VlqCut(v: U64, n: nat)
    requires v <= 0x0FFF_FFFF && VlqEncode(v).Ok? && n < |VlqEncode(v).value|
    ensures VlqDecode(VlqEncode(v).value[..n]) == Err(UnexpectedEof)
  {
    VlqMeaning(v);
    VlqRoundTrip(v, []);
    ContinuedPrefix(VlqEncode(v).value, n);
    VlqReads(VlqEncode(v).value[..n], []);
  }

  lemma DerCut(v: U64, n: nat)
    requires n < |DerBytes(v)|
    ensures DerDecode(DerBytes(v)[..n]) == Err(UnexpectedEof)
  {
    hide BeTrimmed, FromBe;
    DerLength(v);
    DerMeaning(v);
    if n > 0 { assert DerBytes(v)[..n][0] == DerBytes(v)[0]; }
  }

  lemma EbmlCut(v: U64, n: nat)
    requires EbmlEncode(v).Ok? && n < |EbmlEncode(v).value|
    ensures EbmlDecode(EbmlEncode(v).value[..n]) == Err(UnexpectedEof)
  {
    hide Pow2, FromBe, FromBeAfter, BeBytes, EbmlWidth, EbmlLead, Shr, Low;
    EbmlWidthExact(v);
    EbmlMeaning(v);
    var w := EbmlWidth(v, 1);
    assert EbmlEncode(v).value == BeBytes(Pow2(7 * w) + v, w);
    EbmlFirstByte(v, w);
    BeBytesSplit(Pow2(7 * w) + v, w);
    if n > 0 { assert EbmlEncode(v).value[..n][0] == EbmlEncode(v).value[0]; }
  }

  /** Every proper beginning of a written value reads as the end of input, in all formats. */
  lemma ValueCut(w: Write, n: nat)
    requires InRange(w) && !w.shape.BitField? && Encode(w).Ok? && n < |Encode(w).value|
    ensures Decode(w.shape, Encode(w).value[..n]) == Err(UnexpectedEof)
  {
    match w.shape
    case Fixed(size, e) =>
    case Variable(Leb128) => LebCut(w.value, n);
    case Variable(Der) => DerCut(w.value, n);
    case Variable(Ebml) => EbmlCut(w.value, n);
    case Variable(Vlq) => VlqCut(w.value, n);
    case Variable(ZigZag128) => ZigZagBijection(w.value, 0); LebCut(ZigZag(w.value), n);
    case Variable(Sleb128) => SlebCut(w.value, n);
  }

  // ---------- a program ----------

  /** What is left of written bytes when the stream ends inside them. */
  lemma BytesCut(order: BitOrder, stream: seq<bool>, bs: seq<Byte>, cut: nat)
    requires |stream| <= cut < |stream| + 8 * |bs| == |PutBytes(order, stream, bs)|
    ensures BytesFrom(order, PutBytes(order, stream, bs)[..cut], |stream|) == bs[..(cut - |stream|) / 8]
  {
    var eff, n := Effective(order, |stream|), (cut - |stream|) / 8;
    var bits := PutBytes(order, stream, bs)[..cut][|stream|..];
    assert bits == Pack(eff, bs)[..cut - |stream|];
    forall k | 0 <= k < n
      ensures Unpack(eff, bits)[k] == bs[k]
    {
      PackAt(eff, bs, k);
      assert bits[8 * k..8 * k + 8] == Pack(eff, bs)[8 * k..8 * k + 8];
      ByteRoundTrip(eff, bs[k]);
    }
  }

  lemma WriteCut(order: BitOrder, stream: seq<bool>, w: Write, cut: nat)
    requires InRange(w) && |stream| <= cut < |Put(order, stream, w)|
    ensures Get(order, Put(order, stream, w)[..cut], |stream|, w.shape) == Err(UnexpectedEof)
  {
    hide Encode, Decode, PutBytes, BytesFrom, FromField, Field;
    if !w.shape.BitField? {
      DecodeEncode(w, []);
      var bs := Encode(w).value;
      BytesFromPut(order, stream, bs, []);
      BytesCut(order, stream, bs, cut);
      ValueCut(w, (cut - |stream|) / 8);
    }
  }

  /** Wherever a program's stream is cut, the matching reads report the end of input. */
  lemma {:induction false} ProgramCut(order: BitOrder, stream: seq<bool>, ws: seq<Write>, cut: nat)
    requires AllInRange(ws) && |stream| <= cut < |PutAll(order, stream, ws)|
    ensures GetAll(order, PutAll(order, stream, ws)[..cut], |stream|, Shapes(ws)) == Err(UnexpectedEof)
    decreases |ws|
  {
    hide Get, Put;
    var next, end := Put(order, stream, ws[0]), PutAll(order, stream, ws);
    ProgramRoundTrip(order, next, ws[1..], []);
    FirstAndRest(ws);
    if cut < |next| {
      assert end[..cut] == next[..cut];
      WriteCut(order, stream, ws[0], cut);
    } else {
      ProgramCut(order, next, ws[1..], cut);
      assert end[..cut] == next + end[|next|..cut];
      OneRoundTrip(order, stream, ws[0], end[|next|..cut]);
    }
  }

  lemma {:induction false} PackPrefix(order: BitOrder, bs: seq<Byte>, k: nat)
    requires k <= |bs|
    ensures Pack(order, bs[..k]) == Pack(order, bs)[..8 * k]
  {
    PackConcat(order, bs[..k], bs[k..]);
    Sequences.Rejoin(bs, k);
  }

  /** A finished message that has lost any bytes at its end is refused by the reads that match it. */
  lemma MessageCut(order: BitOrder, ws: seq<Write>, bytes: seq<Byte>, k: nat)
    requires AllInRange(ws) && k < |bytes|
    requires Pack(order, bytes) == Padded(PutAll(order, [], ws))
    ensures GetAll(order, Pack(order, bytes[..k]), 0, Shapes(ws)) == Err(UnexpectedEof)
  {
    var stream := PutAll(order, [], ws);
    PackPrefix(order, bytes, k);
    assert 8 * k < |stream|;
    assert Padded(stream)[..8 * k] == stream[..8 * k];
    ProgramCut(order, [], ws, 8 * k);
  }
}
