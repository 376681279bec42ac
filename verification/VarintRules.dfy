/** What the readers make of any bytes, and not only of those the writers emit: overlong forms, missing ends, and
    values that do not fit. */
module VarintRules {
  import opened Words
  import opened BitLayout
  import opened Varint
  import Sequences

  predicate AllContinued(bs: seq<Byte>) {
    forall i :: 0 <= i < |bs| ==> bs[i] >= 128
  }

  // ---------- fixed width ----------

  /** Which byte of an integer is written where: the last one is the least significant in big-endian order, the
      first one in little-endian order. */
  lemma {:induction false} IntLayout(e: Endianness, v: nat, k: nat, i: nat)
    requires i < k
    ensures IntBytes(e, v, k)[i] == Shr(v, 8 * (if e.BigEndian? then k - 1 - i else i)) % 256
    decreases k
  {
    if (e.BigEndian? && i == k - 1) || (e.LittleEndian? && i == 0) {
      assert Shr(v, 0) == v;
    } else if e.BigEndian? {
      IntLayout(e, v / 256, k - 1, i);
      ShrByte(v, 8 * (k - 2 - i));
    } else {
      IntLayout(e, v / 256, k - 1, i - 1);
      ShrByte(v, 8 * (i - 1));
    }
  }

  /** Every run of bytes is read as the integer it is written for. */
  lemma {:induction false} IntBack(e: Endianness, bs: seq<Byte>)
    ensures IntBytes(e, FromBytes(e, bs), |bs|) == bs
    decreases |bs|
  {
    if bs != [] {
      match e
      case BigEndian =>
        var front := bs[..|bs| - 1];
        IntBack(e, front);
        LastDigit(FromBe(front), bs[|bs| - 1]);
        Sequences.Rejoin(bs, |bs| - 1);
      case LittleEndian =>
        IntBack(e, bs[1..]);
        LastDigit(FromLe(bs[1..]), bs[0]);
        Sequences.Rejoin(bs, 1);
    }
  }

  lemma LastDigit(high: nat, b: Byte)
    ensures (256 * high + b) / 256 == high && (256 * high + b) % 256 == b
  {
  }

  // ---------- LEB128 ----------

  lemma {:induction false} LebAhead(bs: seq<Byte>, k: nat, acc: nat, h: seq<Byte>)
    requires k <= 9 && k + |h| <= |bs| && bs[k..k + |h|] == h && Delimited(h)
    ensures LebFrom(bs, k, acc)
         == if k + |h| <= 9 then Ok(Parsed(acc + Shl(LittleSevens(h), 7 * k), k + |h|)) else Err(InvalidEncoding)
    decreases |h|
  {
    hide Shl;
    assert bs[k] == h[0];
    var t := h[1..];
    if |h| == 1 {
      assert t == [];
      assert LittleSevens(h) == h[0] % 128;
    } else if k < 9 {
      assert bs[k + 1..k + 1 + |t|] == t;
      LebAhead(bs, k + 1, acc + Shl(h[0] % 128, 7 * k), t);
      SevensSplit(h[0] % 128, LittleSevens(t), 7 * k);
    }
  }

  lemma SevensSplit(d: nat, t: nat, s: nat)
    requires d < 128
    ensures Shl(d, s) + Shl(t, s + 7) == Shl(d + 128 * t, s)
  {
    ShlSplit(d + 128 * t, s);
  }

  lemma {:induction false} LebEndless(bs: seq<Byte>, k: nat, acc: nat)
    requires AllContinued(bs) && k <= 9 && k <= |bs|
    ensures LebFrom(bs, k, acc) == if |bs| >= 10 then Err(InvalidEncoding) else Err(UnexpectedEof)
    decreases |bs| - k
  {
    hide Shl;
    if k < |bs| && k < 9 { LebEndless(bs, k + 1, acc + Shl(bs[k] % 128, 7 * k)); }
  }

  /** Whatever the bytes: up to the first without continuation bit, at most nine, they are a little-endian number in
      base 128, overlong or not; ten bytes or more are refused, and fewer without an end are the end of input. */
  lemma LebReads(h: seq<Byte>, tail: seq<Byte>)
    ensures Delimited(h) ==>
      LebDecode(h + tail) == if |h| <= 9 then Ok(Parsed(LittleSevens(h), |h|)) else Err(InvalidEncoding)
    ensures AllContinued(h) ==> LebDecode(h) == if |h| >= 10 then Err(InvalidEncoding) else Err(UnexpectedEof)
  {
    hide LebFrom;
    if Delimited(h) {
      assert (h + tail)[0..|h|] == h;
      LebAhead(h + tail, 0, 0, h);
      NoShift(LittleSevens(h));
    }
    if AllContinued(h) { LebEndless(h, 0, 0); }
  }

  lemma NoShift(v: nat)
    ensures Shl(v, 0) == v
  {
  }

  // ---------- SLEB128 ----------

  /** The number modulo 2^64, read as two's complement. */
  function Wrap(x: int): int {
    (x + 0x8000_0000_0000_0000) % 0x1_0000_0000_0000_0000 - 0x8000_0000_0000_0000
  }

  lemma Low64(x: nat)
    ensures Low(x, 64) == x % TWO_TO_64
  {
    hide Low, Pow2;
    Pow2Of64();
    var q, r := x / TWO_TO_64, x % TWO_TO_64;
    ShlIsTimes(q, 64);
    LowAddMultiple(r, q, 64);
    LowOfSmall(r, 64);
  }

  lemma Distribute(d: int, t: int, p: int)
    ensures (d + 128 * t) * p == d * p + t * (128 * p)
  {
  }

  lemma SlebEnds(k: nat, acc: nat, d: Byte)
    requires k <= 9 && acc < Pow2(7 * k) && d < 128
    ensures SlebSigned(Low(acc + Shl(d, 7 * k), 64), k + 1, d)
         == Wrap(acc + (if d >= 64 then d as int - 128 else d) * Pow2(7 * k))
  {
    hide SlebSigned, Low, Shl, Wrap, Pow2;
    if k < 9 { SlebEndsShort(k, acc, d); } else { SlebEndsLong(acc, d); }
  }

  lemma SlebEndsShort(k: nat, acc: nat, d: Byte)
    requires k < 9 && acc < Pow2(7 * k) && d < 128
    ensures SlebSigned(Low(acc + Shl(d, 7 * k), 64), k + 1, d)
         == Wrap(acc + (if d >= 64 then d as int - 128 else d) * Pow2(7 * k))
  {
    hide Low, Pow2, Shl, Wrap, SlebSigned;
    SlebNoOverflow(k, acc, d);
    SlebTopDigit(k, acc, d);
    Pow2OfSevens(k);
    ShlIsTimes(d, 7 * k);
    Pow2Monotone(7 * (k + 1), 63);
    Pow2Of64();
    var p, sum := Pow2(7 * k), acc + Shl(d, 7 * k);
    SignExtended(sum, k + 1, d);
    Unshifted(acc, d, p);
    WrapOfSmall(if d >= 64 then sum - 128 * p else sum);
  }

  lemma SignExtended(sum: nat, k: nat, last: Byte)
    requires k <= 9 && sum < Pow2(7 * k) <= TWO_TO_63 && last < 128
    requires last >= 64 <==> sum >= Pow2(7 * k) / 2
    ensures SlebSigned(sum, k, last) == if last >= 64 then sum - Pow2(7 * k) else sum
  {
    hide Pow2;
  }

  lemma Unshifted(acc: int, d: int, p: int)
    ensures acc + (d - 128) * p == acc + d * p - 128 * p
  {
  }

  lemma WrapOfSmall(x: int)
    requires -TWO_TO_63 <= x < TWO_TO_63
    ensures Wrap(x) == x
  {
  }

  lemma SlebEndsLong(acc: nat, d: Byte)
    requires acc < Pow2(63) && d < 128
    ensures SlebSigned(Low(acc + Shl(d, 63), 64), 10, d)
         == Wrap(acc + (if d >= 64 then d as int - 128 else d) * Pow2(63))
  {
    hide Low, Pow2, Shl, Wrap;
    Pow2Of64();
    ShlIsTimes(d, 63);
    var sum := acc + Shl(d, 63);
    Low64(sum);
    WrapOfNat(sum);
  }

  /** The same digits as a word, and the same number up to multiples of 2^64. */
  lemma WrapOfNat(x: nat)
    ensures Wrap(x) == AsI64(x % TWO_TO_64)
    ensures Wrap(x - 64 * TWO_TO_64) == Wrap(x)
  {
  }

  lemma {:induction false} SlebAhead(bs: seq<Byte>, k: nat, acc: nat, h: seq<Byte>)
    requires k + |h| <= |bs| && k + |h| <= 10 && bs[k..k + |h|] == h && Delimited(h) && acc < Pow2(7 * k)
    ensures SlebFrom(bs, k, acc) == Ok(Parsed(Wrap(acc + SignedSevens(h) * Pow2(7 * k)), k + |h|))
    decreases |h|
  {
    hide Shl, Low, Pow2, SlebSigned, Wrap;
    assert bs[k] == h[0];
    var d := h[0] % 128;
    if |h| == 1 {
      SlebEnds(k, acc, d);
      LastOfOne(h);
    } else {
      var t := h[1..];
      assert bs[k + 1..k + 1 + |t|] == t;
      SlebNoOverflow(k, acc, d);
      SlebAhead(bs, k + 1, acc + Shl(d, 7 * k), t);
      Pow2OfSevens(k);
      ShlIsTimes(d, 7 * k);
      Distribute(d, SignedSevens(t), Pow2(7 * k));
    }
  }

  lemma LastOfOne(h: seq<Byte>)
    requires |h| == 1 && Delimited(h)
    ensures SignedSevens(h) == (if h[0] >= 64 then h[0] as int - 128 else h[0]) && h[0] % 128 == h[0]
  {
  }

  lemma {:induction false} SlebEndless(bs: seq<Byte>, k: nat, acc: nat)
    requires AllContinued(bs) && k <= |bs| <= 10
    ensures SlebFrom(bs, k, acc) == Err(UnexpectedEof)
    decreases |bs| - k
  {
    hide Shl, Low;
    if k < |bs| { SlebEndless(bs, k + 1, Low(acc + Shl(bs[k] % 128, 7 * k), 64)); }
  }

  /** Up to ten bytes, overlong or not, are a little-endian number in base 128 with a signed last digit, cut to 64
      bits; fewer than eleven without an end are the end of input. */
  lemma SlebReads(h: seq<Byte>, tail: seq<Byte>)
    ensures Delimited(h) && |h| <= 10 ==> SlebDecode(h + tail) == Ok(Parsed(Wrap(SignedSevens(h)), |h|))
    ensures AllContinued(h) && |h| <= 10 ==> SlebDecode(h) == Err(UnexpectedEof)
  {
    hide SlebFrom, Wrap, SignedSevens;
    if Delimited(h) && |h| <= 10 {
      assert (h + tail)[0..|h|] == h;
      assert Pow2(7 * 0) == 1;
      SlebAhead(h + tail, 0, 0, h);
    }
    if AllContinued(h) && |h| <= 10 { SlebEndless(h, 0, 0); }
  }

  /** The digits taken so far do not depend on when the number was cut to 64 bits. */
  lemma CutTwice(x: nat, y: nat)
    ensures Low(Low(x, 64) + y, 64) == Low(x + y, 64)
  {
    hide Low;
    Low64(x);
    Low64(x % TWO_TO_64 + y);
    Low64(x + y);
  }

  lemma {:induction false} SlebTenBytes(bs: seq<Byte>, k: nat, acc: nat)
    requires k <= 10 < |bs| && acc < TWO_TO_64 && forall i :: 0 <= i < 10 ==> bs[i] >= 128
    ensures SlebFrom(bs, k, acc) == SlebEleventh(bs[10], Low(acc + Shl(LittleSevens(bs[k..10]), 7 * k), 64))
    decreases 10 - k
  {
    hide Low, Shl, SlebEleventh, LittleSevens;
    if k == 10 {
      NoSevensLeft(bs[10..10], 70);
      Low64(acc);
    } else {
      var d, t := bs[k] % 128, LittleSevens(bs[k + 1..10]);
      var next := Low(acc + Shl(d, 7 * k), 64);
      Low64(acc + Shl(d, 7 * k));
      SlebTenBytes(bs, k + 1, next);
      CutTwice(acc + Shl(d, 7 * k), Shl(t, 7 * (k + 1)));
      assert bs[k..10] == [bs[k]] + bs[k + 1..10];
      OneMoreSeven(bs[k], bs[k + 1..10]);
      SevensSplit(d, t, 7 * k);
    }
  }

  lemma NoSevensLeft(none: seq<Byte>, s: nat)
    requires none == []
    ensures Shl(LittleSevens(none), s) == 0
  {
    ShlIsTimes(0, s);
  }

  lemma OneMoreSeven(b: Byte, bs: seq<Byte>)
    ensures LittleSevens([b] + bs) == b % 128 + 128 * LittleSevens(bs)
  {
    assert ([b] + bs)[1..] == bs;
  }

  /** Behind ten bytes with continuation bit the eleventh is refused if it has one too.  Otherwise a build with
      overflow checks stops, and one without puts its digits on top of those from the sixth on, where a shift by 70
      ends up. */
  lemma SlebReadsEleven(h: seq<Byte>, b: Byte, tail: seq<Byte>)
    requires |h| == 10 && AllContinued(h)
    ensures SlebDecode(h + [b] + tail)
         == if OVERFLOW_CHECKS then Err(ShiftOverflow)
            else if b >= 128 then Err(InvalidEncoding)
            else Ok(Parsed(Wrap(Or(LittleSevens(h) % TWO_TO_64, 64 * b)), 11))
  {
    hide SlebFrom, Low, Shl, Or, LittleSevens, Wrap, SlebEleventh;
    var bs := h + [b] + tail;
    assert bs[0..10] == h && bs[10] == b;
    SlebTenBytes(bs, 0, 0);
    NoShift(LittleSevens(h));
    Low64(LittleSevens(h));
    EleventhRead(LittleSevens(h) % TWO_TO_64, b);
  }

  lemma EleventhRead(acc: nat, b: Byte)
    requires acc < TWO_TO_64
    ensures SlebEleventh(b, acc)
         == if OVERFLOW_CHECKS then Err(ShiftOverflow)
            else if b >= 128 then Err(InvalidEncoding)
            else Ok(Parsed(Wrap(Or(acc, 64 * b)), 11))
  {
    hide Shl, Or, Wrap;
    ShlIsTimes(b, 6);
    assert Pow2(6) == 64;
    if b < 128 {
      OrFits(acc, 64 * b);
      WrapOfNat(Or(acc, 64 * b));
    }
  }

  lemma OrFits(x: nat, y: nat)
    requires x < TWO_TO_64 && y < TWO_TO_64
    ensures Or(x, y) < TWO_TO_64
  {
    Pow2Of64();
    forall j: nat | j >= 64
      ensures !Bit(Or(x, y), j)
    {
      BitOr(x, y, j);
      BitBeyond(x, 64, j);
      BitBeyond(y, 64, j);
    }
    BoundedByDigits(Or(x, y), 64);
  }

  // ---------- VLQ ----------

  lemma {:induction false} VlqAhead(bs: seq<Byte>, k: nat, n: nat)
    requires k < n <= |bs| && Delimited(bs[..n]) && k <= 4
    ensures VlqFrom(bs, k, BigSevens(bs[..k]))
         == if n <= 4 then Ok(Parsed(BigSevens(bs[..n]), n)) else Err(InvalidEncoding)
    decreases n - k
  {
    assert bs[..n][k] == bs[k];
    assert bs[..k + 1][..k] == bs[..k];
    if k + 1 == n {
      assert bs[k] < 128;
    } else if k < 4 {
      VlqAhead(bs, k + 1, n);
    }
  }

  lemma {:induction false} VlqEndless(bs: seq<Byte>, k: nat, acc: nat)
    requires AllContinued(bs) && k <= 4 && k <= |bs|
    ensures VlqFrom(bs, k, acc) == if |bs| >= 4 then Err(InvalidEncoding) else Err(UnexpectedEof)
    decreases |bs| - k
  {
    if k < |bs| && k < 4 { VlqEndless(bs, k + 1, 128 * acc + bs[k] % 128); }
  }

  /** Up to four bytes, overlong or not, are a big-endian number in base 128; more are refused, and fewer without an
      end are the end of input. */
  lemma VlqReads(h: seq<Byte>, tail: seq<Byte>)
    ensures Delimited(h) ==>
      VlqDecode(h + tail) == if |h| <= 4 then Ok(Parsed(BigSevens(h), |h|)) else Err(InvalidEncoding)
    ensures AllContinued(h) ==> VlqDecode(h) == if |h| >= 4 then Err(InvalidEncoding) else Err(UnexpectedEof)
  {
    hide VlqFrom;
    if Delimited(h) {
      var bs := h + tail;
      assert bs[..|h|] == h && bs[..0] == [];
      VlqAhead(bs, 0, |h|);
    }
    if AllContinued(h) { VlqEndless(h, 0, 0); }
  }

  // ---------- DER ----------

  /** A byte below 128 is the length; otherwise it counts at most eight octets, leading zeros or not. */
  lemma DerReads(b: Byte, octets: seq<Byte>, tail: seq<Byte>)
    ensures b < 0x80 ==> DerDecode([b] + tail) == Ok(Parsed(b, 1))
    ensures b >= 0x80 && b - 0x80 == |octets| <= 8 ==>
      DerDecode([b] + octets + tail) == Ok(Parsed(FromBe(octets), 1 + |octets|))
    ensures b > 0x88 ==> DerDecode([b] + tail) == Err(InvalidEncoding)
    ensures 0x80 <= b <= 0x88 && |tail| < b - 0x80 ==> DerDecode([b] + tail) == Err(UnexpectedEof)
    ensures DerDecode([]) == Err(UnexpectedEof)
  {
    if b >= 0x80 && b - 0x80 == |octets| <= 8 {
      DerLong(b, octets, [b] + octets + tail);
    }
  }

  // ---------- EBML ----------

  /** A number of w bytes with its highest digit at the marker's place is read as what is left without it. */
  lemma EbmlReads(bs: seq<Byte>, tail: seq<Byte>)
    requires 1 <= |bs| <= 8 && Pow2(7 * |bs|) <= FromBe(bs) < 2 * Pow2(7 * |bs|)
    ensures EbmlDecode(bs + tail) == Ok(Parsed(FromBe(bs) - Pow2(7 * |bs|), |bs|))
  {
    hide Pow2, EbmlDecode;
    IntBack(BigEndian, bs);
    EbmlReadsBack(FromBe(bs) - Pow2(7 * |bs|), |bs|, bs + tail);
  }

  /** Without all the bytes that its marker asks for a number is the end of input. */
  lemma EbmlShort(bs: seq<Byte>, w: nat)
    requires |bs| < w <= 8 && (bs != [] ==> Pow2(8 - w) <= bs[0] < 2 * Pow2(8 - w))
    ensures EbmlDecode(bs) == Err(UnexpectedEof)
  {
    if bs != [] { MarkerLead(bs[0], w); }
  }

  lemma MarkerLead(b: Byte, w: nat)
    requires 1 <= w <= 8 && Pow2(8 - w) <= b < 2 * Pow2(8 - w)
    ensures EbmlLead(b, 1) == w
  {
    TopBit(b, 8 - w);
    forall j: nat | j > 8 - w
      ensures !Bit(b, j)
    {
      BitBeyond(b, 9 - w, j);
    }
    EbmlLeadIs(b, 1, w);
  }

  lemma {:induction false} TopBit(b: nat, n: nat)
    requires Pow2(n) <= b < 2 * Pow2(n)
    ensures Bit(b, n) && b < Pow2(n + 1)
    decreases n
  {
    if n > 0 { TopBit(b / 2, n - 1); }
  }
}
