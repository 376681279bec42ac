/** The byte formats of `bitstream.rs`: fixed-width integers and the six variable-length codecs,
    each as the bytes its writer emits and the value its reader computes.

    A reader takes the bytes in front of it and yields the value with the number of bytes used.
    Only `read_uint8` and `write_uint8` sit between these formats and the bit stream. */
module Varint {
  import opened Words
  import opened BitLayout

  datatype WireError =
    | UnexpectedEof
    | InvalidValue
    | InvalidEncoding
    | AlignmentRequired
    | OutOfBounds
    | ShiftOverflow  // the panic of a checked `<<` when the amount reaches the width

  /** Whether the build checks shift amounts.  Nothing is said about its value, so every statement holds for
      builds of either kind; the release profile leaves the checks off. */
  const OVERFLOW_CHECKS: bool

  datatype Result<+T> = Ok(value: T) | Err(error: WireError)

  datatype Parsed = Parsed(value: int, used: nat)

  // ---------- fixed width ----------

  function BeBytes(v: nat, k: nat): (bs: seq<Byte>)
    ensures |bs| == k
    decreases k, v
  {
    if k == 0 then [] else BeBytes(v / 256, k - 1) + [v % 256]
  }

  function LeBytes(v: nat, k: nat): (bs: seq<Byte>)
    ensures |bs| == k
    decreases k, v
  {
    if k == 0 then [] else [v % 256] + LeBytes(v / 256, k - 1)
  }

  function FromBe(bs: seq<Byte>): nat {
    if bs == [] then 0 else 256 * FromBe(bs[..|bs| - 1]) + bs[|bs| - 1]
  }

  function FromLe(bs: seq<Byte>): nat {
    if bs == [] then 0 else bs[0] + 256 * FromLe(bs[1..])
  }

  function IntBytes(e: Endianness, v: nat, k: nat): (bs: seq<Byte>)
    ensures |bs| == k
  {
    match e case BigEndian => BeBytes(v, k) case LittleEndian => LeBytes(v, k)
  }

  function FromBytes(e: Endianness, bs: seq<Byte>): nat {
    match e case BigEndian => FromBe(bs) case LittleEndian => FromLe(bs)
  }

  function ReadInt(e: Endianness, k: nat, bs: seq<Byte>): Result<Parsed> {
    if |bs| < k then Err(UnexpectedEof) else Ok(Parsed(FromBytes(e, bs[..k]), k))
  }

  lemma {:induction false} BeRoundTrip(v: nat, k: nat)
    requires v < Pow2(8 * k)
    ensures FromBe(BeBytes(v, k)) == v
  {
    if k > 0 {
      Pow2OfBytes(k - 1);
      BeRoundTrip(v / 256, k - 1);
      assert BeBytes(v, k)[..k - 1] == BeBytes(v / 256, k - 1);
    }
  }

  lemma {:induction false} LeRoundTrip(v: nat, k: nat)
    requires v < Pow2(8 * k)
    ensures FromLe(LeBytes(v, k)) == v
  {
    if k > 0 {
      Pow2OfBytes(k - 1);
      LeRoundTrip(v / 256, k - 1);
      assert LeBytes(v, k)[1..] == LeBytes(v / 256, k - 1);
    }
  }

  lemma Pow2OfBytes(k: nat)
    ensures Pow2(8 * (k + 1)) == 256 * Pow2(8 * k)
  {
    Pow2Add(8 * k, 8);
    assert Shl(Pow2(8 * k), 8) == 256 * Pow2(8 * k) by { ShlIsTimes(Pow2(8 * k), 8); assert Pow2(8) == 256; }
  }

  lemma Pow2OfSevens(k: nat)
    ensures Pow2(7 * (k + 1)) == 128 * Pow2(7 * k)
  {
    Pow2Add(7 * k, 7);
    assert Shl(Pow2(7 * k), 7) == 128 * Pow2(7 * k) by { ShlIsTimes(Pow2(7 * k), 7); assert Pow2(7) == 128; }
  }

  lemma IntRoundTrip(e: Endianness, v: nat, k: nat, bs: seq<Byte>)
    requires v < Pow2(8 * k)
    requires IntBytes(e, v, k) <= bs
    ensures ReadInt(e, k, bs) == Ok(Parsed(v, k))
  {
    BeRoundTrip(v, k);
    LeRoundTrip(v, k);
    assert bs[..k] == IntBytes(e, v, k);
  }

  lemma {:induction false} BeBound(bs: seq<Byte>)
    ensures FromBe(bs) < Pow2(8 * |bs|)
  {
    if bs != [] {
      BeBound(bs[..|bs| - 1]);
      Pow2OfBytes(|bs| - 1);
    }
  }

  // ---------- LEB128 ----------

  function LebBytes(v: nat): (bs: seq<Byte>)
    ensures |bs| >= 1
  {
    if v < 128 then [v] else [v % 128 + 128] + LebBytes(v / 128)
  }

  /** The reader from its k-th byte on, `acc` being the value of the bytes before it. */
  function LebFrom(bs: seq<Byte>, k: nat, acc: nat): Result<Parsed>
    decreases |bs| - k
  {
    if k >= |bs| then Err(UnexpectedEof)
    else
      var acc' := acc + Shl(bs[k] % 128, 7 * k);
      if 7 * (k + 1) > 64 then Err(InvalidEncoding)
      else if bs[k] < 128 then Ok(Parsed(acc', k + 1))
      else LebFrom(bs, k + 1, acc')
  }

  function LebDecode(bs: seq<Byte>): Result<Parsed> {
    LebFrom(bs, 0, 0)
  }

  /** All bytes but the last have their continuation bit, the last has not. */
  predicate Delimited(bs: seq<Byte>) {
    bs != [] && bs[|bs| - 1] < 128 && forall i :: 0 <= i < |bs| - 1 ==> bs[i] >= 128
  }

  /** Seven digits a byte, least significant byte first. */
  function LittleSevens(bs: seq<Byte>): nat {
    if bs == [] then 0 else bs[0] % 128 + 128 * LittleSevens(bs[1..])
  }

  /** Section 7.6 of DWARF 5, read as a definition: little-endian base 128 under continuation bits. */
  lemma {:induction false} LebMeaning(v: nat)
    ensures Delimited(LebBytes(v)) && LittleSevens(LebBytes(v)) == v
  {
    hide LittleSevens, Delimited;
    if v >= 128 {
      LebMeaning(v / 128);
      ContinueWith(v % 128 + 128, LebBytes(v / 128));
    } else {
      LastByte(v);
    }
  }

  lemma ContinueWith(b: Byte, rest: seq<Byte>)
    requires b >= 128 && Delimited(rest)
    ensures Delimited([b] + rest) && LittleSevens([b] + rest) == b % 128 + 128 * LittleSevens(rest)
  {
    assert ([b] + rest)[1..] == rest;
  }

  lemma LastByte(b: Byte)
    requires b < 128
    ensures Delimited([b]) && LittleSevens([b]) == b
  {
    assert [b][1..] == [];
  }

  lemma {:induction false} LebLength(v: nat, k: nat)
    ensures |LebBytes(v)| <= k + 1 <==> v < Pow2(7 * (k + 1))
    decreases v
  {
    assert Pow2(7) == 128;
    Pow2OfSevens(k);
    Pow2Monotone(7, 7 * (k + 1));
    if v >= 128 && k > 0 { LebLength(v / 128, k - 1); }
  }

  lemma {:induction false} LebFromBytes(bs: seq<Byte>, k: nat, acc: nat, v: nat)
    requires k <= |bs| && LebBytes(v) <= bs[k..]
    ensures LebFrom(bs, k, acc)
         == if k + |LebBytes(v)| <= 9 then Ok(Parsed(acc + Shl(v, 7 * k), k + |LebBytes(v)|))
            else Err(InvalidEncoding)
    decreases v
  {
    hide Shl;
    assert bs[k] == LebBytes(v)[0];
    if v >= 128 {
      assert bs[k + 1..] == bs[k..][1..];
      assert LebBytes(v)[1..] == LebBytes(v / 128);
      var acc' := acc + Shl(bs[k] % 128, 7 * k);
      LebFromBytes(bs, k + 1, acc', v / 128);
      ShlSplit(v, 7 * k);
    }
  }

  lemma {:induction false} ShlSplit(v: nat, s: nat)
    ensures Shl(v % 128, s) + Shl(v / 128, s + 7) == Shl(v, s)
  {
    if s == 0 {
      assert Shl(v / 128, 7) == 128 * (v / 128) by { ShlIsTimes(v / 128, 7); Pow2Small(); }
    } else {
      ShlSplit(v, s - 1);
    }
  }

  /** The unsigned LEB128 round trip: exactly the values below 2^63 survive, whatever follows them. */
  lemma LebRoundTrip(v: nat, tail: seq<Byte>)
    ensures LebDecode(LebBytes(v) + tail)
         == if v < TWO_TO_63 then Ok(Parsed(v, |LebBytes(v)|)) else Err(InvalidEncoding)
  {
    var bs := LebBytes(v) + tail;
    assert bs[0..] == bs;
    LebFromBytes(bs, 0, 0, v);
    LebLength(v, 8);
    Pow2Of64();
  }

  lemma {:induction false} LebFromBound(bs: seq<Byte>, k: nat, acc: nat)
    requires acc < Pow2(7 * k)
    requires LebFrom(bs, k, acc).Ok?
    ensures k < LebFrom(bs, k, acc).value.used <= |bs|
    ensures 0 <= LebFrom(bs, k, acc).value.value < Pow2(7 * LebFrom(bs, k, acc).value.used)
    decreases |bs| - k
  {
    var acc' := acc + Shl(bs[k] % 128, 7 * k);
    assert acc' < Pow2(7 * (k + 1)) by { AddDigitBound(acc, bs[k] % 128, k); }
    if bs[k] >= 128 { LebFromBound(bs, k + 1, acc'); }
  }

  lemma AddDigitBound(acc: nat, d: nat, k: nat)
    requires acc < Pow2(7 * k) && d < 128
    ensures acc + Shl(d, 7 * k) < Pow2(7 * (k + 1))
  {
    Pow2OfSevens(k);
    ShlIsTimes(127, 7 * k);
    ShlMonotone(d, 127, 7 * k);
  }

  /** No input the reader accepts as v is shorter than what the writer emits for v. */
  lemma LebShortest(bs: seq<Byte>)
    requires LebDecode(bs).Ok?
    ensures LebDecode(bs).value.value >= 0
    ensures |LebBytes(LebDecode(bs).value.value)| <= LebDecode(bs).value.used
  {
    LebFromBound(bs, 0, 0);
    LebLength(LebDecode(bs).value.value, LebDecode(bs).value.used - 1);
  }

  // ---------- zigzag over LEB128 ----------

  /** `((value << 1) ^ (value >> 63)) as u64`: the arithmetic shift is all zeros or all ones. */
  function ZigZag(v: I64): U64 {
    var doubled := (2 * v) % TWO_TO_64;
    if v >= 0 then doubled else TWO_TO_64 - 1 - doubled
  }

  /** `((u >> 1) as i64) ^ -((u & 1) as i64)`. */
  function UnZigZag(u: U64): I64 {
    if u % 2 == 0 then u / 2 else -1 - u / 2
  }

  function ZigZagDecode(bs: seq<Byte>): Result<Parsed> {
    match LebDecode(bs)
    case Ok(p) =>
      if 0 <= p.value < TWO_TO_64 then Ok(Parsed(UnZigZag(p.value), p.used)) else Err(InvalidEncoding)
    case Err(e) => Err(e)
  }

  /** Zigzag is a bijection between i64 and u64 that orders by magnitude. */
  lemma ZigZagBijection(v: I64, u: U64)
    ensures UnZigZag(ZigZag(v)) == v && ZigZag(UnZigZag(u)) == u
    ensures ZigZag(v) == if v >= 0 then 2 * v else -2 * v - 1
  {
    if v < 0 { assert (2 * v) % TWO_TO_64 == 2 * v + TWO_TO_64; }
  }

  lemma ZigZagRoundTrip(v: I64, tail: seq<Byte>)
    ensures ZigZagDecode(LebBytes(ZigZag(v)) + tail)
         == if -TWO_TO_63 / 2 <= v < TWO_TO_63 / 2 then Ok(Parsed(v, |LebBytes(ZigZag(v))|))
            else Err(InvalidEncoding)
  {
    ZigZagBijection(v, 0);
    LebRoundTrip(ZigZag(v), tail);
  }

  // ---------- SLEB128 ----------

  predicate SlebLast(v: int) {
    (v / 128 == 0 && v % 128 < 64) || (v / 128 == -1 && v % 128 >= 64)
  }

  function SlebBytes(v: int): (bs: seq<Byte>)
    ensures |bs| >= 1
    decreases if v < 0 then -v else v
  {
    if SlebLast(v) then [v % 128] else [v % 128 + 128] + SlebBytes(v / 128)
  }

  /** The same as two's complement: the last byte's highest digit weighs negatively. */
  function SignedSevens(bs: seq<Byte>): int {
    if bs == [] then 0
    else if |bs| == 1 then (if bs[0] % 128 >= 64 then bs[0] % 128 - 128 else bs[0] % 128)
    else bs[0] % 128 + 128 * SignedSevens(bs[1..])
  }

  lemma {:induction false} SlebMeaning(v: int)
    ensures Delimited(SlebBytes(v)) && SignedSevens(SlebBytes(v)) == v
    decreases if v < 0 then -v else v
  {
    hide SignedSevens, Delimited;
    if SlebLast(v) {
      LastSigned(v % 128);
    } else {
      SlebMeaning(v / 128);
      ContinueSigned(v % 128 + 128, SlebBytes(v / 128));
    }
  }

  lemma ContinueSigned(b: Byte, rest: seq<Byte>)
    requires b >= 128 && Delimited(rest)
    ensures Delimited([b] + rest) && SignedSevens([b] + rest) == b % 128 + 128 * SignedSevens(rest)
  {
    assert ([b] + rest)[1..] == rest;
  }

  lemma LastSigned(b: Byte)
    requires b < 128
    ensures Delimited([b]) && SignedSevens([b]) == if b >= 64 then b - 128 else b
  {
  }

  function AsI64(u: U64): I64 {
    if u < TWO_TO_63 then u else u - TWO_TO_64
  }

  /** The byte after ten: with overflow checks a panic, without them a shift taken modulo 64. */
  function SlebEleventh(b: Byte, acc: nat): Result<Parsed> {
    if OVERFLOW_CHECKS then Err(ShiftOverflow)
    else if b < 128 then Ok(Parsed(SlebSigned(Or(acc, Shl(b, 70 % 64)), 11, b), 11))
    else Err(InvalidEncoding)
  }

  /** The reader from its k-th byte on; `acc` is the bit pattern of the result so far. */
  function SlebFrom(bs: seq<Byte>, k: nat, acc: nat): Result<Parsed>
    decreases |bs| - k
  {
    if k >= |bs| then Err(UnexpectedEof)
    else if 7 * k >= 64 then SlebEleventh(bs[k], acc)
    else
      var acc' := Low(acc + Shl(bs[k] % 128, 7 * k), 64);
      if bs[k] < 128 then Ok(Parsed(SlebSigned(acc', k + 1, bs[k]), k + 1))
      else SlebFrom(bs, k + 1, acc')
  }

  /** Sign extension: when fewer than 64 digits were read and the last byte has its sign bit set. */
  function SlebSigned(acc: nat, k: nat, last: Byte): int {
    var pattern := if 7 * k < 64 && last % 128 >= 64 then acc + TWO_TO_64 - Pow2(7 * k) else acc;
    if 0 <= pattern < TWO_TO_64 then AsI64(pattern) else 0
  }

  function SlebDecode(bs: seq<Byte>): Result<Parsed> {
    SlebFrom(bs, 0, 0)
  }

  /** k bytes suffice exactly for the values in [-2^(7k-1), 2^(7k-1)). */
  lemma {:induction false} SlebLength(v: int, k: nat)
    ensures |SlebBytes(v)| <= k + 1 <==> -64 * Pow2(7 * k) <= v < 64 * Pow2(7 * k)
    decreases if v < 0 then -v else v
  {
    if SlebLast(v) {
    } else if k > 0 {
      Pow2OfSevens(k - 1);
      SlebLength(v / 128, k - 1);
    }
  }

  /** `w * 2^k` for a signed w. */
  function Scale(w: int, k: nat): int
    decreases k, w
  {
    if k == 0 then w else 2 * Scale(w, k - 1)
  }

  lemma {:induction false} ScaleIsTimes(w: int, k: nat)
    ensures Scale(w, k) == w * Pow2(k)
  {
    if k > 0 { ScaleIsTimes(w, k - 1); }
  }

  lemma {:induction false} ScaleSplit(w: int, k: nat)
    ensures Scale(w, k) == Shl(w % 128, k) + Scale(w / 128, k + 7)
  {
    if k == 0 {
      ScaleIsTimes(w / 128, 7);
      Pow2Small();
    } else {
      ScaleSplit(w, k - 1);
    }
  }

  lemma {:induction false} SlebFromBytes(bs: seq<Byte>, k: nat, acc: nat, w: int, v: I64)
    requires k <= 9 && k <= |bs| && SlebBytes(w) <= bs[k..]
    requires acc < Pow2(7 * k) && v == acc + Scale(w, 7 * k)
    ensures SlebFrom(bs, k, acc) == Ok(Parsed(v, k + |SlebBytes(w)|))
    decreases if w < 0 then -w else w
  {
    hide Low, Pow2, Scale, Shl, SlebSigned;
    var d := w % 128;
    assert bs[k] % 128 == d;
    SlebStep(k, acc, w, v);
    if SlebLast(w) {
      SlebFinal(k, acc, w, v, bs[k]);
    } else {
      assert bs[k + 1..] == bs[k..][1..];
      assert SlebBytes(w)[1..] == SlebBytes(w / 128);
      LowOfSmall(acc + Shl(d, 7 * k), 64);
      SlebFromBytes(bs, k + 1, acc + Shl(d, 7 * k), w / 128, v);
    }
  }

  /** One more byte: the remaining value shrinks by 7 digits, and after 9 bytes only the sign is left. */
  lemma SlebStep(k: nat, acc: nat, w: int, v: I64)
    requires k <= 9 && acc < Pow2(7 * k) && v == acc + Scale(w, 7 * k)
    ensures acc + Shl(w % 128, 7 * k) < Pow2(7 * (k + 1))
    ensures v == acc + Shl(w % 128, 7 * k) + Scale(w / 128, 7 * (k + 1))
    ensures k == 9 ==> w == 0 || w == -1
    ensures k < 9 ==> Pow2(7 * (k + 1)) <= Pow2(64)
  {
    AddDigitBound(acc, w % 128, k);
    ScaleSplit(w, 7 * k);
    if k == 9 { SlebSignLeft(acc, w, v); } else { Pow2Monotone(7 * (k + 1), 64); }
  }

  lemma SlebSignLeft(acc: nat, w: int, v: I64)
    requires acc < Pow2(63) && v == acc + Scale(w, 63)
    ensures w == 0 || w == -1
  {
    ScaleIsTimes(w, 63);
    Pow2Of64();
  }

  lemma SlebFinal(k: nat, acc: nat, w: int, v: I64, last: Byte)
    requires k <= 9 && acc < Pow2(7 * k) && v == acc + Scale(w, 7 * k)
    requires SlebLast(w) && last == w % 128
    ensures SlebSigned(Low(acc + Shl(last, 7 * k), 64), k + 1, last) == v
  {
    if k < 9 { SlebFinalShort(k, acc, w, v, last); } else { SlebFinalLong(acc, w, v, last); }
  }

  lemma SlebFinalShort(k: nat, acc: nat, w: int, v: I64, last: Byte)
    requires k < 9 && acc < Pow2(7 * k) && v == acc + Scale(w, 7 * k)
    requires SlebLast(w) && last == w % 128
    ensures SlebSigned(Low(acc + Shl(last, 7 * k), 64), k + 1, last) == v
  {
    hide Low, Shl, Pow2, Scale;
    SlebStep(k, acc, w, v);
    LowOfSmall(acc + Shl(last, 7 * k), 64);
    ScaleIsTimes(w / 128, 7 * (k + 1));
    SlebTopDigit(k, acc, last);
    Pow2Monotone(7 * (k + 1), 63);
    Pow2Of64();
  }

  lemma SlebFinalLong(acc: nat, w: int, v: I64, last: Byte)
    requires acc < Pow2(63) && v == acc + Scale(w, 63)
    requires SlebLast(w) && last == w % 128
    ensures SlebSigned(Low(acc + Shl(last, 63), 64), 10, last) == v
  {
    hide Low, Shl, Pow2, Scale;
    SlebSignLeft(acc, w, v);
    ScaleIsTimes(w, 63);
    Pow2Of64();
    if w == 0 {
      assert Shl(0, 63) == 0 by { ShlIsTimes(0, 63); }
      LowOfSmall(acc, 64);
    } else {
      LowOfTopDigits(acc, 63);
    }
  }

  /** The sign digit of the last byte is the top digit of the value read. */
  lemma SlebTopDigit(k: nat, acc: nat, d: nat)
    requires acc < Pow2(7 * k) && d < 128
    ensures d >= 64 <==> acc + Shl(d, 7 * k) >= Pow2(7 * (k + 1)) / 2
  {
    Pow2OfSevens(k);
    if d >= 64 {
      ShlIsTimes(64, 7 * k);
      ShlMonotone(64, d, 7 * k);
    } else {
      ShlIsTimes(63, 7 * k);
      ShlMonotone(d, 63, 7 * k);
    }
  }

  /** In a word one digit wider than the shift, only the lowest of the seven digits stays. */
  lemma LowOfTopDigits(acc: nat, s: nat)
    requires acc < Pow2(s)
    ensures Low(acc + Shl(127, s), s + 1) == acc + Pow2(s)
  {
    ShlIsTimes(127, s);
    ShlIsTimes(63, s + 1);
    LowAddMultiple(acc + Pow2(s), 63, s + 1);
    LowOfSmall(acc + Pow2(s), s + 1);
  }

  lemma {:induction false} LowAddMultiple(y: nat, m: nat, k: nat)
    ensures Low(y + Shl(m, k), k) == Low(y, k)
  {
    if k > 0 {
      assert (y + Shl(m, k)) / 2 == y / 2 + Shl(m, k - 1);
      LowAddMultiple(y / 2, m, k - 1);
    }
  }

  /** The signed LEB128 round trip holds for every i64, whatever follows. */
  lemma SlebRoundTrip(v: I64, tail: seq<Byte>)
    ensures SlebDecode(SlebBytes(v) + tail) == Ok(Parsed(v, |SlebBytes(v)|))
    ensures |SlebBytes(v)| <= 10
  {
    var bs := SlebBytes(v) + tail;
    assert bs[0..] == bs;
    SlebFromBytes(bs, 0, 0, v, v);
    SlebLength(v, 9);
    Pow2Of64();
  }

  lemma {:induction false} SlebFromBound(bs: seq<Byte>, k: nat, acc: nat)
    requires k <= 10 && acc < Pow2(7 * k)
    requires SlebFrom(bs, k, acc).Ok?
    ensures var p := SlebFrom(bs, k, acc).value;
      k < p.used <= 11 && p.used <= |bs| && -TWO_TO_63 <= p.value < TWO_TO_63
      && (p.used < 10 ==> -64 * Pow2(7 * (p.used - 1)) <= p.value < 64 * Pow2(7 * (p.used - 1)))
    decreases |bs| - k
  {
    hide Low, Pow2, Shl, SlebBytes;
    if k < 9 {
      var sum := acc + Shl(bs[k] % 128, 7 * k);
      SlebNoOverflow(k, acc, bs[k] % 128);
      if bs[k] >= 128 {
        SlebFromBound(bs, k + 1, sum);
      } else {
        SlebSignedBound(k, acc, bs[k]);
      }
    } else if k == 9 && bs[9] >= 128 {
      assert SlebFrom(bs, 9, acc) == SlebFrom(bs, 10, Low(acc + Shl(bs[9] % 128, 7 * 9), 64));
    }
  }

  lemma SlebNoOverflow(k: nat, acc: nat, d: nat)
    requires k < 9 && acc < Pow2(7 * k) && d < 128
    ensures acc + Shl(d, 7 * k) < Pow2(7 * (k + 1))
    ensures Low(acc + Shl(d, 7 * k), 64) == acc + Shl(d, 7 * k)
  {
    AddDigitBound(acc, d, k);
    Pow2Monotone(7 * (k + 1), 64);
    LowOfSmall(acc + Shl(d, 7 * k), 64);
  }

  lemma SlebSignedBound(k: nat, acc: nat, d: Byte)
    requires k < 9 && acc < Pow2(7 * k) && d < 128
    ensures -64 * Pow2(7 * k) <= SlebSigned(acc + Shl(d, 7 * k), k + 1, d) < 64 * Pow2(7 * k)
  {
    AddDigitBound(acc, d, k);
    SlebTopDigit(k, acc, d);
    Pow2OfSevens(k);
    Pow2Monotone(7 * (k + 1), 63);
    Pow2Of64();
  }

  lemma SlebShortest(bs: seq<Byte>)
    requires SlebDecode(bs).Ok?
    ensures |SlebBytes(SlebDecode(bs).value.value)| <= SlebDecode(bs).value.used
  {
    SlebFromBound(bs, 0, 0);
    var p := SlebDecode(bs).value;
    if p.used < 10 { SlebLength(p.value, p.used - 1); } else { SlebRoundTrip(p.value, []); }
  }

  /** Eleven bytes are never written.  A build with overflow checks panics on them; one without accepts them if
      the eleventh ends the value. */
  lemma SlebEleven(bs: seq<Byte>)
    requires |bs| >= 11 && forall i :: 0 <= i < 10 ==> bs[i] >= 128
    ensures match SlebDecode(bs)
      case Ok(p) => !OVERFLOW_CHECKS && bs[10] < 128 && p.used == 11
      case Err(e) => e == if OVERFLOW_CHECKS then ShiftOverflow else InvalidEncoding
    ensures SlebDecode(bs).Ok? <==> !OVERFLOW_CHECKS && bs[10] < 128
  {
    var _ := SlebTen(bs, 0, 0);
  }

  lemma {:induction false} SlebTen(bs: seq<Byte>, k: nat, acc: nat) returns (acc': nat)
    requires k <= 10 < |bs| && forall i :: 0 <= i < 10 ==> bs[i] >= 128
    ensures SlebFrom(bs, k, acc) == SlebEleventh(bs[10], acc')
    decreases 10 - k
  {
    hide Low, Shl, SlebEleventh;
    acc' := acc;
    if k < 10 { acc' := SlebTen(bs, k + 1, Low(acc + Shl(bs[k] % 128, 7 * k), 64)); }
  }

  // ---------- DER length ----------

  function BeTrimmed(v: nat): (bs: seq<Byte>)
    ensures bs == [] <==> v == 0
  {
    if v == 0 then [] else BeTrimmed(v / 256) + [v % 256]
  }

  function DerBytes(v: U64): (bs: seq<Byte>)
    ensures |bs| >= 1
  {
    if v < 128 then [v] else
      BeTrimmedLength(v, 8);
      Pow2Of64();
      [0x80 + |BeTrimmed(v)|] + BeTrimmed(v)
  }

  function DerDecode(bs: seq<Byte>): Result<Parsed> {
    if |bs| == 0 then Err(UnexpectedEof)
    else if bs[0] < 128 then Ok(Parsed(bs[0], 1))
    else
      var n := bs[0] % 128;
      if n > 8 then Err(InvalidEncoding)
      else if |bs| < 1 + n then Err(UnexpectedEof)
      else Ok(Parsed(FromBe(bs[1..1 + n]), 1 + n))
  }

  lemma {:induction false} BeTrimmedLength(v: nat, k: nat)
    ensures |BeTrimmed(v)| <= k <==> v < Pow2(8 * k)
    decreases v
  {
    if k > 0 {
      Pow2OfBytes(k - 1);
      if v > 0 { BeTrimmedLength(v / 256, k - 1); }
    }
  }

  lemma {:induction false} BeTrimmedValue(v: nat)
    ensures FromBe(BeTrimmed(v)) == v
    ensures v > 0 ==> BeTrimmed(v)[0] != 0
  {
    if v > 0 {
      BeTrimmedValue(v / 256);
      assert BeTrimmed(v)[..|BeTrimmed(v)| - 1] == BeTrimmed(v / 256);
    }
  }

  lemma DerRoundTrip(v: U64, tail: seq<Byte>)
    ensures DerDecode(DerBytes(v) + tail) == Ok(Parsed(v, |DerBytes(v)|))
    ensures |DerBytes(v)| <= 9
  {
    DerLength(v);
    if v >= 128 {
      DerLong(0x80 + |BeTrimmed(v)|, BeTrimmed(v), DerBytes(v) + tail);
      BeTrimmedValue(v);
    }
  }

  lemma DerLength(v: U64)
    ensures |BeTrimmed(v)| <= 8 && |DerBytes(v)| <= 9
  {
    BeTrimmedLength(v, 8);
    Pow2Of64();
  }

  /** Sections 8.1.3 and 10.1 of ITU-T X.690: one octet below 128, otherwise the number of octets and then the
      value, big-endian and without a leading zero. */
  lemma DerMeaning(v: U64)
    ensures v < 128 ==> DerBytes(v) == [v]
    ensures v >= 128 ==>
      DerBytes(v)[0] == 0x80 + |DerBytes(v)[1..]| && DerBytes(v)[1..] != [] && DerBytes(v)[1] != 0
      && FromBe(DerBytes(v)[1..]) == v
  {
    BeTrimmedValue(v);
  }

  /** The long form: a count of octets, then the octets. */
  lemma DerLong(head: Byte, octets: seq<Byte>, bs: seq<Byte>)
    requires |octets| <= 8 && head == 0x80 + |octets| && [head] + octets <= bs
    ensures DerDecode(bs) == Ok(Parsed(FromBe(octets), 1 + |octets|))
  {
    assert bs[0] == ([head] + octets)[0];
    assert bs[1..1 + |octets|] == ([head] + octets)[1..] == octets;
  }

  lemma DerShortest(bs: seq<Byte>)
    requires DerDecode(bs).Ok?
    ensures 0 <= DerDecode(bs).value.value < TWO_TO_64
    ensures |DerBytes(DerDecode(bs).value.value)| <= DerDecode(bs).value.used
  {
    var p := DerDecode(bs).value;
    Pow2Of64();
    if bs[0] >= 128 {
      var n := bs[0] % 128;
      BeBound(bs[1..1 + n]);
      Pow2Monotone(8 * n, 64);
      BeTrimmedLength(p.value, n);
      if n == 0 { assert bs[1..1 + n] == []; }
    }
  }

  // ---------- EBML variable-size integers ----------

  /** The width search of the writer, from width w on. */
  function EbmlWidth(v: nat, w: nat): (width: nat)
    requires 1 <= w <= 8
    ensures w <= width <= 8
    decreases 8 - w, v
  {
    if v > Pow2(7 * w) - 2 && w < 8 then EbmlWidth(v, w + 1) else w
  }

  /** Marker bit joined to the data, big-endian; `Err` when 8 bytes do not suffice. */
  function EbmlEncode(v: U64): Result<seq<Byte>> {
    var w := EbmlWidth(v, 1);
    if v > Pow2(7 * w) - 2 then Err(InvalidEncoding) else Ok(BeBytes(Pow2(7 * w) + v, w))
  }

  /** The number of leading zeros of the first byte plus one, but never above 8. */
  function EbmlLead(b: Byte, w: nat): (width: nat)
    requires 1 <= w <= 8
    ensures w <= width <= 8
    decreases 8 - w, b
  {
    if !Bit(b, 8 - w) && w < 8 then EbmlLead(b, w + 1) else w
  }

  function EbmlDecode(bs: seq<Byte>): Result<Parsed> {
    if |bs| == 0 then Err(UnexpectedEof)
    else
      var w := EbmlLead(bs[0], 1);
      if |bs| < w then Err(UnexpectedEof)
      else Ok(Parsed(FromBeAfter(Low(bs[0], 8 - w), bs[1..w]), w))
  }

  /** `value = (value << 8) | byte` over `bs`, starting from `start`. */
  function FromBeAfter(start: nat, bs: seq<Byte>): nat {
    if bs == [] then start else 256 * FromBeAfter(start, bs[..|bs| - 1]) + bs[|bs| - 1]
  }

  lemma {:induction false} FromBeAfterBytes(v: nat, k: nat)
    ensures FromBeAfter(Shr(v, 8 * k), BeBytes(v, k)) == v
  {
    if k > 0 {
      assert Shr(v, 8 * k) == Shr(v / 256, 8 * (k - 1)) by { ShrByte(v, 8 * (k - 1)); }
      FromBeAfterBytes(v / 256, k - 1);
      assert BeBytes(v, k)[..k - 1] == BeBytes(v / 256, k - 1);
    }
  }

  lemma ShrByte(v: nat, k: nat)
    ensures Shr(v, k + 8) == Shr(v / 256, k)
  {
    ShrTwo(v, k + 6);
    ShrTwo(v / 4, k + 4);
    ShrTwo(v / 16, k + 2);
    ShrTwo(v / 64, k);
  }

  lemma ShrTwo(v: nat, k: nat)
    ensures Shr(v, k + 2) == Shr(v / 4, k)
  {
    assert Shr(v, k + 2) == Shr(v / 2, k + 1);
  }

  lemma {:induction false} BeBytesSplit(v: nat, k: nat)
    requires k > 0
    ensures BeBytes(v, k) == [Shr(v, 8 * (k - 1)) % 256] + BeBytes(v, k - 1)
  {
    if k > 1 {
      BeBytesSplit(v / 256, k - 1);
      ShrByte(v, 8 * (k - 2));
    }
  }

  lemma {:induction false} EbmlLeastWidth(v: nat, w: nat, j: nat)
    requires 1 <= w <= 8
    ensures w <= j < EbmlWidth(v, w) ==> v > Pow2(7 * j) - 2
    decreases 8 - w
  {
    if v > Pow2(7 * w) - 2 && w < 8 { EbmlLeastWidth(v, w + 1, j); }
  }

  /** The writer takes the least width that keeps the data below the reserved all-ones pattern, and
      fails exactly when no width up to 8 does. */
  lemma EbmlWidthExact(v: U64)
    ensures EbmlEncode(v).Ok? <==> v <= Pow2(56) - 2
    ensures EbmlEncode(v).Ok? ==>
      var w := |EbmlEncode(v).value|;
      1 <= w <= 8 && v <= Pow2(7 * w) - 2 && forall j :: 1 <= j < w ==> v > Pow2(7 * j) - 2
  {
    var w := EbmlWidth(v, 1);
    forall j: nat | 1 <= j < w
      ensures v > Pow2(7 * j) - 2
    {
      EbmlLeastWidth(v, 1, j);
    }
    Pow2Monotone(7 * w, 56);
    if w < 8 { EbmlStops(v, 1); }
  }

  /** Section 4 of RFC 8794: big-endian, the marker one bit above the data. */
  lemma EbmlMeaning(v: U64)
    requires EbmlEncode(v).Ok?
    ensures var bs := EbmlEncode(v).value; FromBe(bs) == Pow2(7 * |bs|) + v && v < Pow2(7 * |bs|)
  {
    EbmlWidthExact(v);
    var w := EbmlWidth(v, 1);
    MarkerFits(w);
    BeRoundTrip(Pow2(7 * w) + v, w);
  }

  lemma MarkerFits(w: nat)
    requires w >= 1
    ensures 2 * Pow2(7 * w) <= Pow2(8 * w)
  {
    Pow2Monotone(7 * w + 1, 8 * w);
  }

  lemma {:induction false} EbmlStops(v: nat, w: nat)
    requires 1 <= w <= 8
    ensures EbmlWidth(v, w) < 8 ==> v <= Pow2(7 * EbmlWidth(v, w)) - 2
    decreases 8 - w
  {
    if v > Pow2(7 * w) - 2 && w < 8 { EbmlStops(v, w + 1); }
  }

  /** The first byte of a width-w encoding has its marker at digit 8 - w and nothing above it. */
  lemma EbmlFirstByte(v: nat, w: nat)
    requires 1 <= w <= 8 && v < Pow2(7 * w)
    ensures var first := Shr(Pow2(7 * w) + v, 8 * (w - 1));
      first < 256 && EbmlLead(first, 1) == w
      && Low(first, 8 - w) == Shr(v, 8 * (w - 1))
  {
    var e, s := Pow2(7 * w) + v, 8 * (w - 1);
    var first := Shr(e, s);
    forall j: nat
      ensures Bit(first, j) == (if j < 8 - w then Bit(v, j + s) else j == 8 - w)
    {
      BitShr(e, s, j);
      BitOfMarker(v, 7 * w, j + s);
    }
    assert forall j: nat :: j >= 8 ==> !Bit(first, j);
    BoundedByDigits(first, 8);
    Pow2Small();
    EbmlLeadIs(first, 1, w);
    forall j: nat
      ensures Bit(Low(first, 8 - w), j) == Bit(Shr(v, s), j)
    {
      BitLow(first, 8 - w, j);
      BitShr(v, s, j);
      if j >= 8 - w { BitBeyond(v, 7 * w, j + s); }
    }
    SameDigits(Low(first, 8 - w), Shr(v, s));
  }

  lemma {:induction false} EbmlLeadIs(b: Byte, i: nat, w: nat)
    requires 1 <= i <= w <= 8 && Bit(b, 8 - w)
    requires forall j: nat :: j > 8 - w ==> !Bit(b, j)
    ensures EbmlLead(b, i) == w
    decreases w - i
  {
    if i < w { EbmlLeadIs(b, i + 1, w); }
  }

  lemma {:induction false} BitOfMarker(v: nat, n: nat, j: nat)
    requires v < Pow2(n)
    ensures Bit(Pow2(n) + v, j) == (if j < n then Bit(v, j) else j == n)
  {
    if n == 0 {
      if j > 0 { BitZero(j - 1); }
    } else if j > 0 {
      assert (Pow2(n) + v) / 2 == Pow2(n - 1) + v / 2;
      BitOfMarker(v / 2, n - 1, j - 1);
    }
  }

  lemma EbmlRoundTrip(v: U64, tail: seq<Byte>)
    requires v <= Pow2(56) - 2
    ensures EbmlEncode(v).Ok?
    ensures EbmlDecode(EbmlEncode(v).value + tail) == Ok(Parsed(v, |EbmlEncode(v).value|))
  {
    hide Pow2, BeBytes, EbmlDecode;
    EbmlWidthExact(v);
    var w := EbmlWidth(v, 1);
    var e := Pow2(7 * w) + v;
    var bs := BeBytes(e, w) + tail;
    EbmlReadsBack(v, w, bs);
  }

  lemma EbmlReadsBack(v: nat, w: nat, bs: seq<Byte>)
    requires 1 <= w <= 8 && v < Pow2(7 * w)
    requires BeBytes(Pow2(7 * w) + v, w) <= bs
    ensures EbmlDecode(bs) == Ok(Parsed(v, w))
  {
    hide Pow2, Shr, Low, EbmlLead, EbmlDecode, FromBeAfter, BeBytes;
    var e := Pow2(7 * w) + v;
    EbmlFirstByte(v, w);
    BeBytesSplit(e, w);
    EbmlDecodeBytes(Shr(e, 8 * (w - 1)), BeBytes(e, w - 1), bs, w);
    BeBytesModulo(v, 7 * w, w - 1);
    FromBeAfterBytes(v, w - 1);
  }

  lemma EbmlDecodeBytes(first: Byte, more: seq<Byte>, bs: seq<Byte>, w: nat)
    requires 1 <= w <= 8 && EbmlLead(first, 1) == w && |more| == w - 1
    requires [first] + more <= bs
    ensures EbmlDecode(bs) == Ok(Parsed(FromBeAfter(Low(first, 8 - w), more), w))
  {
    assert bs[0] == ([first] + more)[0];
    assert bs[1..w] == ([first] + more)[1..] == more;
  }

  /** Below the first byte the marker leaves no trace. */
  lemma {:induction false} BeBytesModulo(v: nat, n: nat, k: nat)
    requires 8 * k <= n
    ensures BeBytes(Pow2(n) + v, k) == BeBytes(v, k)
  {
    if k > 0 {
      MarkerByte(v, n - 8);
      BeBytesModulo(v / 256, n - 8, k - 1);
    }
  }

  lemma MarkerByte(v: nat, n: nat)
    ensures (Pow2(n + 8) + v) / 256 == Pow2(n) + v / 256 && (Pow2(n + 8) + v) % 256 == v % 256
  {
    Pow2Add(n, 8);
    ShlIsTimes(Pow2(n), 8);
    Pow2Small();
  }

  /** A first byte of zero has no marker; the reader still takes it as width 8. */
  lemma EbmlNoMarker(tail: seq<Byte>)
    ensures EbmlDecode([0] + tail)
         == if |tail| < 7 then Err(UnexpectedEof) else Ok(Parsed(FromBeAfter(0, tail[..7]), 8))
  {
    forall j: nat ensures !Bit(0, j) { BitZero(j); }
    EbmlLeadOfZero(1);
    if |tail| >= 7 { assert ([0] + tail)[1..8] == tail[..7]; }
  }

  lemma {:induction false} EbmlLeadOfZero(i: nat)
    requires 1 <= i <= 8
    ensures EbmlLead(0, i) == 8
    decreases 8 - i
  {
    BitZero(8 - i);
    if i < 8 { EbmlLeadOfZero(i + 1); }
  }

  // ---------- VLQ ----------

  function VlqPrefix(v: nat): seq<Byte> {
    if v == 0 then [] else VlqPrefix(v / 128) + [v % 128 + 128]
  }

  function VlqBytes(v: nat): (bs: seq<Byte>)
    ensures |bs| >= 1
  {
    VlqPrefix(v / 128) + [v % 128]
  }

  function VlqEncode(v: U64): Result<seq<Byte>> {
    if v > 0x0FFF_FFFF then Err(InvalidEncoding) else Ok(VlqBytes(v))
  }

  function VlqFrom(bs: seq<Byte>, k: nat, acc: nat): Result<Parsed>
    decreases |bs| - k
  {
    if k >= 4 then Err(InvalidEncoding)
    else if k >= |bs| then Err(UnexpectedEof)
    else
      var acc' := 128 * acc + bs[k] % 128;
      if bs[k] < 128 then Ok(Parsed(acc', k + 1)) else VlqFrom(bs, k + 1, acc')
  }

  function VlqDecode(bs: seq<Byte>): Result<Parsed> {
    VlqFrom(bs, 0, 0)
  }

  /** Seven digits a byte, most significant byte first. */
  function BigSevens(bs: seq<Byte>): nat {
    if bs == [] then 0 else 128 * BigSevens(bs[..|bs| - 1]) + bs[|bs| - 1] % 128
  }

  lemma {:induction false} VlqPrefixMeaning(v: nat)
    ensures BigSevens(VlqPrefix(v)) == v && forall i :: 0 <= i < |VlqPrefix(v)| ==> VlqPrefix(v)[i] >= 128
  {
    hide BigSevens;
    if v > 0 {
      VlqPrefixMeaning(v / 128);
      AppendSevens(VlqPrefix(v / 128), v % 128 + 128);
    } else {
      NoSevens();
    }
  }

  lemma AppendSevens(bs: seq<Byte>, b: Byte)
    ensures BigSevens(bs + [b]) == 128 * BigSevens(bs) + b % 128
  {
    assert (bs + [b])[..|bs|] == bs;
  }

  lemma NoSevens()
    ensures BigSevens([]) == 0
  {
  }

  lemma VlqMeaning(v: nat)
    ensures Delimited(VlqBytes(v)) && BigSevens(VlqBytes(v)) == v
  {
    hide BigSevens, VlqPrefix;
    VlqPrefixMeaning(v / 128);
    AppendSevens(VlqPrefix(v / 128), v % 128);
  }

  lemma {:induction false} VlqPrefixLength(v: nat, k: nat)
    ensures |VlqPrefix(v)| <= k <==> v < Pow2(7 * k)
    decreases v
  {
    if k > 0 {
      Pow2OfSevens(k - 1);
      if v > 0 { VlqPrefixLength(v / 128, k - 1); }
    }
  }

  lemma {:induction false} VlqReadsPrefix(bs: seq<Byte>, v: nat)
    requires VlqPrefix(v) <= bs && |VlqPrefix(v)| <= 4
    ensures VlqDecode(bs) == VlqFrom(bs, |VlqPrefix(v)|, v)
  {
    if v > 0 {
      VlqReadsPrefix(bs, v / 128);
      assert bs[|VlqPrefix(v / 128)|] == v % 128 + 128;
    }
  }

  lemma VlqRoundTrip(v: U64, tail: seq<Byte>)
    requires v <= 0x0FFF_FFFF
    ensures VlqEncode(v).Ok? && |VlqEncode(v).value| <= 4
    ensures VlqDecode(VlqEncode(v).value + tail) == Ok(Parsed(v, |VlqEncode(v).value|))
  {
    hide VlqPrefix;
    var bs := VlqBytes(v) + tail;
    VlqPrefixLength(v / 128, 3);
    Pow2OfSevens(2);
    Pow2OfSevens(1);
    Pow2Of32();
    VlqReadsPrefix(bs, v / 128);
    assert bs[|VlqPrefix(v / 128)|] == v % 128;
  }

  lemma {:induction false} VlqFromBound(bs: seq<Byte>, k: nat, acc: nat)
    requires acc < Pow2(7 * k)
    requires VlqFrom(bs, k, acc).Ok?
    ensures var p := VlqFrom(bs, k, acc).value;
      k < p.used <= 4 && p.used <= |bs| && 0 <= p.value < Pow2(7 * p.used)
    decreases |bs| - k
  {
    Pow2OfSevens(k);
    if bs[k] >= 128 { VlqFromBound(bs, k + 1, 128 * acc + bs[k] % 128); }
  }

  lemma VlqShortest(bs: seq<Byte>)
    requires VlqDecode(bs).Ok?
    ensures 0 <= VlqDecode(bs).value.value <= 0x0FFF_FFFF
    ensures |VlqBytes(VlqDecode(bs).value.value)| <= VlqDecode(bs).value.used
  {
    VlqFromBound(bs, 0, 0);
    var p := VlqDecode(bs).value;
    Pow2OfSevens(p.used - 1);
    VlqPrefixLength(p.value / 128, p.used - 1);
    Pow2Monotone(7 * p.used, 28);
    Pow2Of32();
  }
}
