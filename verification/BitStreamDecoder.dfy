/** `BitStreamDecoder`: a cursor of a byte offset and a bit offset over fixed bytes. */
module BitStreamDecoding {
  import opened Words
  import opened BitLayout
  import opened Varint
  import Sequences

  // ---------- digits gathered one at a time, or by shift and mask ----------

  lemma FieldIsByte(order: BitOrder, bits: seq<bool>)
    requires |bits| == 8
    ensures FromField(order, bits) < 256
  {
    FieldBound(order, bits);
    assert Pow2(8) == 256;
  }

  /** The byte ahead, if there is one, is the field of the eight bits at the cursor, in the order that the
      position asks for. */
  lemma ByteAhead(order: BitOrder, bits: seq<bool>, position: nat)
    requires position <= |bits|
    ensures BytesFrom(order, bits, position) == [] <==> position + 8 > |bits|
    ensures position + 8 <= |bits| ==>
      BytesFrom(order, bits, position)[0]
        == FromField(if position % 8 == 0 then order else LsbFirst, bits[position..position + 8])
      && BytesFrom(order, bits, position + 8) == BytesFrom(order, bits, position)[1..]
  {
    if position + 8 <= |bits| {
      assert bits[position..][0..8] == bits[position..position + 8];
      BytesFromDrop(order, bits, position, 1);
    }
  }

  /** The word after i of n bits of a field have been gathered. */
  function Gathered(order: BitOrder, bits: seq<bool>, i: nat, n: nat): nat
    requires i <= n && i <= |bits|
  {
    match order
    case MsbFirst => Shl(FromField(order, bits[..i]), n - i)
    case LsbFirst => FromField(order, bits[..i])
  }

  lemma GatherStep(order: BitOrder, bits: seq<bool>, i: nat, n: nat)
    requires i < n && i < |bits|
    ensures Or(Gathered(order, bits, i, n), Shl(Digit(bits[i]), Slot(order, n, i)))
         == Gathered(order, bits, i + 1, n)
  {
    var b := Digit(bits[i]);
    var prefix := bits[..i];
    assert bits[..i + 1] == prefix + [bits[i]];
    FieldBound(order, prefix);
    match order
    case MsbFirst =>
      var k := n - i - 1;
      var x := FromField(order, prefix);
      assert (prefix + [bits[i]])[..i] == prefix;
      ShlMonotone(b, 1, k);
      ShlIsTimes(1, k);
      OrJoins(x, Shl(b, k), k + 1);
      ShlAddDigit(x, b, k);
    case LsbFirst =>
      OrJoins(b, FromField(order, prefix), i);
      FieldSnoc(prefix, bits[i]);
  }

  lemma GatheredNone(order: BitOrder, bits: seq<bool>, n: nat)
    ensures Gathered(order, bits, 0, n) == 0
  {
    ShlIsTimes(0, n);
  }

  lemma {:induction false} ShlAddDigit(x: nat, b: nat, k: nat)
    ensures Shl(x, k + 1) + Shl(b, k) == Shl(2 * x + b, k)
  {
    if k > 0 { ShlAddDigit(x, b, k - 1); }
  }

  lemma {:induction false} FieldSnoc(bits: seq<bool>, b: bool)
    ensures FromField(LsbFirst, bits + [b]) == FromField(LsbFirst, bits) + Shl(Digit(b), |bits|)
  {
    if bits != [] {
      assert (bits + [b])[1..] == bits[1..] + [b];
      FieldSnoc(bits[1..], b);
    }
  }

  lemma GatheredAll(order: BitOrder, bits: seq<bool>)
    ensures Gathered(order, bits, |bits|, |bits|) == FromField(order, bits) < Pow2(|bits|)
  {
    assert bits[..|bits|] == bits;
    FieldBound(order, bits);
  }

  /** The one-byte fast path: shift the field down, mask the rest away. */
  lemma OneByteField(b: Byte, offset: nat, n: nat)
    requires offset + n <= 8
    ensures Low(Shr(b, 8 - offset - n), n) == FromField(MsbFirst, ByteBits(MsbFirst, b)[offset..offset + n])
  {
    hide Bit, Low, Shr, FromField;
    var shift := 8 - offset - n;
    var bits := ByteBits(MsbFirst, b)[offset..offset + n];
    forall j: nat
      ensures Bit(Low(Shr(b, shift), n), j) == Bit(FromField(MsbFirst, bits), j)
    {
      BitLow(Shr(b, shift), n, j);
      BitShr(b, shift, j);
      BitOfField(MsbFirst, bits, j);
      if j < n { assert bits[n - 1 - j] == ByteBits(MsbFirst, b)[offset + n - 1 - j] == Bit(b, j + shift); }
    }
    SameDigits(Low(Shr(b, shift), n), FromField(MsbFirst, bits));
  }

  lemma {:induction false} FieldConcat(a: seq<bool>, b: seq<bool>)
    ensures FromField(MsbFirst, a + b) == Shl(FromField(MsbFirst, a), |b|) + FromField(MsbFirst, b)
  {
    if b == [] {
      assert a + b == a;
    } else {
      assert (a + b)[..|a + b| - 1] == a + b[..|b| - 1];
      FieldConcat(a, b[..|b| - 1]);
    }
  }

  /** The two-byte fast path: low digits of one byte above high digits of the next. */
  lemma TwoByteField(b0: Byte, b1: Byte, first: nat, second: nat)
    requires first <= 8 && second <= 8
    ensures Or(Shl(Low(b0, first), second), Low(Shr(b1, 8 - second), second))
         == FromField(MsbFirst, ByteBits(MsbFirst, b0)[8 - first..] + ByteBits(MsbFirst, b1)[..second])
  {
    OneByteField(b0, 8 - first, first);
    OneByteField(b1, 0, second);
    var bits0, bits1 := ByteBits(MsbFirst, b0), ByteBits(MsbFirst, b1);
    assert bits0[8 - first..8 - first + first] == bits0[8 - first..];
    assert bits1[0..0 + second] == bits1[..second];
    assert Shr(b0, 0) == b0;
    JoinFields(bits0[8 - first..], bits1[..second]);
  }

  lemma JoinFields(high: seq<bool>, low: seq<bool>)
    ensures Or(Shl(FromField(MsbFirst, high), |low|), FromField(MsbFirst, low)) == FromField(MsbFirst, high + low)
  {
    FieldConcat(high, low);
    FieldBound(MsbFirst, low);
    OrJoins(FromField(MsbFirst, high), FromField(MsbFirst, low), |low|);
  }

  lemma PackBit(order: BitOrder, bs: seq<Byte>, k: nat, j: nat)
    requires k < |bs| && j < 8
    ensures Pack(order, bs)[8 * k + j] == ByteBits(order, bs[k])[j]
  {
    PackAt(order, bs, k);
    assert Pack(order, bs)[8 * k..8 * k + 8][j] == ByteBits(order, bs[k])[j];
  }

  lemma PackWithin(order: BitOrder, bs: seq<Byte>, k: nat, from: nat, to: nat)
    requires k < |bs| && from <= to <= 8
    ensures Pack(order, bs)[8 * k + from..8 * k + to] == ByteBits(order, bs[k])[from..to]
  {
    PackAt(order, bs, k);
    assert Pack(order, bs)[8 * k + from..8 * k + to] == Pack(order, bs)[8 * k..8 * k + 8][from..to];
  }

  lemma PackAcross(order: BitOrder, bs: seq<Byte>, k: nat, from: nat, to: nat)
    requires k + 1 < |bs| && from <= 8 && to <= 8
    ensures Pack(order, bs)[8 * k + from..8 * k + 8 + to]
         == ByteBits(order, bs[k])[from..] + ByteBits(order, bs[k + 1])[..to]
  {
    PackWithin(order, bs, k, from, 8);
    PackWithin(order, bs, k + 1, 0, to);
    assert Pack(order, bs)[8 * k + from..8 * k + 8 + to]
        == Pack(order, bs)[8 * k + from..8 * k + 8] + Pack(order, bs)[8 * k + 8..8 * k + 8 + to];
  }

  lemma OneByteRead(bs: seq<Byte>, k: nat, offset: nat, n: nat)
    requires k < |bs| && offset + n <= 8
    ensures Low(Shr(bs[k], 8 - offset - n), n)
         == FromField(MsbFirst, Pack(MsbFirst, bs)[8 * k + offset..8 * k + offset + n]) < TWO_TO_64
  {
    OneByteField(bs[k], offset, n);
    PackWithin(MsbFirst, bs, k, offset, offset + n);
    SmallField(Pack(MsbFirst, bs)[8 * k + offset..8 * k + offset + n]);
  }

  lemma TwoByteRead(bs: seq<Byte>, k: nat, offset: nat, second: nat)
    requires k + 1 < |bs| && offset <= 8 && second <= 8
    ensures Or(Shl(Low(bs[k], 8 - offset), second), Low(Shr(bs[k + 1], 8 - second), second))
         == FromField(MsbFirst, Pack(MsbFirst, bs)[8 * k + offset..8 * k + 8 + second]) < TWO_TO_64
  {
    TwoByteField(bs[k], bs[k + 1], 8 - offset, second);
    PackAcross(MsbFirst, bs, k, offset, second);
    SmallField(Pack(MsbFirst, bs)[8 * k + offset..8 * k + 8 + second]);
  }

  /** On a byte boundary the readable bytes are the bytes of the input themselves. */
  lemma AlignedRest(order: BitOrder, bs: seq<Byte>, k: nat)
    requires k <= |bs|
    ensures BytesFrom(order, Pack(order, bs), 8 * k) == bs[k..]
  {
    hide Pack, ByteAt;
    assert Pack(order, bs) == Pack(order, bs) + [];
    UnpackPack(order, bs, []);
    assert Unpack(order, Pack(order, bs)) == bs;
    UnpackDrop(order, Pack(order, bs), k);
  }

  class BitStreamDecoder {
    const bytes: seq<Byte>
    const bitOrder: BitOrder
    var byteOffset: nat
    var bitOffset: nat

    ghost predicate Valid()
      reads this
    {
      bitOffset < 8 && byteOffset <= |bytes| && (byteOffset == |bytes| ==> bitOffset == 0)
    }

    /** All bits of the input in stream order. */
    ghost function Bits(): seq<bool> {
      Pack(bitOrder, bytes)
    }

    ghost function Position(): (p: nat)
      reads this
      requires Valid()
      ensures p <= |Bits()|
    {
      8 * byteOffset + bitOffset
    }

    /** The whole bytes a byte reader can still take. */
    ghost function Rest(): seq<Byte>
      reads this
      requires Valid()
    {
      BytesFrom(bitOrder, Bits(), Position())
    }

    constructor (bytes: seq<Byte>, bitOrder: BitOrder)
      ensures Valid() && this.bytes == bytes && this.bitOrder == bitOrder && Position() == 0
    {
      this.bytes, this.bitOrder := bytes, bitOrder;
      byteOffset, bitOffset := 0, 0;
    }

    method ReadSingleBit() returns (r: Result<nat>)
      requires Valid()
      modifies this
      ensures Valid()
      ensures if old(Position()) < |Bits()|
              then r == Ok(Digit(Bits()[old(Position())])) && Position() == old(Position()) + 1
              else r == Err(UnexpectedEof) && Position() == old(Position())
    {
      if byteOffset >= |bytes| {
        return Err(UnexpectedEof);
      }
      var bitIndex := match bitOrder case MsbFirst => 7 - bitOffset case LsbFirst => bitOffset;
      PackBit(bitOrder, bytes, byteOffset, bitOffset);
      BitShr(bytes[byteOffset], bitIndex, 0);
      var bit := Shr(bytes[byteOffset], bitIndex) % 2;
      bitOffset := bitOffset + 1;
      if bitOffset == 8 {
        byteOffset := byteOffset + 1;
        bitOffset := 0;
      }
      r := Ok(bit);
    }

    /** n bits gathered one by one under the given order; short input leaves the cursor at its end. */
    method ReadBitsSerial(order: BitOrder, numBits: nat) returns (r: Result<U64>)
      requires Valid() && 1 <= numBits <= 64
      requires order == bitOrder || order == LsbFirst
      modifies this
      ensures Valid()
      ensures var p := old(Position());
        if p + numBits <= |Bits()|
        then r == Ok(FromField(order, Bits()[p..p + numBits])) && Position() == p + numBits
        else r == Err(UnexpectedEof) && Position() == |Bits()|
    {
      hide Pack, FromField, Gathered, Or, Shl, Pow2;
      ghost var p := Position();
      ghost var n := if p + numBits <= |Bits()| then numBits else |Bits()| - p;
      ghost var field := Bits()[p..p + n];
      var result: nat := 0;
      GatheredNone(order, field, numBits);
      for i := 0 to numBits
        invariant Valid() && i <= n && Position() == p + i
        invariant result == Gathered(order, field, i, numBits)
      {
        var bit := ReadSingleBit();
        if bit.Err? {
          return Err(bit.error);
        }
        var bitIndex := match order case MsbFirst => numBits - 1 - i case LsbFirst => i;
        GatherStep(order, field, i, numBits);
        result := Or(result, Shl(bit.value, bitIndex));
      }
      GatheredAll(order, field);
      Pow2Monotone(numBits, 64);
      Pow2Of64();
      r := Ok(result);
    }

    /** A width of 0 or above 64 is an error; otherwise the next field, or an error at the end of input. */
    method ReadBits(numBits: Byte) returns (r: Result<U64>)
      requires Valid()
      modifies this
      ensures Valid()
      ensures var p := old(Position());
        if numBits == 0 || numBits > 64 then r == Err(InvalidValue) && Position() == p
        else if p + numBits <= |Bits()| then
          r == Ok(FromField(bitOrder, Bits()[p..p + numBits])) && Position() == p + numBits
        else
          r == Err(UnexpectedEof) && Position() == if bitOrder == MsbFirst && numBits <= 8 then p else |Bits()|
    {
      if numBits == 0 || numBits > 64 {
        return Err(InvalidValue);
      }
      if bitOrder == MsbFirst && numBits <= 8 {
        r := ReadBitsFast(numBits);
        return;
      }
      r := ReadBitsSerial(bitOrder, numBits);
    }

    /** The MSB-first fast path for at most 8 bits, from one byte or from two. */
    method ReadBitsFast(numBits: nat) returns (r: Result<U64>)
      requires Valid() && bitOrder == MsbFirst && 1 <= numBits <= 8
      modifies this
      ensures Valid()
      ensures var p := old(Position());
        if p + numBits <= |Bits()|
        then r == Ok(FromField(bitOrder, Bits()[p..p + numBits])) && Position() == p + numBits
        else r == Err(UnexpectedEof) && Position() == p
    {
      if byteOffset >= |bytes| {
        return Err(UnexpectedEof);
      }
      var bitsAvailable := 8 - bitOffset;
      if numBits <= bitsAvailable {
        var v := ReadWithinByte(numBits, bitsAvailable - numBits);
        return Ok(v);
      }
      if byteOffset + 1 >= |bytes| {
        return Err(UnexpectedEof);
      }
      var v := ReadAcrossBytes(bitsAvailable, numBits - bitsAvailable);
      r := Ok(v);
    }

    /** All bits from the current byte: one shift and one mask. */
    method ReadWithinByte(numBits: nat, shift: nat) returns (v: U64)
      requires Valid() && bitOrder == MsbFirst && byteOffset < |bytes|
      requires bitOffset + numBits + shift == 8
      modifies this
      ensures Valid() && Position() == old(Position()) + numBits
      ensures v == FromField(bitOrder, Bits()[old(Position())..old(Position()) + numBits])
    {
      OneByteRead(bytes, byteOffset, bitOffset, numBits);
      v := Low(Shr(bytes[byteOffset], shift), numBits);
      bitOffset := bitOffset + numBits;
      if bitOffset == 8 {
        bitOffset := 0;
        byteOffset := byteOffset + 1;
      }
    }

    /** The low bits of one byte above the high bits of the next. */
    method ReadAcrossBytes(bitsFromFirst: nat, bitsFromSecond: nat) returns (v: U64)
      requires Valid() && bitOrder == MsbFirst && byteOffset + 1 < |bytes|
      requires bitOffset + bitsFromFirst == 8 && bitsFromSecond < 8
      modifies this
      ensures Valid() && Position() == old(Position()) + bitsFromFirst + bitsFromSecond
      ensures v == FromField(bitOrder, Bits()[old(Position())..old(Position()) + bitsFromFirst + bitsFromSecond])
    {
      TwoByteRead(bytes, byteOffset, bitOffset, bitsFromSecond);
      var highPart := Shl(Low(bytes[byteOffset], bitsFromFirst), bitsFromSecond);
      var lowPart := Low(Shr(bytes[byteOffset + 1], 8 - bitsFromSecond), bitsFromSecond);
      v := Or(highPart, lowPart);
      byteOffset := byteOffset + 1;
      bitOffset := bitsFromSecond;
    }

    method ReadBytesVec(n: nat) returns (r: Result<seq<Byte>>)
      requires Valid()
      modifies this
      ensures Valid()
      ensures if old(Position()) % 8 != 0 then r == Err(AlignmentRequired) && Position() == old(Position())
              else if |old(Rest())| < n then r == Err(UnexpectedEof) && Position() == old(Position())
              else r == Ok(old(Rest())[..n]) && Position() == old(Position()) + 8 * n
    {
      if bitOffset != 0 {
        return Err(AlignmentRequired);
      }
      AlignedRest(bitOrder, bytes, byteOffset);
      if byteOffset + n > |bytes| {
        return Err(UnexpectedEof);
      }
      assert bytes[byteOffset..byteOffset + n] == Rest()[..n];
      r := Ok(bytes[byteOffset..byteOffset + n]);
      byteOffset := byteOffset + n;
    }

    /** The next byte; short input leaves the cursor at its end. */
    method ReadUint8() returns (r: Result<Byte>)
      requires Valid()
      modifies this
      ensures Valid()
      ensures if |old(Rest())| == 0 then r == Err(UnexpectedEof) && Position() == |Bits()|
              else r == Ok(old(Rest())[0]) && Position() == old(Position()) + 8 && Rest() == old(Rest())[1..]
      ensures r.Ok? ==>
        old(Position()) + 8 <= |Bits()|
        && r.value == FromField(if old(Position()) % 8 == 0 then bitOrder else LsbFirst,
                                Bits()[old(Position())..old(Position()) + 8])
    {
      ByteAhead(bitOrder, Bits(), Position());
      hide Pack, FromField, Field, BytesFrom;
      if bitOffset == 0 {
        r := ReadByte();
      } else {
        r := GatherByte();
      }
    }

    /** Inside a byte the eight bits are taken least significant first. */
    method GatherByte() returns (r: Result<Byte>)
      requires Valid() && bitOffset != 0
      modifies this
      ensures Valid()
      ensures var p := old(Position());
        if p + 8 <= |Bits()| then FromField(LsbFirst, Bits()[p..p + 8]) < 256
                                  && r == Ok(FromField(LsbFirst, Bits()[p..p + 8])) && Position() == p + 8
        else r == Err(UnexpectedEof) && Position() == |Bits()|
    {
      hide Pack, FromField;
      ghost var p := Position();
      if p + 8 <= |Bits()| { FieldIsByte(LsbFirst, Bits()[p..p + 8]); }
      var value := ReadBitsSerial(LsbFirst, 8);
      match value
      case Ok(v) => r := Ok(v);
      case Err(e) => r := Err(e);
    }

    /** k bytes one after another; the first missing byte is an error. */
    method ReadEach(k: nat) returns (r: Result<seq<Byte>>)
      requires Valid()
      modifies this
      ensures Valid()
      ensures if |old(Rest())| < k then r == Err(UnexpectedEof) && Position() == |Bits()|
              else r == Ok(old(Rest())[..k]) && Position() == old(Position()) + 8 * k && Rest() == old(Rest())[k..]
    {
      var read := [];
      for i := 0 to k
        invariant Valid() && i <= |old(Rest())| && read == old(Rest())[..i]
        invariant Position() == old(Position()) + 8 * i && Rest() == old(Rest())[i..]
      {
        var b := ReadUint8();
        if b.Err? {
          return Err(b.error);
        }
        read := read + [b.value];
      }
      r := Ok(read);
    }

    /** k bytes copied from a byte boundary. */
    method TakeAligned(k: nat) returns (r: Result<seq<Byte>>)
      requires Valid() && bitOffset == 0
      modifies this
      ensures Valid() && bitOffset == 0
      ensures if |old(Rest())| < k then r == Err(UnexpectedEof) && Position() == old(Position())
              else r == Ok(old(Rest())[..k]) && Position() == old(Position()) + 8 * k && Rest() == old(Rest())[k..]
    {
      hide Pack, Unpack;
      AlignedRest(bitOrder, bytes, byteOffset);
      if byteOffset + k > |bytes| {
        return Err(UnexpectedEof);
      }
      assert bytes[byteOffset..byteOffset + k] == Rest()[..k];
      BytesFromDrop(bitOrder, Bits(), Position(), k);
      r := Ok(bytes[byteOffset..byteOffset + k]);
      byteOffset := byteOffset + k;
    }

    method ReadUint16(endianness: Endianness) returns (r: Result<U16>)
      requires Valid()
      modifies this
      ensures Valid()
      ensures match ReadInt(endianness, 2, old(Rest()))
        case Ok(p) => r == Ok(p.value) && Position() == old(Position()) + 16
        case Err(e) => r == Err(e) && Position() == if old(Position()) % 8 == 0 then old(Position()) else |Bits()|
    {
      if bitOffset == 0 {
        var two := TakeAligned(2);
        if two.Err? {
          return Err(two.error);
        }
        FromBytes2(endianness, two.value);
        return Ok(FromBytes(endianness, two.value));
      }
      var read := ReadEach(2);
      if read.Err? {
        return Err(read.error);
      }
      var v := JoinTwoBytes(endianness, read.value);
      r := Ok(v);
    }

    method ReadUint32(endianness: Endianness) returns (r: Result<U32>)
      requires Valid()
      modifies this
      ensures Valid()
      ensures match ReadInt(endianness, 4, old(Rest()))
        case Ok(p) => r == Ok(p.value) && Position() == old(Position()) + 32 && Rest() == old(Rest())[4..]
        case Err(e) => r == Err(e) && Position() == if old(Position()) % 8 == 0 then old(Position()) else |Bits()|
    {
      if bitOffset == 0 {
        var four := TakeAligned(4);
        if four.Err? {
          return Err(four.error);
        }
        FromBytes4(endianness, four.value);
        return Ok(FromBytes(endianness, four.value));
      }
      var read := ReadEach(4);
      if read.Err? {
        return Err(read.error);
      }
      var v := JoinFourBytes(endianness, read.value);
      r := Ok(v);
    }

    method ReadUint64(endianness: Endianness) returns (r: Result<U64>)
      requires Valid()
      modifies this
      ensures Valid()
      ensures match ReadInt(endianness, 8, old(Rest()))
        case Ok(p) => r == Ok(p.value) && Position() == old(Position()) + 64
        case Err(e) => r == Err(e) && Position() == if old(Position()) % 8 == 0 then old(Position()) else |Bits()|
    {
      hide Pack, Unpack, BytesFrom, FromBytes, Or, Shl, Pow2;
      if bitOffset == 0 {
        var eight := TakeAligned(8);
        if eight.Err? {
          return Err(eight.error);
        }
        FromBytesBound(endianness, eight.value);
        FitsU64(FromBytes(endianness, eight.value), 64);
        return Ok(FromBytes(endianness, eight.value));
      }
      ghost var rest := Rest();
      var first := ReadUint32(endianness);
      if first.Err? {
        return Err(first.error);
      }
      var second := ReadUint32(endianness);
      if second.Err? {
        return Err(second.error);
      }
      FromBytes8(endianness, rest);
      var v := JoinTwoWords(if endianness.BigEndian? then first.value else second.value,
                            if endianness.BigEndian? then second.value else first.value);
      r := Ok(v);
    }

    // ---------- fast paths for a cursor known to be byte-aligned ----------

    method ReadByte() returns (r: Result<Byte>)
      requires Valid() && bitOffset == 0
      modifies this
      ensures Valid() && bitOffset == 0
      ensures if |old(Rest())| == 0 then r == Err(UnexpectedEof) && Position() == old(Position())
              else r == Ok(old(Rest())[0]) && Position() == old(Position()) + 8
    {
      AlignedRest(bitOrder, bytes, byteOffset);
      if byteOffset >= |bytes| {
        return Err(UnexpectedEof);
      }
      r := Ok(bytes[byteOffset]);
      byteOffset := byteOffset + 1;
    }

    /** `read_u16_le` to `read_u64_be`: k bytes in the given endianness, without looking at the position. */
    method ReadAligned(k: nat, endianness: Endianness) returns (r: Result<nat>)
      requires Valid() && bitOffset == 0 && k in {2, 4, 8}
      modifies this
      ensures Valid() && bitOffset == 0
      ensures match ReadInt(endianness, k, old(Rest()))
        case Ok(p) => r == Ok(p.value) && Position() == old(Position()) + 8 * k
        case Err(e) => r == Err(e) && Position() == old(Position())
    {
      var read := TakeAligned(k);
      match read
      case Ok(bs) => r := Ok(FromBytes(endianness, bs));
      case Err(e) => r := Err(e);
    }

    // ---------- variable-length integers ----------

    method ReadVarlengthLeb128() returns (r: Result<U64>)
      requires Valid()
      modifies this
      ensures Valid()
      ensures match LebDecode(old(Rest()))
        case Ok(p) => r == Ok(p.value) && Position() == old(Position()) + 8 * p.used
        case Err(e) => r == Err(e) && Position() == if e == UnexpectedEof then |Bits()| else old(Position()) + 80
    {
      hide Pack, BytesFrom, Shl, Pow2, Or, Low;
      ghost var rest := Rest();
      ghost var k := 0;
      var result: nat := 0;
      var shift := 0;
      while true
        invariant Valid() && 0 <= k <= 9 && k <= |rest| && shift == 7 * k
        invariant Position() == old(Position()) + 8 * k && Rest() == rest[k..]
        invariant result < Pow2(shift) && LebDecode(rest) == LebFrom(rest, k, result)
        decreases 9 - k
      {
        var byte := ReadUint8();
        if byte.Err? {
          return Err(byte.error);
        }
        var b := byte.value;
        result := Gather(result, shift, b % 128, k);
        shift := shift + 7;
        k := k + 1;
        if shift > 64 {
          return Err(InvalidEncoding);
        }
        if b < 128 {
          FitsU64(result, shift);
          return Ok(result);
        }
      }
    }

    method ReadVarlengthZigzag() returns (r: Result<I64>)
      requires Valid()
      modifies this
      ensures Valid()
      ensures match ZigZagDecode(old(Rest()))
        case Ok(p) => r == Ok(p.value) && Position() == old(Position()) + 8 * p.used
        case Err(e) => r == Err(e) && Position() == if e == UnexpectedEof then |Bits()| else old(Position()) + 80
    {
      var u := ReadVarlengthLeb128();
      if u.Err? {
        return Err(u.error);
      }
      r := Ok(UnZigZag(u.value));
    }

    /** An eleventh byte asks for a shift by 70: a panic with overflow checks (`ShiftOverflow`), and a shift by 6
        without. */
    method ReadVarlengthSleb128() returns (r: Result<I64>)
      requires Valid()
      modifies this
      ensures Valid()
      ensures match SlebDecode(old(Rest()))
        case Ok(p) => r == Ok(p.value) && Position() == old(Position()) + 8 * p.used
        case Err(e) => r == Err(e) && Position() == if e == UnexpectedEof then |Bits()| else old(Position()) + 88
    {
      ghost var rest := Rest();
      ghost var k := 0;
      var result: U64 := 0;
      var shift := 0;
      SlebStart(rest);
      hide Pack, BytesFrom, Shl, Pow2, Or, Low, SlebSigned, AsI64, SlebDecode, SlebFrom, SlebGather;
      while true
        invariant Valid() && 0 <= k <= 10 && k <= |rest| && shift == 7 * k
        invariant Position() == old(Position()) + 8 * k && Rest() == rest[k..]
        invariant k < 10 ==> result < Pow2(shift)
        invariant SlebDecode(rest) == SlebFrom(rest, k, result)
        decreases 11 - k
      {
        SlebNext(rest, k, result);
        Sequences.DropDrop(rest, k, if k < |rest| then 1 else 0);
        var byte := ReadUint8();
        if byte.Err? {
          return Err(byte.error);
        }
        var b := byte.value;
        if shift >= 64 && OVERFLOW_CHECKS {
          return Err(ShiftOverflow);
        }
        result := GatherSigned(result, shift, b % 128, k);
        shift := shift + 7;
        k := k + 1;
        if b < 128 {
          var v := SignExtend(result, shift, b, k);
          return Ok(v);
        }
        if shift > 70 {
          return Err(InvalidEncoding);
        }
      }
    }

    method ReadVarlengthDer() returns (r: Result<U64>)
      requires Valid()
      modifies this
      ensures Valid()
      ensures match DerDecode(old(Rest()))
        case Ok(p) => r == Ok(p.value) && Position() == old(Position()) + 8 * p.used
        case Err(e) => r == Err(e) && Position() == if e == UnexpectedEof then |Bits()| else old(Position()) + 8
    {
      ghost var rest := Rest();
      var first := ReadUint8();
      if first.Err? {
        return Err(first.error);
      }
      if first.value < 128 {
        return Ok(first.value);
      }
      var numBytes := first.value % 128;
      if numBytes > 8 {
        return Err(InvalidEncoding);
      }
      r := ReadBigEndianAfter(0, numBytes);
      if |rest| >= 1 + numBytes {
        assert rest[1..][..numBytes] == rest[1..1 + numBytes];
        FromBeAfterZero(rest[1..1 + numBytes]);
      }
    }

    /** `for _ in 0..n { value = (value << 8) | read_uint8()? }`. */
    method ReadBigEndianAfter(start: Byte, n: nat) returns (r: Result<U64>)
      requires Valid() && (n <= 7 || (n == 8 && start == 0))
      modifies this
      ensures Valid()
      ensures if |old(Rest())| < n then r == Err(UnexpectedEof) && Position() == |Bits()|
              else r == Ok(FromBeAfter(start, old(Rest())[..n])) && Position() == old(Position()) + 8 * n
    {
      ghost var rest := Rest();
      var value: nat := start;
      for i := 0 to n
        invariant Valid() && i <= |rest|
        invariant Position() == old(Position()) + 8 * i && Rest() == rest[i..]
        invariant value == FromBeAfter(start, rest[..i])
      {
        var byte := ReadUint8();
        if byte.Err? {
          return Err(byte.error);
        }
        JoinByte(value, byte.value);
        assert rest[..i + 1][..i] == rest[..i];
        value := Or(Shl(value, 8), byte.value);
      }
      FromBeAfterBound(start, rest[..n]);
      r := Ok(value);
    }

    /** The source's `width > 8` error cannot be reached, because the search stops at width 8. */
    method ReadVarlengthEbml() returns (r: Result<U64>)
      requires Valid()
      modifies this
      ensures Valid()
      ensures match EbmlDecode(old(Rest()))
        case Ok(p) => r == Ok(p.value) && Position() == old(Position()) + 8 * p.used
        case Err(e) => r == Err(e) && Position() == |Bits()|
    {
      hide Pack, BytesFrom, Low, Bit, Pow2;
      ghost var rest := Rest();
      var first := ReadUint8();
      if first.Err? {
        return Err(first.error);
      }
      var firstByte := first.value;
      var width := 1;
      while !Bit(firstByte, 8 - width) && width < 8
        invariant 1 <= width <= 8 && Valid()
        invariant Position() == old(Position()) + 8 && Rest() == rest[1..]
        invariant EbmlLead(firstByte, 1) == EbmlLead(firstByte, width)
        decreases 8 - width
      {
        width := width + 1;
      }
      EbmlDataFits(firstByte, width);
      r := ReadBigEndianAfter(Low(firstByte, 8 - width), width - 1);
      if |rest| >= width { assert rest[1..][..width - 1] == rest[1..width]; }
    }

    method ReadVarlengthVlq() returns (r: Result<U64>)
      requires Valid()
      modifies this
      ensures Valid()
      ensures match VlqDecode(old(Rest()))
        case Ok(p) => r == Ok(p.value) && Position() == old(Position()) + 8 * p.used
        case Err(e) => r == Err(e) && Position() == if e == UnexpectedEof then |Bits()| else old(Position()) + 32
    {
      hide Pack, BytesFrom, Shl, Pow2, Or;
      ghost var rest := Rest();
      var result: nat := 0;
      var bytesRead := 0;
      while true
        invariant Valid() && 0 <= bytesRead <= 4 && bytesRead <= |rest|
        invariant Position() == old(Position()) + 8 * bytesRead && Rest() == rest[bytesRead..]
        invariant result < Pow2(7 * bytesRead)
        invariant VlqDecode(rest) == VlqFrom(rest, bytesRead, result)
        decreases 4 - bytesRead
      {
        if bytesRead >= 4 {
          return Err(InvalidEncoding);
        }
        var byte := ReadUint8();
        if byte.Err? {
          return Err(byte.error);
        }
        var b := byte.value;
        JoinSeven(result, b % 128);
        Pow2OfSevens(bytesRead);
        result := Or(Shl(result, 7), b % 128);
        bytesRead := bytesRead + 1;
        if b < 128 {
          FitsU64(result, 7 * bytesRead);
          return Ok(result);
        }
      }
    }

    // ---------- position ----------

    method Seek(pos: nat) returns (r: Result<()>)
      requires Valid()
      modifies this
      ensures Valid()
      ensures if pos > |bytes| then r == Err(OutOfBounds) && Position() == old(Position())
              else r == Ok(()) && Position() == 8 * pos && Rest() == bytes[pos..]
    {
      if pos > |bytes| {
        return Err(OutOfBounds);
      }
      byteOffset, bitOffset := pos, 0;
      AlignedRest(bitOrder, bytes, pos);
      r := Ok(());
    }

    /** `peek_uint8`, `peek_uint16` and `peek_uint32` for k = 1, 2, 4.  On a byte boundary the result
        is what the read of the same width returns next; inside a byte it is an error. */
    method Peek(k: nat, endianness: Endianness) returns (r: Result<nat>)
      requires Valid() && k in {1, 2, 4}
      ensures Position() % 8 == 0 ==>
        match ReadInt(endianness, k, Rest()) case Ok(p) => r == Ok(p.value) case Err(e) => r == Err(e)
      ensures Position() % 8 != 0 ==>
        r == Err(if byteOffset + k > |bytes| then UnexpectedEof else AlignmentRequired)
    {
      hide Pack, FromBytes;
      if byteOffset + k > |bytes| {
        if bitOffset == 0 { AlignedRest(bitOrder, bytes, byteOffset); }
        return Err(UnexpectedEof);
      }
      if bitOffset != 0 {
        return Err(AlignmentRequired);
      }
      AlignedRest(bitOrder, bytes, byteOffset);
      assert bytes[byteOffset..byteOffset + k] == Rest()[..k];
      r := Ok(FromBytes(endianness, bytes[byteOffset..byteOffset + k]));
    }
  }

  // ---------- words joined from narrower ones ----------

  lemma SmallField(bits: seq<bool>)
    requires |bits| <= 64
    ensures FromField(MsbFirst, bits) < TWO_TO_64
  {
    FieldBound(MsbFirst, bits);
    Pow2Monotone(|bits|, 64);
    Pow2Of64();
  }

  lemma {:induction false} LeBound(bs: seq<Byte>)
    ensures FromLe(bs) < Pow2(8 * |bs|)
  {
    if bs != [] {
      LeBound(bs[1..]);
      Pow2OfBytes(|bs| - 1);
    }
  }

  lemma FromBytesBound(e: Endianness, bs: seq<Byte>)
    ensures FromBytes(e, bs) < Pow2(8 * |bs|)
  {
    BeBound(bs);
    LeBound(bs);
  }

  lemma JoinByte(high: nat, low: Byte)
    ensures Or(Shl(high, 8), low) == 256 * high + low
  {
    Pow2Small();
    OrJoins(high, low, 8);
    ShlIsTimes(high, 8);
  }

  lemma JoinSeven(high: nat, low: nat)
    requires low < 128
    ensures Or(Shl(high, 7), low) == 128 * high + low
  {
    Pow2Small();
    OrJoins(high, low, 7);
    ShlIsTimes(high, 7);
  }

  lemma JoinWords(high: U32, low: U32)
    ensures Or(Shl(high, 32), low) == TWO_TO_32 * high + low
  {
    Pow2Of32();
    OrJoins(high, low, 32);
    ShlIsTimes(high, 32);
  }

  function Wide(b0: nat, b1: nat, b2: nat, b3: nat): nat {
    0x100_0000 * b0 + 0x1_0000 * b1 + 0x100 * b2 + b3
  }

  lemma JoinFour(b0: Byte, b1: Byte, b2: Byte, b3: Byte)
    ensures Or(Or(Or(Shl(b0, 24), Shl(b1, 16)), Shl(b2, 8)), b3)
         == Wide(b0, b1, b2, b3)
  {
    Pow2Small();
    JoinAbove(b0, b1, 16);
    JoinAbove(256 * b0 + b1, b2, 8);
    JoinByte(256 * (256 * b0 + b1) + b2, b3);
    ShlIsTimes(256 * (256 * b0 + b1) + b2, 8);
  }

  lemma JoinAbove(high: nat, low: Byte, k: nat)
    ensures Or(Shl(high, k + 8), Shl(low, k)) == Shl(256 * high + low, k)
  {
    Pow2Add(8, k);
    ShlMonotone(low, 255, k);
    ShlIsTimes(255, k);
    ShlIsTimes(256, k);
    assert Pow2(8) == 256;
    OrJoins(high, Shl(low, k), k + 8);
    ShlByte(high, low, k);
  }

  lemma {:induction false} ShlByte(high: nat, low: nat, k: nat)
    ensures Shl(high, k + 8) + Shl(low, k) == Shl(256 * high + low, k)
  {
    if k == 0 { ShlIsTimes(high, 8); Pow2Small(); } else { ShlByte(high, low, k - 1); }
  }

  lemma FromBytes2(e: Endianness, bs: seq<Byte>)
    requires |bs| == 2
    ensures FromBytes(e, bs) == if e.BigEndian? then 256 * (bs[0] as int) + bs[1] else bs[0] as int + 256 * (bs[1] as int)
  {
    assert FromBe(bs[..1]) == 256 * FromBe(bs[..1][..0]) + bs[0];
    assert FromLe(bs[1..]) == bs[1] + 256 * FromLe(bs[1..][1..]);
  }

  lemma FromBytes4(e: Endianness, bs: seq<Byte>)
    requires |bs| == 4
    ensures FromBytes(e, bs)
         == if e.BigEndian? then Wide(bs[0], bs[1], bs[2], bs[3]) else Wide(bs[3], bs[2], bs[1], bs[0])
  {
    match e
    case BigEndian =>
      FromBytes2(e, bs[..2]);
      assert bs[..3][..2] == bs[..2];
      assert FromBe(bs) == 256 * FromBe(bs[..3]) + bs[3];
      assert FromBe(bs[..3]) == 256 * FromBe(bs[..2]) + bs[2];
    case LittleEndian =>
      FromBytes2(e, bs[2..]);
      assert bs[1..][1..] == bs[2..];
      assert FromLe(bs) == bs[0] + 256 * FromLe(bs[1..]);
      assert FromLe(bs[1..]) == bs[1] + 256 * FromLe(bs[2..]);
  }

  lemma JoinedFour(e: Endianness, bs: seq<Byte>)
    requires |bs| == 4
    ensures FromBytes(e, bs) < TWO_TO_32
    ensures FromBytes(e, bs)
         == if e.BigEndian? then Or(Or(Or(Shl(bs[0], 24), Shl(bs[1], 16)), Shl(bs[2], 8)), bs[3])
            else Or(Or(Or(Shl(bs[3], 24), Shl(bs[2], 16)), Shl(bs[1], 8)), bs[0])
  {
    FromBytes4(e, bs);
    JoinFour(bs[0], bs[1], bs[2], bs[3]);
    JoinFour(bs[3], bs[2], bs[1], bs[0]);
  }

  method JoinTwoBytes(e: Endianness, bs: seq<Byte>) returns (v: U16)
    requires |bs| == 2
    ensures v == FromBytes(e, bs)
  {
    FromBytes2(e, bs);
    var high, low := if e.BigEndian? then bs[0] else bs[1], if e.BigEndian? then bs[1] else bs[0];
    JoinByte(high, low);
    v := Or(Shl(high, 8), low);
  }

  method JoinFourBytes(e: Endianness, bs: seq<Byte>) returns (v: U32)
    requires |bs| == 4
    ensures v == FromBytes(e, bs)
  {
    JoinedFour(e, bs);
    match e
    case BigEndian => v := Or(Or(Or(Shl(bs[0], 24), Shl(bs[1], 16)), Shl(bs[2], 8)), bs[3]);
    case LittleEndian => v := Or(Or(Or(Shl(bs[3], 24), Shl(bs[2], 16)), Shl(bs[1], 8)), bs[0]);
  }

  method JoinTwoWords(high: U32, low: U32) returns (v: U64)
    ensures v == TWO_TO_32 * high + low
  {
    JoinWords(high, low);
    v := Or(Shl(high, 32), low);
  }

  lemma {:induction false} FromBeConcat(a: seq<Byte>, b: seq<Byte>)
    ensures FromBe(a + b) == Shl(FromBe(a), 8 * |b|) + FromBe(b)
  {
    if b == [] {
      assert a + b == a;
    } else {
      assert (a + b)[..|a + b| - 1] == a + b[..|b| - 1];
      FromBeConcat(a, b[..|b| - 1]);
      ShlEight(FromBe(a), 8 * (|b| - 1));
    }
  }

  lemma {:induction false} FromLeConcat(a: seq<Byte>, b: seq<Byte>)
    ensures FromLe(a + b) == FromLe(a) + Shl(FromLe(b), 8 * |a|)
  {
    if a == [] {
      assert a + b == b;
    } else {
      assert (a + b)[1..] == a[1..] + b;
      FromLeConcat(a[1..], b);
      ShlEight(FromLe(b), 8 * (|a| - 1));
    }
  }

  lemma ShlEight(x: nat, k: nat)
    ensures Shl(x, k + 8) == 256 * Shl(x, k)
  {
    ShlByte(x, 0, k);
    ShlIsTimes(0, k);
    ShlIsTimes(256 * x, k);
    ShlIsTimes(x, k);
    var p := Pow2(k);
    assert (256 * x) * p == 256 * (x * p);
  }

  lemma FromBytes8(e: Endianness, bs: seq<Byte>)
    requires |bs| >= 8
    ensures FromBytes(e, bs[..8])
         == if e.BigEndian? then TWO_TO_32 * FromBytes(e, bs[..4]) + FromBytes(e, bs[4..][..4])
            else FromBytes(e, bs[..4]) + TWO_TO_32 * FromBytes(e, bs[4..][..4])
  {
    var a, b := bs[..4], bs[4..][..4];
    assert bs[..8] == a + b;
    FromBeConcat(a, b);
    FromLeConcat(a, b);
    Pow2Of32();
    ShlIsTimes(FromBe(a), 32);
    ShlIsTimes(FromLe(b), 32);
  }

  lemma {:induction false} FromBeAfterZero(bs: seq<Byte>)
    ensures FromBeAfter(0, bs) == FromBe(bs)
  {
    if bs != [] { FromBeAfterZero(bs[..|bs| - 1]); }
  }

  lemma FromBeAfterBound(start: Byte, bs: seq<Byte>)
    requires |bs| <= 7 || (|bs| == 8 && start == 0)
    ensures FromBeAfter(start, bs) < TWO_TO_64
  {
    Pow2Of64();
    if |bs| == 8 {
      FromBeAfterZero(bs);
      BeBound(bs);
    } else {
      FromBeAfterGrows(start, bs);
      Pow2Monotone(8 * |bs| + 8, 64);
    }
  }

  lemma {:induction false} FromBeAfterGrows(start: Byte, bs: seq<Byte>)
    ensures FromBeAfter(start, bs) < Pow2(8 * |bs| + 8)
  {
    if bs == [] {
      Pow2Small();
    } else {
      FromBeAfterGrows(start, bs[..|bs| - 1]);
      Pow2OfBytes(|bs|);
    }
  }

  lemma EbmlDataFits(b: Byte, width: nat)
    requires 1 <= width <= 8
    ensures Low(b, 8 - width) < 256
  {
    LowBound(b, 8 - width);
    Pow2Monotone(8 - width, 8);
    assert Pow2(8) == 256;
  }

  // ---------- seven digits at a time ----------

  lemma GatherSeven(k: nat, acc: nat, d: nat)
    requires k < 9 && acc < Pow2(7 * k) && d < 128
    ensures Or(acc, Low(Shl(d, 7 * k), 64)) == acc + Shl(d, 7 * k) < Pow2(7 * (k + 1))
  {
    AddDigitBound(acc, d, k);
    Pow2Monotone(7 * (k + 1), 64);
    LowOfSmall(Shl(d, 7 * k), 64);
    OrJoins(d, acc, 7 * k);
  }

  lemma GatherSevenSigned(k: nat, acc: U64, d: nat)
    requires k <= 9 && acc < Pow2(7 * k) && d < 128
    ensures Or(acc, Low(Shl(d, 7 * k), 64)) == Low(acc + Shl(d, 7 * k), 64) < TWO_TO_64
    ensures k < 9 ==> Or(acc, Low(Shl(d, 7 * k), 64)) < Pow2(7 * (k + 1))
  {
    var x := Shl(d, 7 * k);
    OrJoins(d, acc, 7 * k);
    Pow2Of64();
    forall j: nat
      ensures Bit(Or(acc, Low(x, 64)), j) == Bit(Low(Or(acc, x), 64), j)
    {
      BitOr(acc, Low(x, 64), j);
      BitLow(x, 64, j);
      BitLow(Or(acc, x), 64, j);
      BitOr(acc, x, j);
      if j >= 64 { BitBeyond(acc, 64, j); }
    }
    SameDigits(Or(acc, Low(x, 64)), Low(Or(acc, x), 64));
    LowBound(acc + x, 64);
    if k < 9 { GatherSeven(k, acc, d); }
  }

  lemma ExtendSign(acc: nat, shift: nat)
    requires shift <= 64 && acc < Pow2(shift)
    ensures Pow2(shift) <= TWO_TO_64
    ensures Or(acc, TWO_TO_64 - Pow2(shift)) == acc + TWO_TO_64 - Pow2(shift) < TWO_TO_64
  {
    Pow2Of64();
    Pow2Add(64 - shift, shift);
    var ones := Pow2(64 - shift) - 1;
    ShlMinusOne(Pow2(64 - shift), shift);
    OrJoins(ones, acc, shift);
  }

  lemma SignedResult(acc: U64, k: nat, last: Byte)
    requires 1 <= k <= 11 && (k < 10 ==> acc < Pow2(7 * k))
    ensures if 7 * k < 64 && last % 128 >= 64
            then Pow2(7 * k) <= TWO_TO_64 && Or(acc, TWO_TO_64 - Pow2(7 * k)) < TWO_TO_64
              && AsI64(Or(acc, TWO_TO_64 - Pow2(7 * k))) == SlebSigned(acc, k, last)
            else AsI64(acc) == SlebSigned(acc, k, last)
  {
    if 7 * k < 64 { ExtendSign(acc, 7 * k); }
  }

  /** `result |= ((byte & 0x7F) as u64) << shift`; bits above the word are dropped. */
  method Gather(acc: nat, shift: nat, d: nat, ghost k: nat) returns (v: nat)
    requires k <= 9 && shift == 7 * k && acc < Pow2(shift) && d < 128
    ensures k < 9 ==> v == acc + Shl(d, 7 * k) < Pow2(7 * (k + 1))
  {
    if k < 9 { GatherSeven(k, acc, d); }
    v := Or(acc, Low(Shl(d, shift), 64));
  }

  /** `result |= ((byte & 0x7F) as i64) << shift`. */
  lemma SlebStart(bs: seq<Byte>)
    ensures bs[0..] == bs && SlebDecode(bs) == SlebFrom(bs, 0, 0) && 0 < Pow2(0)
  {
  }

  /** The accumulator after one more byte; the eleventh is shifted by 70 modulo 64. */
  ghost function SlebGather(acc: U64, d: nat, k: nat): nat {
    if k < 10 then Low(acc + Shl(d, 7 * k), 64) else Or(acc, Shl(d, 70 % 64))
  }

  lemma SlebNext(bs: seq<Byte>, k: nat, acc: U64)
    requires k <= |bs| && k <= 10
    ensures SlebFrom(bs, k, acc)
         == if k == |bs| then Err(UnexpectedEof)
            else if k == 10 && OVERFLOW_CHECKS then Err(ShiftOverflow)
            else if bs[k] < 128 then Ok(Parsed(SlebSigned(SlebGather(acc, bs[k] % 128, k), k + 1, bs[k]), k + 1))
            else if k == 10 then Err(InvalidEncoding)
            else SlebFrom(bs, k + 1, SlebGather(acc, bs[k] % 128, k))
  {
  }

  method GatherSigned(acc: U64, shift: nat, d: nat, ghost k: nat) returns (v: U64)
    requires k <= 10 && shift == 7 * k && (k < 10 ==> acc < Pow2(shift)) && d < 128
    ensures v == SlebGather(acc, d, k)
    ensures k < 9 ==> v < Pow2(7 * (k + 1))
  {
    if shift >= 64 {
      v := GatherWrapped(acc, d);
    } else {
      GatherSevenSigned(k, acc, d);
      v := Or(acc, Low(Shl(d, shift), 64));
    }
  }

  /** The same for a shift by 70 without overflow checks: the amount is taken modulo 64. */
  method GatherWrapped(acc: U64, d: nat) returns (v: U64)
    requires d < 128
    ensures v == Or(acc, Shl(d, 70 % 64))
  {
    WrappedFits(acc, d);
    v := Or(acc, Low(Shl(d, 70 % 64), 64));
  }

  lemma WrappedFits(acc: U64, d: nat)
    requires d < 128
    ensures Low(Shl(d, 6), 64) == Shl(d, 6) && Or(acc, Shl(d, 6)) < TWO_TO_64
  {
    Pow2Of64();
    ShlIsTimes(d, 6);
    Pow2Small();
    LowOfSmall(Shl(d, 6), 64);
    forall j: nat | j >= 64
      ensures !Bit(Or(acc, Shl(d, 6)), j)
    {
      BitOr(acc, Shl(d, 6), j);
      BitBeyond(acc, 64, j);
      BitBeyond(Shl(d, 6), 64, j);
    }
    BoundedByDigits(Or(acc, Shl(d, 6)), 64);
  }

  /** `if shift < 64 && byte & 0x40 != 0 { result |= -1 << shift }`, read as an i64. */
  method SignExtend(acc: U64, shift: nat, last: Byte, ghost k: nat) returns (v: I64)
    requires 1 <= k <= 11 && shift == 7 * k && (k < 10 ==> acc < Pow2(shift))
    ensures v == SlebSigned(acc, k, last)
  {
    SignedResult(acc, k, last);
    var result := acc;
    if shift < 64 && last % 128 >= 0x40 {
      result := Or(result, TWO_TO_64 - Pow2(shift));
    }
    v := AsI64(result);
  }

  lemma {:induction false} ShlMinusOne(x: nat, k: nat)
    requires x > 0
    ensures Shl(x - 1, k) == Shl(x, k) - Pow2(k)
  {
    if k > 0 { ShlMinusOne(x, k - 1); }
  }
}
