/** `BitStreamEncoder`: a byte buffer, a partial byte and the position of the next bit in it. */
module BitStreamEncoding {
  import opened Words
  import opened BitLayout
  import opened Varint
  import Sequences

  // ---------- the stream an encoder state denotes ----------

  /** Nothing has been written yet at or behind the bit position. */
  ghost predicate CleanTail(order: BitOrder, current: Byte, position: nat) {
    position < 8 && forall i :: position <= i < 8 ==> !ByteBits(order, current)[i]
  }

  ghost function StreamOf(order: BitOrder, buffer: seq<Byte>, current: Byte, position: nat): seq<bool>
    requires position < 8
  {
    Pack(order, buffer) + ByteBits(order, current)[..position]
  }

  /** The bits written so far determine the whole encoder state. */
  lemma StateDetermined(order: BitOrder, b1: seq<Byte>, c1: Byte, p1: nat, b2: seq<Byte>, c2: Byte, p2: nat)
    requires CleanTail(order, c1, p1) && CleanTail(order, c2, p2)
    requires StreamOf(order, b1, c1, p1) == StreamOf(order, b2, c2, p2)
    ensures b1 == b2 && c1 == c2 && p1 == p2
  {
    hide Unpack, Pack, Field;
    var n := |b1|;
    assert 8 * n + p1 == |StreamOf(order, b1, c1, p1)| == 8 * |b2| + p2;
    var partial1, partial2 := ByteBits(order, c1)[..p1], ByteBits(order, c2)[..p1];
    assert StreamOf(order, b1, c1, p1)[8 * n..] == partial1;
    assert StreamOf(order, b2, c2, p2)[8 * n..] == partial2;
    UnpackPack(order, b1, partial1);
    UnpackPack(order, b2, partial2);
    SameByte(order, c1, c2, p1);
  }

  lemma SameByte(order: BitOrder, c1: Byte, c2: Byte, p: nat)
    requires CleanTail(order, c1, p) && CleanTail(order, c2, p)
    requires ByteBits(order, c1)[..p] == ByteBits(order, c2)[..p]
    ensures c1 == c2
  {
    var bits1, bits2 := ByteBits(order, c1), ByteBits(order, c2);
    assert bits1 == bits1[..p] + bits1[p..];
    assert bits2 == bits2[..p] + bits2[p..];
    assert bits1[p..] == bits2[p..];
    ByteRoundTrip(order, c1);
    ByteRoundTrip(order, c2);
  }

  predicate MergedDigit(c: nat, v: nat, n: nat, shift: nat, j: nat) {
    Bit(c, j) || (shift <= j < shift + n && Bit(v, j - shift))
  }

  lemma MergeDigits(c: Byte, v: nat, n: nat, shift: nat)
    requires shift + n <= 8 && v < Pow2(n)
    ensures Or(c, Shl(v, shift)) < 256
    ensures forall j: nat :: Bit(Or(c, Shl(v, shift)), j) == MergedDigit(c, v, n, shift, j)
  {
    var merged := Or(c, Shl(v, shift));
    Pow2Small();
    forall j: nat
      ensures Bit(merged, j) == MergedDigit(c, v, n, shift, j)
    {
      BitOr(c, Shl(v, shift), j);
      BitShl(v, shift, j);
      if j >= shift + n { BitBeyond(v, n, j - shift); }
    }
    forall j: nat | j >= 8
      ensures !Bit(merged, j)
    {
      BitBeyond(c, 8, j);
      assert Bit(merged, j) == MergedDigit(c, v, n, shift, j);
    }
    BoundedByDigits(merged, 8);
  }

  /** Setting the digits of a value below the ones already written appends its field. */
  lemma MergeField(order: BitOrder, c: Byte, p: nat, v: nat, n: nat, shift: nat)
    requires CleanTail(order, c, p) && p + n <= 8 && v < Pow2(n)
    requires shift == if order.MsbFirst? then 8 - p - n else p
    ensures Or(c, Shl(v, shift)) < 256
    ensures ByteBits(order, Or(c, Shl(v, shift)))[..p + n] == ByteBits(order, c)[..p] + Field(order, v, n)
    ensures forall i :: p + n <= i < 8 ==> !ByteBits(order, Or(c, Shl(v, shift)))[i]
  {
    MergeDigits(c, v, n, shift);
    var whole := ByteBits(order, Or(c, Shl(v, shift)));
    forall i | 0 <= i < 8
      ensures whole[i] == MergedAt(order, c, p, v, n, i)
    {
      MergedBit(order, c, p, v, n, shift, i);
    }
    Splice(whole, ByteBits(order, c)[..p], Field(order, v, n));
  }

  lemma MergedBit(order: BitOrder, c: Byte, p: nat, v: nat, n: nat, shift: nat, i: nat)
    requires CleanTail(order, c, p) && p + n <= 8 && v < Pow2(n) && i < 8
    requires shift == if order.MsbFirst? then 8 - p - n else p
    requires Or(c, Shl(v, shift)) < 256
    ensures ByteBits(order, Or(c, Shl(v, shift)))[i] == MergedAt(order, c, p, v, n, i)
  {
    MergeDigits(c, v, n, shift);
    var j := Slot(order, 8, i);
    assert Bit(Or(c, Shl(v, shift)), j) == MergedDigit(c, v, n, shift, j);
    MergedAtDigit(order, c, p, v, n, shift, i);
  }

  lemma Splice(whole: seq<bool>, left: seq<bool>, right: seq<bool>)
    requires |left| + |right| <= |whole|
    requires forall i :: 0 <= i < |left| ==> whole[i] == left[i]
    requires forall i :: |left| <= i < |left| + |right| ==> whole[i] == right[i - |left|]
    ensures whole[..|left| + |right|] == left + right
  {
  }

  predicate MergedAt(order: BitOrder, c: Byte, p: nat, v: nat, n: nat, i: nat)
    requires p + n <= 8 && i < 8
  {
    if i < p then ByteBits(order, c)[i] else i < p + n && Field(order, v, n)[i - p]
  }

  lemma MergedAtDigit(order: BitOrder, c: Byte, p: nat, v: nat, n: nat, shift: nat, i: nat)
    requires CleanTail(order, c, p) && p + n <= 8 && i < 8
    requires shift == if order.MsbFirst? then 8 - p - n else p
    ensures MergedDigit(c, v, n, shift, Slot(order, 8, i)) == MergedAt(order, c, p, v, n, i)
  {
    assert ByteBits(order, c)[i] == Bit(c, Slot(order, 8, i));
    if p <= i < p + n {
      assert Field(order, v, n)[i - p] == Bit(v, Slot(order, n, i - p));
    }
  }

  lemma FastPathMask(v: nat, n: nat)
    requires n <= 8
    ensures Low(Low(v, n) % 256, n) == Low(v, n) < Pow2(n)
  {
    LowBound(v, n);
    LowOfSmall(Low(v, n), n);
    BelowByte(Low(v, n), n);
  }

  lemma BelowByte(x: nat, n: nat)
    requires n <= 8 && x < Pow2(n)
    ensures x % 256 == x
  {
    Pow2Monotone(n, 8);
    Pow2Small();
  }

  lemma AlignedExtend(order: BitOrder, buffer: seq<Byte>, c: Byte, bytes: seq<Byte>)
    ensures StreamOf(order, buffer + bytes, c, 0) == PutBytes(order, StreamOf(order, buffer, c, 0), bytes)
  {
    PackConcat(order, buffer, bytes);
    assert StreamOf(order, buffer, c, 0) == Pack(order, buffer);
    assert StreamOf(order, buffer + bytes, c, 0) == Pack(order, buffer + bytes);
  }

  lemma EbmlMarker(v: nat, width: nat)
    requires 1 <= width <= 8 && v < Pow2(7 * width)
    ensures Or(Shl(1, width * 7), v) == Pow2(7 * width) + v < TWO_TO_64
  {
    OrJoins(1, v, 7 * width);
    ShlIsTimes(1, 7 * width);
    Pow2Monotone(7 * width + 1, 64);
    Pow2Of64();
  }

  class BitStreamEncoder {
    var buffer: seq<Byte>
    var currentByte: Byte
    var bitPosition: nat
    const bitOrder: BitOrder

    ghost predicate Valid()
      reads this
    {
      CleanTail(bitOrder, currentByte, bitPosition)
    }

    /** Every bit written so far, in order. */
    ghost function Stream(): seq<bool>
      reads this
      requires Valid()
    {
      StreamOf(bitOrder, buffer, currentByte, bitPosition)
    }

    constructor (bitOrder: BitOrder)
      ensures Valid() && Stream() == [] && this.bitOrder == bitOrder
    {
      this.bitOrder := bitOrder;
      buffer, currentByte, bitPosition := [], 0, 0;
      new;
      forall j: nat ensures !Bit(0, j) { BitZero(j); }
    }

    method Clear()
      modifies this
      ensures Valid() && Stream() == []
    {
      buffer, currentByte, bitPosition := [], 0, 0;
      forall j: nat ensures !Bit(0, j) { BitZero(j); }
    }

    method FlushByte()
      requires bitPosition <= 8
      modifies this
      ensures Valid() && buffer == old(buffer) + [old(currentByte)] && bitPosition == 0
      ensures Stream() == Pack(bitOrder, old(buffer)) + ByteBits(bitOrder, old(currentByte))
      ensures Stream() == Pack(bitOrder, buffer)
    {
      buffer := buffer + [currentByte];
      currentByte, bitPosition := 0, 0;
      forall j: nat ensures !Bit(0, j) { BitZero(j); }
      PackConcat(bitOrder, old(buffer), [old(currentByte)]);
      PackOne(bitOrder, old(currentByte));
    }

    /** The bits of a value merged into the partial byte, which is pushed once it is full. */
    method MergeBits(value: nat, numBits: nat, shift: nat)
      requires Valid() && bitPosition + numBits <= 8 && value < Pow2(numBits)
      requires shift == if bitOrder.MsbFirst? then 8 - bitPosition - numBits else bitPosition
      modifies this
      ensures Valid() && Stream() == old(Stream()) + Field(bitOrder, value, numBits)
    {
      MergeField(bitOrder, currentByte, bitPosition, value, numBits, shift);
      ghost var written := ByteBits(bitOrder, currentByte)[..bitPosition];
      currentByte := Or(currentByte, Shl(value, shift));
      bitPosition := bitPosition + numBits;
      assert Pack(bitOrder, buffer) + ByteBits(bitOrder, currentByte)[..bitPosition]
          == (Pack(bitOrder, buffer) + written) + Field(bitOrder, value, numBits);
      if bitPosition == 8 {
        FlushByte();
      }
    }

    method WriteSingleBit(bit: nat)
      requires Valid()
      modifies this
      ensures Valid() && Stream() == old(Stream()) + [bit != 0]
    {
      var bitIndex := match bitOrder case MsbFirst => 7 - bitPosition case LsbFirst => bitPosition;
      assert Pow2(1) == 2 && Bit(1, 0) && !Bit(0, 0);
      if bit != 0 {
        MergeBits(1, 1, bitIndex);
      } else {
        MergeField(bitOrder, currentByte, bitPosition, 0, 1, bitIndex);
        MergeNothing(currentByte, bitIndex);
        MergeBits(0, 1, bitIndex);
      }
    }

    /** The bit-serial form of `write_bits`. */
    method WriteBitsSerial(value: U64, numBits: nat)
      requires Valid() && 1 <= numBits <= 64
      modifies this
      ensures Valid() && Stream() == old(Stream()) + Field(bitOrder, value, numBits)
    {
      ghost var field := Field(bitOrder, value, numBits);
      for i := 0 to numBits
        invariant Valid() && Stream() == old(Stream()) + field[..i]
      {
        var bitIndex := match bitOrder case MsbFirst => numBits - 1 - i case LsbFirst => i;
        BitShr(value, bitIndex, 0);
        var bit := Shr(value, bitIndex) % 2;
        assert field[..i + 1] == field[..i] + [bit != 0];
        WriteSingleBit(bit);
      }
      assert field[..numBits] == field;
    }

    /** Widths 0 and above 64 write nothing; any other width appends the masked value as a field. */
    method WriteBits(value: U64, numBits: Byte)
      requires Valid()
      modifies this
      ensures Valid()
      ensures Stream() == if 1 <= numBits <= 64 then old(Stream()) + Field(bitOrder, value, numBits)
                          else old(Stream())
    {
      if numBits == 0 || numBits > 64 {
        return;
      }
      var masked := Low(value, numBits);
      LowFitsU64(value, numBits);
      FieldOfLow(bitOrder, value, numBits);
      if bitOrder == MsbFirst && numBits <= 8 {
        var bitsAvailable := 8 - bitPosition;
        if numBits <= bitsAvailable {
          var shift := bitsAvailable - numBits;
          FastPathMask(value, numBits);
          MergeBits(Low(masked % 256, numBits), numBits, shift);
          return;
        }
      }
      WriteBitsSerial(masked, numBits);
    }

    method WriteUint8(value: Byte)
      requires Valid()
      modifies this
      ensures Valid() && Stream() == PutBytes(bitOrder, old(Stream()), [value])
      ensures |old(Stream())| % 8 == 0 ==> Stream() == old(Stream()) + Field(bitOrder, value, 8)
      ensures |old(Stream())| % 8 != 0 ==> Stream() == old(Stream()) + Field(LsbFirst, value, 8)
    {
      PackOne(bitOrder, value);
      if bitPosition == 0 {
        AlignedExtend(bitOrder, buffer, currentByte, [value]);
        buffer := buffer + [value];
      } else {
        PackOne(LsbFirst, value);
        assert Effective(bitOrder, |Stream()|) == LsbFirst;
        WriteUnaligned(value);
      }
    }

    /** A byte written bit by bit, least significant first whatever the bit order. */
    method WriteUnaligned(value: Byte)
      requires Valid()
      modifies this
      ensures Valid() && Stream() == old(Stream()) + ByteBits(LsbFirst, value)
    {
      ghost var field := ByteBits(LsbFirst, value);
      for i := 0 to 8
        invariant Valid() && Stream() == old(Stream()) + field[..i]
      {
        BitShr(value, i, 0);
        var bit := Shr(value, i) % 2;
        assert field[..i + 1] == field[..i] + [bit != 0];
        WriteSingleBit(bit);
      }
      assert field[..8] == field;
    }

    /** `extend_from_slice` on a byte boundary. */
    method ExtendAligned(bytes: seq<Byte>)
      requires Valid() && bitPosition == 0
      modifies this
      ensures Valid() && bitPosition == 0 && Stream() == PutBytes(bitOrder, old(Stream()), bytes)
    {
      AlignedExtend(bitOrder, buffer, currentByte, bytes);
      buffer := buffer + bytes;
    }

    /** Bytes written one after another. */
    method WriteEach(bytes: seq<Byte>)
      requires Valid()
      modifies this
      ensures Valid() && Stream() == PutBytes(bitOrder, old(Stream()), bytes)
    {
      PutNothing(bitOrder, Stream());
      for i := 0 to |bytes|
        invariant Valid() && Stream() == PutBytes(bitOrder, old(Stream()), bytes[..i])
      {
        PutBytesConcat(bitOrder, old(Stream()), bytes[..i], [bytes[i]]);
        assert bytes[..i + 1] == bytes[..i] + [bytes[i]];
        WriteUint8(bytes[i]);
      }
      assert bytes[..|bytes|] == bytes;
    }

    method WriteUint16(value: U16, endianness: Endianness)
      requires Valid()
      modifies this
      ensures Valid() && Stream() == PutBytes(bitOrder, old(Stream()), IntBytes(endianness, value, 2))
    {
      if bitPosition == 0 {
        ExtendAligned(IntBytes(endianness, value, 2));
        return;
      }
      ghost var bs := IntBytes(endianness, value, 2);
      IntBytes2(endianness, value);
      PutBytesConcat(bitOrder, Stream(), [bs[0]], [bs[1]]);
      assert [bs[0]] + [bs[1]] == bs;
      match endianness {
        case BigEndian =>
          WriteUint8(value / 0x100);
          WriteUint8(value % 0x100);
        case LittleEndian =>
          WriteUint8(value % 0x100);
          WriteUint8(value / 0x100);
      }
    }

    method WriteUint32(value: U32, endianness: Endianness)
      requires Valid()
      modifies this
      ensures Valid() && Stream() == PutBytes(bitOrder, old(Stream()), IntBytes(endianness, value, 4))
    {
      if bitPosition == 0 {
        ExtendAligned(IntBytes(endianness, value, 4));
        return;
      }
      ghost var bs := IntBytes(endianness, value, 4);
      IntBytes4(endianness, value);
      match endianness {
        case BigEndian =>
          WriteUint8(value / 0x100_0000);
          WriteUint8(value / 0x1_0000 % 0x100);
          WriteUint8(value / 0x100 % 0x100);
          WriteUint8(value % 0x100);
        case LittleEndian =>
          WriteUint8(value % 0x100);
          WriteUint8(value / 0x100 % 0x100);
          WriteUint8(value / 0x1_0000 % 0x100);
          WriteUint8(value / 0x100_0000);
      }
      PutFour(bitOrder, old(Stream()), bs[0], bs[1], bs[2], bs[3]);
    }

    method WriteUint64(value: U64, endianness: Endianness)
      requires Valid()
      modifies this
      ensures Valid() && Stream() == PutBytes(bitOrder, old(Stream()), IntBytes(endianness, value, 8))
    {
      if bitPosition == 0 {
        ExtendAligned(IntBytes(endianness, value, 8));
        return;
      }
      IntBytes8(endianness, value);
      var high, low := value / TWO_TO_32, value % TWO_TO_32;
      match endianness {
        case BigEndian =>
          PutBytesConcat(bitOrder, Stream(), IntBytes(endianness, high, 4), IntBytes(endianness, low, 4));
          WriteUint32(high, endianness);
          WriteUint32(low, endianness);
        case LittleEndian =>
          PutBytesConcat(bitOrder, Stream(), IntBytes(endianness, low, 4), IntBytes(endianness, high, 4));
          WriteUint32(low, endianness);
          WriteUint32(high, endianness);
      }
    }

    // ---------- fast paths for a stream known to be byte-aligned ----------

    method WriteByte(value: Byte)
      requires Valid() && bitPosition == 0
      modifies this
      ensures Valid() && bitPosition == 0 && Stream() == PutBytes(bitOrder, old(Stream()), [value])
    {
      AlignedExtend(bitOrder, buffer, currentByte, [value]);
      buffer := buffer + [value];
    }

    /** `write_u16_le` to `write_u64_be`: k bytes in the given endianness, without looking at the position. */
    method WriteAligned(value: U64, k: nat, endianness: Endianness)
      requires Valid() && bitPosition == 0
      requires k in {2, 4, 8} && value < Pow2(8 * k)
      modifies this
      ensures Valid() && bitPosition == 0
      ensures Stream() == PutBytes(bitOrder, old(Stream()), IntBytes(endianness, value, k))
    {
      ExtendAligned(IntBytes(endianness, value, k));
    }

    // ---------- variable-length integers ----------

    method WriteVarlengthLeb128(value: U64)
      requires Valid()
      modifies this
      ensures Valid() && Stream() == PutBytes(bitOrder, old(Stream()), LebBytes(value))
    {
      hide Pack, StreamOf;
      var val := value;
      var more := true;
      ghost var done: seq<Byte> := [];
      PutNothing(bitOrder, Stream());
      while more
        invariant Valid() && Stream() == PutBytes(bitOrder, old(Stream()), done)
        invariant LebBytes(value) == if more then done + LebBytes(val) else done
        decreases more, val
      {
        var byte: Byte := val % 128;
        val := val / 128;
        if val != 0 {
          byte := byte + 0x80;
        }
        more := val != 0;
        if more { Sequences.Associative(done, [byte], LebBytes(val)); }
        PutBytesConcat(bitOrder, old(Stream()), done, [byte]);
        WriteUint8(byte);
        done := done + [byte];
      }
    }

    method WriteVarlengthZigzag(value: I64)
      requires Valid()
      modifies this
      ensures Valid() && Stream() == PutBytes(bitOrder, old(Stream()), LebBytes(ZigZag(value)))
    {
      WriteVarlengthLeb128(ZigZag(value));
    }

    method WriteVarlengthSleb128(value: I64)
      requires Valid()
      modifies this
      ensures Valid() && Stream() == PutBytes(bitOrder, old(Stream()), SlebBytes(value))
    {
      hide Pack, StreamOf, SlebBytes;
      var val: int := value;
      var more := true;
      ghost var done: seq<Byte> := [];
      PutNothing(bitOrder, Stream());
      while more
        invariant Valid() && Stream() == PutBytes(bitOrder, old(Stream()), done)
        invariant SlebBytes(value) == if more then done + SlebBytes(val) else done
        decreases more, if val < 0 then -val else val
      {
        SlebBytesStep(val);
        var byte: Byte := val % 128;
        val := val / 128;
        var signBitSet := byte >= 0x40;
        more := !((val == 0 && !signBitSet) || (val == -1 && signBitSet));
        if more {
          byte := byte + 0x80;
          Sequences.Associative(done, [byte], SlebBytes(val));
        }
        PutBytesConcat(bitOrder, old(Stream()), done, [byte]);
        WriteUint8(byte);
        done := done + [byte];
      }
    }

    method WriteVarlengthDer(value: U64)
      requires Valid()
      modifies this
      ensures Valid() && Stream() == PutBytes(bitOrder, old(Stream()), DerBytes(value))
    {
      if value < 128 {
        WriteUint8(value);
        return;
      }
      var numBytes: nat := 0;
      var temp: nat := value;
      while temp > 0
        invariant |BeTrimmed(value)| == numBytes + |BeTrimmed(temp)|
        invariant unchanged(this)
      {
        numBytes := numBytes + 1;
        temp := temp / 256;
      }
      BeTrimmedLength(value, 8);
      Pow2Of64();
      WriteUint8(0x80 + numBytes);
      BeTrimmedIsBe(value);
      PutBytesConcat(bitOrder, old(Stream()), [0x80 + numBytes], BeTrimmed(value));
      WriteBigEndian(value, numBytes);
    }

    /** `for i in (0..n).rev() { write_uint8((value >> (i * 8)) as u8) }`. */
    method WriteBigEndian(value: U64, n: nat)
      requires Valid() && n <= 8
      modifies this
      ensures Valid() && Stream() == PutBytes(bitOrder, old(Stream()), BeBytes(value, n))
    {
      var i := n;
      ghost var done: seq<Byte> := [];
      PutNothing(bitOrder, Stream());
      while i > 0
        invariant 0 <= i <= n && BeBytes(value, n) == done + BeBytes(value, i)
        invariant Valid() && Stream() == PutBytes(bitOrder, old(Stream()), done)
      {
        i := i - 1;
        var byte: Byte := Shr(value, i * 8) % 256;
        BeBytesSplit(value, i + 1);
        Sequences.Associative(done, [byte], BeBytes(value, i));
        PutBytesConcat(bitOrder, old(Stream()), done, [byte]);
        WriteUint8(byte);
        done := done + [byte];
      }
      assert done == BeBytes(value, n);
    }

    /** Fails, writing nothing, exactly above 2^56 - 2. */
    method WriteVarlengthEbml(value: U64) returns (r: Result<()>)
      requires Valid()
      modifies this
      ensures Valid()
      ensures match EbmlEncode(value)
        case Ok(bs) => r == Ok(()) && Stream() == PutBytes(bitOrder, old(Stream()), bs)
        case Err(e) => r == Err(e) && Stream() == old(Stream())
    {
      hide Pack, StreamOf, Or, Shl, Pow2, BeBytes;
      var width := 1;
      var maxVal := Pow2(7) - 2;
      while value > maxVal && width < 8
        invariant 1 <= width <= 8 && maxVal == Pow2(7 * width) - 2
        invariant EbmlWidth(value, 1) == EbmlWidth(value, width)
        invariant unchanged(this)
        decreases 8 - width
      {
        width := width + 1;
        maxVal := Pow2(width * 7) - 2;
      }
      if value > maxVal {
        return Err(InvalidEncoding);
      }
      var encoded := Or(Shl(1, width * 7), value);
      EbmlMarker(value, width);
      WriteBigEndian(encoded, width);
      r := Ok(());
    }

    method WriteVarlengthVlq(value: U64) returns (r: Result<()>)
      requires Valid()
      modifies this
      ensures Valid()
      ensures match VlqEncode(value)
        case Ok(bs) => r == Ok(()) && Stream() == PutBytes(bitOrder, old(Stream()), bs)
        case Err(e) => r == Err(e) && Stream() == old(Stream())
    {
      if value > 0x0FFF_FFFF {
        return Err(InvalidEncoding);
      }
      var bytes: seq<Byte> := [value % 128];
      var remaining: nat := value / 128;
      while remaining > 0
        invariant VlqBytes(value) == VlqPrefix(remaining) + Reverse(bytes)
        invariant unchanged(this)
      {
        ReverseSnoc(bytes, remaining % 128 + 0x80);
        bytes := bytes + [remaining % 128 + 0x80];
        remaining := remaining / 128;
      }
      assert VlqBytes(value) == [] + Reverse(bytes) == Reverse(bytes);
      assert VlqEncode(value) == Ok(Reverse(bytes));
      assert Stream() == old(Stream());
      WriteEach(Reverse(bytes));
      assert Stream() == PutBytes(bitOrder, old(Stream()), Reverse(bytes));
      r := Ok(());
    }

    /** Complete bytes; a partial byte is padded with zero bits. */
    method Finish() returns (bytes: seq<Byte>)
      requires Valid()
      modifies this
      ensures Pack(bitOrder, bytes) == Padded(old(Stream()))
    {
      PaddedStream(bitOrder, buffer, currentByte, bitPosition);
      if bitPosition > 0 {
        FlushByte();
      }
      bytes := buffer;
    }
  }

  // ---------- bytes of a wide integer, one shift at a time ----------

  lemma IntBytes2(e: Endianness, v: U16)
    ensures IntBytes(e, v, 2) == if e.BigEndian? then [v / 0x100, v % 0x100] else [v % 0x100, v / 0x100]
  {
    assert BeBytes(v, 2) == BeBytes(v / 256, 1) + [v % 256];
    assert BeBytes(v / 256, 1) == [v / 256 % 256];
    assert LeBytes(v / 256, 1) == [v / 256 % 256];
  }

  lemma IntBytes4(e: Endianness, v: U32)
    ensures IntBytes(e, v, 4)
         == var bs: seq<Byte> := [v / 0x100_0000, v / 0x1_0000 % 0x100, v / 0x100 % 0x100, v % 0x100];
            if e.BigEndian? then bs else [bs[3], bs[2], bs[1], bs[0]]
  {
    var high, low := v / 0x1_0000, v % 0x1_0000;
    IntBytes2(e, high);
    assert v / 256 / 256 == high;
    match e
    case BigEndian =>
      assert BeBytes(v, 4) == (BeBytes(high, 2) + [v / 256 % 256]) + [v % 256];
    case LittleEndian =>
      assert LeBytes(v, 4) == [v % 256] + ([v / 256 % 256] + LeBytes(high, 2));
  }

  lemma ShrNothing(v: nat)
    ensures Shr(v, 0) == v
  {
  }

  lemma {:induction false} BeBytesConcat(v: nat, a: nat, b: nat)
    ensures BeBytes(v, a + b) == BeBytes(Shr(v, 8 * b), a) + BeBytes(v, b)
    decreases b
  {
    hide Shr;
    if b == 0 {
      assert Shr(v, 8 * 0) == v by { ShrNothing(v); }
    } else {
      ShrByte(v, 8 * (b - 1));
      BeBytesConcat(v / 256, a, b - 1);
      Sequences.Associative(BeBytes(Shr(v, 8 * b), a), BeBytes(v / 256, b - 1), [v % 256]);
    }
  }

  lemma {:induction false} LeBytesConcat(v: nat, a: nat, b: nat)
    ensures LeBytes(v, b + a) == LeBytes(v, b) + LeBytes(Shr(v, 8 * b), a)
    decreases b
  {
    hide Shr;
    if b == 0 {
      assert Shr(v, 8 * 0) == v by { ShrNothing(v); }
    } else {
      ShrByte(v, 8 * (b - 1));
      LeBytesConcat(v / 256, a, b - 1);
      Sequences.Associative([v % 256], LeBytes(v / 256, b - 1), LeBytes(Shr(v, 8 * b), a));
    }
  }

  lemma {:induction false} LowBytes(v: nat, n: nat, k: nat)
    requires 8 * k <= n
    ensures BeBytes(Low(v, n), k) == BeBytes(v, k) && LeBytes(Low(v, n), k) == LeBytes(v, k)
    decreases k
  {
    if k > 0 {
      LowByte(v, n - 8);
      LowBytes(v / 256, n - 8, k - 1);
    }
  }

  lemma LowByte(v: nat, n: nat)
    ensures Low(v, n + 8) % 256 == v % 256 && Low(v, n + 8) / 256 == Low(v / 256, n)
  {
    hide Low;
    LowFour(v, n + 4);
    LowFour(v / 16, n);
    assert v / 16 / 16 == v / 256;
    JoinNibbles(v, Low(v, n + 8), Low(v / 16, n + 4), Low(v / 256, n));
  }

  lemma JoinNibbles(v: nat, x: nat, y: nat, z: nat)
    requires x == v % 16 + 16 * y && y == v / 16 % 16 + 16 * z
    ensures x % 256 == v % 256 && x / 256 == z
  {
  }

  lemma SlebBytesStep(v: int)
    ensures SlebBytes(v) == if SlebLast(v) then [v % 128] else [v % 128 + 128] + SlebBytes(v / 128)
    ensures !SlebLast(v) ==> (if v / 128 < 0 then -(v / 128) else v / 128) < (if v < 0 then -v else v)
  {
  }

  lemma LowFour(v: nat, n: nat)
    ensures Low(v, n + 4) == v % 16 + 16 * Low(v / 16, n)
  {
    hide Low;
    LowTwo(v, n + 2);
    LowTwo(v / 4, n);
    FourBits(v);
  }

  lemma FourBits(v: nat)
    ensures v / 4 / 4 == v / 16 && v % 16 == v % 4 + 4 * (v / 4 % 4)
  {
  }

  lemma LowTwo(v: nat, n: nat)
    ensures Low(v, n + 2) == v % 4 + 4 * Low(v / 4, n)
  {
    assert Low(v, n + 2) == v % 2 + 2 * Low(v / 2, n + 1);
  }

  lemma {:induction false} ShrLow(v: nat, k: nat)
    ensures v == Shl(Shr(v, k), k) + Low(v, k)
  {
    if k > 0 { ShrLow(v / 2, k - 1); }
  }

  lemma HalvesOfU64(v: U64)
    ensures Shr(v, 32) == v / TWO_TO_32 && Low(v, 32) == v % TWO_TO_32
  {
    ShrLow(v, 32);
    LowBound(v, 32);
    Pow2Of32();
    ShlIsTimes(Shr(v, 32), 32);
  }

  lemma IntBytes8(e: Endianness, v: U64)
    ensures IntBytes(e, v, 8)
         == if e.BigEndian? then IntBytes(e, v / TWO_TO_32, 4) + IntBytes(e, v % TWO_TO_32, 4)
            else IntBytes(e, v % TWO_TO_32, 4) + IntBytes(e, v / TWO_TO_32, 4)
  {
    HalvesOfU64(v);
    BeBytesConcat(v, 4, 4);
    LeBytesConcat(v, 4, 4);
    LowBytes(v, 32, 4);
  }

  lemma PutFour(order: BitOrder, s: seq<bool>, a: Byte, b: Byte, c: Byte, d: Byte)
    ensures PutBytes(order, PutBytes(order, PutBytes(order, PutBytes(order, s, [a]), [b]), [c]), [d])
         == PutBytes(order, s, [a, b, c, d])
  {
    PutBytesConcat(order, s, [a], [b]);
    PutBytesConcat(order, s, [a, b], [c]);
    PutBytesConcat(order, s, [a, b, c], [d]);
    assert [a] + [b] == [a, b] && [a, b] + [c] == [a, b, c] && [a, b, c] + [d] == [a, b, c, d];
  }

  lemma {:induction false} BeTrimmedIsBe(v: nat)
    ensures BeTrimmed(v) == BeBytes(v, |BeTrimmed(v)|)
  {
    if v > 0 { BeTrimmedIsBe(v / 256); }
  }

  function Reverse(bs: seq<Byte>): (r: seq<Byte>)
    ensures |r| == |bs|
  {
    seq(|bs|, i requires 0 <= i < |bs| => bs[|bs| - 1 - i])
  }

  lemma ReverseSnoc(bs: seq<Byte>, b: Byte)
    ensures Reverse(bs + [b]) == [b] + Reverse(bs)
  {
  }

  lemma FieldOfLow(order: BitOrder, v: nat, n: nat)
    ensures Field(order, Low(v, n), n) == Field(order, v, n)
  {
    forall j: nat ensures Bit(Low(v, n), j) == (j < n && Bit(v, j)) { BitLow(v, n, j); }
  }

  lemma LowFitsU64(v: nat, n: nat)
    requires n <= 64
    ensures Low(v, n) < TWO_TO_64
  {
    LowBound(v, n);
    Pow2Monotone(n, 64);
    Pow2Of64();
  }

  lemma PaddedStream(order: BitOrder, buffer: seq<Byte>, c: Byte, p: nat)
    requires CleanTail(order, c, p)
    ensures Padded(StreamOf(order, buffer, c, p))
         == if p == 0 then Pack(order, buffer) else Pack(order, buffer + [c])
  {
    var whole, bits := Pack(order, buffer), ByteBits(order, c);
    PackConcat(order, buffer, [c]);
    PackOne(order, c);
    PadWhole(whole, bits, p);
  }

  lemma PadWhole(whole: seq<bool>, bits: seq<bool>, p: nat)
    requires |whole| % 8 == 0 && |bits| == 8 && p < 8
    requires forall i :: p <= i < 8 ==> !bits[i]
    ensures Padded(whole + bits[..p]) == if p == 0 then whole else whole + bits
  {
    assert |whole + bits[..p]| % 8 == p;
    assert p > 0 ==> bits[p..] == seq(8 - p, _ => false);
    assert whole + bits == (whole + bits[..p]) + bits[p..];
  }

  lemma MergeNothing(c: Byte, k: nat)
    ensures Or(c, Shl(0, k)) == c
  {
    ShlIsTimes(0, k);
    OrZero(c);
  }
}
