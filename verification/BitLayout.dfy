/** The layout of words on the bit stream: what `bitstream.rs` promises about which bit goes where.

    A stream is the sequence of its bits in transmission order.  `Field` lays out a bit field,
    `ByteBits` a byte, `Pack` a run of bytes; `FromField` and `Unpack` read them back. */
module BitLayout {
  import opened Words
  import Sequences

  datatype BitOrder = MsbFirst | LsbFirst
  datatype Endianness = BigEndian | LittleEndian

  /** The n low digits of v in stream order. */
  function Field(order: BitOrder, v: nat, n: nat): (bits: seq<bool>)
    ensures |bits| == n
  {
    match order
    case MsbFirst => seq(n, i requires 0 <= i < n => Bit(v, n - 1 - i))
    case LsbFirst => seq(n, i requires 0 <= i < n => Bit(v, i))
  }

  function ByteBits(order: BitOrder, b: Byte): (bits: seq<bool>)
    ensures |bits| == 8
  {
    Field(order, b, 8)
  }

  /** The word whose first stream bit is its most (least) significant digit. */
  function FromField(order: BitOrder, bits: seq<bool>): nat {
    if bits == [] then 0
    else match order
      case MsbFirst => 2 * FromField(order, bits[..|bits| - 1]) + Digit(bits[|bits| - 1])
      case LsbFirst => Digit(bits[0]) + 2 * FromField(order, bits[1..])
  }

  function Pack(order: BitOrder, bs: seq<Byte>): (bits: seq<bool>)
    ensures |bits| == 8 * |bs|
  {
    if bs == [] then [] else Pack(order, bs[..|bs| - 1]) + ByteBits(order, bs[|bs| - 1])
  }

  /** The whole bytes that can be read from the front of `bits`. */
  function Unpack(order: BitOrder, bits: seq<bool>): (bs: seq<Byte>)
    ensures |bs| == |bits| / 8
  {
    seq(|bits| / 8, k requires 0 <= k < |bits| / 8 => ByteAt(order, bits, k))
  }

  function ByteAt(order: BitOrder, bits: seq<bool>, k: nat): Byte
    requires 8 * k + 8 <= |bits|
  {
    FieldBound(order, bits[8 * k..8 * k + 8]);
    assert Pow2(8) == 256;
    FromField(order, bits[8 * k..8 * k + 8])
  }

  // ---------- fields ----------

  /** The position, within a field of n digits, that carries digit j. */
  function Slot(order: BitOrder, n: nat, j: nat): nat
    requires j < n
  {
    if order.MsbFirst? then n - 1 - j else j
  }

  lemma {:induction false} BitOfField(order: BitOrder, bits: seq<bool>, j: nat)
    ensures Bit(FromField(order, bits), j)
         == (j < |bits| && bits[if order.MsbFirst? then |bits| - 1 - j else j])
  {
    if bits == [] {
      BitZero(j);
    } else if j > 0 {
      match order
      case MsbFirst =>
        var rest := bits[..|bits| - 1];
        assert FromField(order, bits) / 2 == FromField(order, rest);
        BitOfField(order, rest, j - 1);
      case LsbFirst =>
        assert FromField(order, bits) / 2 == FromField(order, bits[1..]);
        BitOfField(order, bits[1..], j - 1);
    } else {
      assert FromField(order, bits) % 2 == Digit(bits[Slot(order, |bits|, 0)]);
    }
  }

  lemma FieldBound(order: BitOrder, bits: seq<bool>)
    ensures FromField(order, bits) < Pow2(|bits|)
  {
    forall j: nat | j >= |bits|
      ensures !Bit(FromField(order, bits), j)
    {
      BitOfField(order, bits, j);
    }
    BoundedByDigits(FromField(order, bits), |bits|);
  }

  /** Reading back a field gives the value masked to the width of the field. */
  lemma FieldRoundTrip(order: BitOrder, v: nat, n: nat)
    ensures FromField(order, Field(order, v, n)) == Low(v, n)
  {
    forall j: nat
      ensures Bit(FromField(order, Field(order, v, n)), j) == Bit(Low(v, n), j)
    {
      BitOfField(order, Field(order, v, n), j);
      BitLow(v, n, j);
    }
    SameDigits(FromField(order, Field(order, v, n)), Low(v, n));
  }

  /** Every sequence of n bits is the layout of the number it denotes. */
  lemma FieldOfFromField(order: BitOrder, bits: seq<bool>)
    ensures Field(order, FromField(order, bits), |bits|) == bits
  {
    forall i | 0 <= i < |bits|
      ensures Field(order, FromField(order, bits), |bits|)[i] == bits[i]
    {
      BitOfField(order, bits, Slot(order, |bits|, i));
    }
  }

  // ---------- runs of bytes ----------

  lemma {:induction false} PackAt(order: BitOrder, bs: seq<Byte>, k: nat)
    requires k < |bs|
    ensures Pack(order, bs)[8 * k..8 * k + 8] == ByteBits(order, bs[k])
  {
    var init := bs[..|bs| - 1];
    if k < |bs| - 1 {
      PackAt(order, init, k);
      assert Pack(order, bs)[8 * k..8 * k + 8] == Pack(order, init)[8 * k..8 * k + 8];
    }
  }

  lemma {:induction false} PackConcat(order: BitOrder, a: seq<Byte>, b: seq<Byte>)
    ensures Pack(order, a + b) == Pack(order, a) + Pack(order, b)
  {
    if b == [] {
      assert a + b == a;
    } else {
      var b' := b[..|b| - 1];
      PackConcat(order, a, b');
      assert (a + b)[..|a + b| - 1] == a + b';
      assert Pack(order, a) + (Pack(order, b') + ByteBits(order, b[|b| - 1]))
          == (Pack(order, a) + Pack(order, b')) + ByteBits(order, b[|b| - 1]);
    }
  }

  lemma PackOne(order: BitOrder, b: Byte)
    ensures Pack(order, [b]) == ByteBits(order, b)
  {
    assert [b][..0] == [];
  }

  lemma ByteRoundTrip(order: BitOrder, b: Byte)
    ensures FromField(order, ByteBits(order, b)) == b
  {
    FieldRoundTrip(order, b, 8);
    assert Pow2(8) == 256;
    LowOfSmall(b, 8);
  }

  /** The bytes put on a stream are the first bytes read from it, whatever follows them. */
  lemma UnpackPack(order: BitOrder, bs: seq<Byte>, tail: seq<bool>)
    ensures |Unpack(order, Pack(order, bs) + tail)| >= |bs|
    ensures Unpack(order, Pack(order, bs) + tail)[..|bs|] == bs
  {
    var bits := Pack(order, bs) + tail;
    forall k | 0 <= k < |bs|
      ensures Unpack(order, bits)[k] == bs[k]
    {
      PackAt(order, bs, k);
      assert bits[8 * k..8 * k + 8] == Pack(order, bs)[8 * k..8 * k + 8];
      ByteRoundTrip(order, bs[k]);
    }
  }

  /** Packing the bytes that were read gives the bits they were read from. */
  lemma {:induction false} PackUnpack(order: BitOrder, bits: seq<bool>)
    requires |bits| % 8 == 0
    ensures Pack(order, Unpack(order, bits)) == bits
  {
    hide Pack, FromField;
    forall k | 0 <= k < |bits| / 8
      ensures Pack(order, Unpack(order, bits))[8 * k..8 * k + 8] == bits[8 * k..8 * k + 8]
    {
      PackAt(order, Unpack(order, bits), k);
      FieldOfFromField(order, bits[8 * k..8 * k + 8]);
    }
    SameOctets(Pack(order, Unpack(order, bits)), bits);
  }

  lemma SameOctets(a: seq<bool>, b: seq<bool>)
    requires |a| == |b| && |b| % 8 == 0
    requires forall k :: 0 <= k < |b| / 8 ==> a[8 * k..8 * k + 8] == b[8 * k..8 * k + 8]
    ensures a == b
  {
    forall i | 0 <= i < |b|
      ensures a[i] == b[i]
    {
      var k := i / 8;
      assert a[8 * k..8 * k + 8][i - 8 * k] == b[8 * k..8 * k + 8][i - 8 * k];
    }
  }

  lemma UnpackDrop(order: BitOrder, bits: seq<bool>, k: nat)
    requires 8 * k <= |bits|
    ensures Unpack(order, bits[8 * k..]) == Unpack(order, bits)[k..]
  {
    var rest := bits[8 * k..];
    forall i | 0 <= i < |rest| / 8
      ensures Unpack(order, rest)[i] == Unpack(order, bits)[k + i]
    {
      assert rest[8 * i..8 * i + 8] == bits[8 * (k + i)..8 * (k + i) + 8];
    }
  }

  // ---------- the two positions a byte can be written at ----------

  /** A byte written inside a partial byte goes LSB first, whatever the bit order of the stream. */
  function Effective(order: BitOrder, position: nat): BitOrder {
    if position % 8 == 0 then order else LsbFirst
  }

  /** The stream after writing `bs` byte by byte. */
  function PutBytes(order: BitOrder, stream: seq<bool>, bs: seq<Byte>): seq<bool> {
    stream + Pack(Effective(order, |stream|), bs)
  }

  lemma PutBytesConcat(order: BitOrder, stream: seq<bool>, a: seq<Byte>, b: seq<Byte>)
    ensures PutBytes(order, PutBytes(order, stream, a), b) == PutBytes(order, stream, a + b)
  {
    var eff := Effective(order, |stream|);
    PackConcat(eff, a, b);
    Sequences.Associative(stream, Pack(eff, a), Pack(eff, b));
  }

  lemma PutNothing(order: BitOrder, stream: seq<bool>)
    ensures PutBytes(order, stream, []) == stream
  {
  }

  /** The whole bytes that a byte reader sees from `position` on. */
  function BytesFrom(order: BitOrder, bits: seq<bool>, position: nat): (bs: seq<Byte>)
    requires position <= |bits|
    ensures |bs| == (|bits| - position) / 8
  {
    Unpack(Effective(order, position), bits[position..])
  }

  lemma BytesFromPut(order: BitOrder, stream: seq<bool>, bs: seq<Byte>, tail: seq<bool>)
    ensures |stream| + 8 * |bs| == |PutBytes(order, stream, bs)|
    ensures |BytesFrom(order, PutBytes(order, stream, bs) + tail, |stream|)| >= |bs|
    ensures BytesFrom(order, PutBytes(order, stream, bs) + tail, |stream|)[..|bs|] == bs
  {
    var eff := Effective(order, |stream|);
    assert (PutBytes(order, stream, bs) + tail)[|stream|..] == Pack(eff, bs) + tail;
    UnpackPack(eff, bs, tail);
  }

  /** Which digit of a byte each stream bit is.  Inside a partial byte the least significant digit comes first
      in both bit orders; on a boundary it does so only in an LSB-first stream. */
  lemma PutByteLayout(order: BitOrder, stream: seq<bool>, b: Byte, i: nat)
    requires i < 8
    ensures var after := PutBytes(order, stream, [b]);
      |after| == |stream| + 8 && stream <= after
      && after[|stream| + i] == (if |stream| % 8 == 0 && order.MsbFirst? then Bit(b, 7 - i) else Bit(b, i))
  {
    PackOne(Effective(order, |stream|), b);
  }

  /** The same for a byte that is read at any position. */
  lemma ReadByteLayout(order: BitOrder, bits: seq<bool>, position: nat, k: nat, i: nat)
    requires position + 8 * k + 8 <= |bits| && i < 8
    ensures Bit(BytesFrom(order, bits, position)[k], i)
         == bits[position + 8 * k + (if position % 8 == 0 && order.MsbFirst? then 7 - i else i)]
  {
    var rest := bits[position..];
    var eff := Effective(order, position);
    BitOfField(eff, rest[8 * k..8 * k + 8], i);
  }

  /** Consuming k bytes leaves the bytes after them. */
  lemma BytesFromDrop(order: BitOrder, bits: seq<bool>, position: nat, k: nat)
    requires position + 8 * k <= |bits|
    ensures BytesFrom(order, bits, position + 8 * k) == BytesFrom(order, bits, position)[k..]
  {
    assert bits[position..][8 * k..] == bits[position + 8 * k..];
    UnpackDrop(Effective(order, position), bits[position..], k);
  }

  /** The stream as whole bytes carry it: zero bits up to the next byte boundary. */
  function Padded(stream: seq<bool>): (bits: seq<bool>)
    ensures |bits| % 8 == 0 && 0 <= |bits| - |stream| < 8 && stream <= bits
    ensures forall i :: |stream| <= i < |bits| ==> !bits[i]
  {
    stream + seq((8 - |stream| % 8) % 8, _ => false)
  }
}
