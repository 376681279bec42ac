/** Programs of writes and the reads that match them: the wire codec loses nothing. */
module WireProgram {
  import opened Words
  import opened BitLayout
  import opened Varint
  import opened BitStreamEncoding
  import opened BitStreamDecoding

  datatype VarKind = Leb128 | Der | Ebml | Vlq | ZigZag128 | Sleb128

  /** What one read asks for. */
  datatype Shape =
    | BitField(width: Byte)
    | Fixed(size: nat, endianness: Endianness)
    | Variable(kind: VarKind)

  /** One write: a shape and the value written. */
  datatype Write = Write(shape: Shape, value: int)

  /** The value has the type of the method's argument. */
  predicate Typed(w: Write) {
    match w.shape
    case BitField(_) => 0 <= w.value < TWO_TO_64
    case Fixed(size, _) => size in {1, 2, 4, 8} && 0 <= w.value < Pow2(8 * size)
    case Variable(kind) =>
      if kind.ZigZag128? || kind.Sleb128? then -TWO_TO_63 <= w.value < TWO_TO_63
      else 0 <= w.value < TWO_TO_64
  }

  /** The values a write can be undone for. */
  predicate InRange(w: Write) {
    Typed(w) &&
    match w.shape
    case BitField(width) => 1 <= width <= 64
    case Fixed(_, _) => true
    case Variable(Leb128) => w.value < TWO_TO_63
    case Variable(Der) => true
    case Variable(Ebml) => w.value <= Pow2(56) - 2
    case Variable(Vlq) => w.value <= 0x0FFF_FFFF
    case Variable(ZigZag128) => -TWO_TO_63 / 2 <= w.value < TWO_TO_63 / 2
    case Variable(Sleb128) => true
  }

  function Encode(w: Write): Result<seq<Byte>>
    requires Typed(w) && !w.shape.BitField?
  {
    match w.shape
    case Fixed(size, e) => Ok(IntBytes(e, w.value, size))
    case Variable(Leb128) => Ok(LebBytes(w.value))
    case Variable(Der) => Ok(DerBytes(w.value))
    case Variable(Ebml) => EbmlEncode(w.value)
    case Variable(Vlq) => VlqEncode(w.value)
    case Variable(ZigZag128) => Ok(LebBytes(ZigZag(w.value)))
    case Variable(Sleb128) => Ok(SlebBytes(w.value))
  }

  function Decode(shape: Shape, bs: seq<Byte>): Result<Parsed>
    requires !shape.BitField?
  {
    match shape
    case Fixed(size, e) => ReadInt(e, size, bs)
    case Variable(Leb128) => LebDecode(bs)
    case Variable(Der) => DerDecode(bs)
    case Variable(Ebml) => EbmlDecode(bs)
    case Variable(Vlq) => VlqDecode(bs)
    case Variable(ZigZag128) => ZigZagDecode(bs)
    case Variable(Sleb128) => SlebDecode(bs)
  }

  /** The stream after a write; a write that fails or is ignored leaves it alone. */
  function Put(order: BitOrder, stream: seq<bool>, w: Write): seq<bool>
    requires Typed(w)
  {
    match w.shape
    case BitField(width) => if 1 <= width <= 64 then stream + Field(order, w.value, width) else stream
    case _ =>
      match Encode(w)
      case Ok(bs) => PutBytes(order, stream, bs)
      case Err(_) => stream
  }

  /** The value and the new position of a read at `position`. */
  function Get(order: BitOrder, bits: seq<bool>, position: nat, shape: Shape): Result<(int, nat)>
    requires position <= |bits|
  {
    match shape
    case BitField(width) =>
      if !(1 <= width <= 64) then Err(InvalidValue)
      else if position + width > |bits| then Err(UnexpectedEof)
      else Ok((FromField(order, bits[position..position + width]), position + width))
    case _ =>
      match Decode(shape, BytesFrom(order, bits, position))
      case Ok(p) => Ok((p.value, position + 8 * p.used))
      case Err(e) => Err(e)
  }

  /** What the matching read must return: bit fields come back masked to their width. */
  function Expected(w: Write): int
    requires Typed(w)
  {
    match w.shape
    case BitField(width) => Low(w.value, width)
    case _ => w.value
  }

  lemma DecodeEncode(w: Write, tail: seq<Byte>)
    requires InRange(w) && !w.shape.BitField?
    ensures Encode(w).Ok?
    ensures Decode(w.shape, Encode(w).value + tail) == Ok(Parsed(w.value, |Encode(w).value|))
  {
    match w.shape
    case Fixed(size, e) => IntRoundTrip(e, w.value, size, IntBytes(e, w.value, size) + tail);
    case Variable(Leb128) => LebRoundTrip(w.value, tail);
    case Variable(Der) => DerRoundTrip(w.value, tail);
    case Variable(Ebml) => EbmlRoundTrip(w.value, tail);
    case Variable(Vlq) => VlqRoundTrip(w.value, tail);
    case Variable(ZigZag128) => ZigZagRoundTrip(w.value, tail);
    case Variable(Sleb128) => SlebRoundTrip(w.value, tail);
  }

  lemma OneRoundTrip(order: BitOrder, stream: seq<bool>, w: Write, tail: seq<bool>)
    requires InRange(w)
    ensures |stream| <= |Put(order, stream, w)|
    ensures Get(order, Put(order, stream, w) + tail, |stream|, w.shape)
         == Ok((Expected(w), |Put(order, stream, w)|))
  {
    hide Encode, Decode, PutBytes, BytesFrom, FromField, Field;
    match w.shape
    case BitField(width) =>
      var bits := Put(order, stream, w) + tail;
      assert bits[|stream|..|stream| + width] == Field(order, w.value, width);
      FieldRoundTrip(order, w.value, width);
    case _ =>
      DecodeEncode(w, []);
      var seen := SeenBytes(order, stream, Encode(w).value, tail);
      DecodeEncode(w, seen);
  }

  /** What the byte reader sees after the bytes of a write: those bytes, then something. */
  lemma SeenBytes(order: BitOrder, stream: seq<bool>, bs: seq<Byte>, tail: seq<bool>) returns (more: seq<Byte>)
    ensures BytesFrom(order, PutBytes(order, stream, bs) + tail, |stream|) == bs + more
    ensures |PutBytes(order, stream, bs)| == |stream| + 8 * |bs|
  {
    BytesFromPut(order, stream, bs, tail);
    var seen := BytesFrom(order, PutBytes(order, stream, bs) + tail, |stream|);
    more := seen[|bs|..];
    assert seen == seen[..|bs|] + more;
  }

  /** The range is exact: outside it no stream, alignment or tail makes the matching read succeed
      with the written value. */
  lemma RoundTripExactly(order: BitOrder, stream: seq<bool>, w: Write, tail: seq<bool>)
    requires Typed(w)
    ensures InRange(w) <==>
      (w.shape.BitField? || Encode(w).Ok?)
      && Get(order, Put(order, stream, w) + tail, |stream|, w.shape) == Ok((Expected(w), |Put(order, stream, w)|))
  {
    if InRange(w) {
      OneRoundTrip(order, stream, w, tail);
      if !w.shape.BitField? { DecodeEncode(w, []); }
    } else if w.shape.Variable? {
      if w.shape.kind.Ebml? {
        EbmlWidthExact(w.value);
      } else if w.shape.kind.Leb128? {
        var more := SeenBytes(order, stream, LebBytes(w.value), tail);
        LebRoundTrip(w.value, more);
      } else if w.shape.kind.ZigZag128? {
        var more := SeenBytes(order, stream, LebBytes(ZigZag(w.value)), tail);
        ZigZagRoundTrip(w.value, more);
      }
    }
  }

  // ---------- programs ----------

  predicate AllTyped(ws: seq<Write>) {
    forall i :: 0 <= i < |ws| ==> Typed(ws[i])
  }

  predicate AllInRange(ws: seq<Write>) {
    forall i :: 0 <= i < |ws| ==> InRange(ws[i])
  }

  function PutAll(order: BitOrder, stream: seq<bool>, ws: seq<Write>): seq<bool>
    requires AllTyped(ws)
    decreases |ws|
  {
    if ws == [] then stream else PutAll(order, Put(order, stream, ws[0]), ws[1..])
  }

  function GetAll(order: BitOrder, bits: seq<bool>, position: nat, shapes: seq<Shape>): Result<(seq<int>, nat)>
    requires position <= |bits|
    decreases |shapes|
  {
    if shapes == [] then Ok(([], position))
    else
      match Get(order, bits, position, shapes[0])
      case Err(e) => Err(e)
      case Ok((v, next)) =>
        if next > |bits| then Err(UnexpectedEof)
        else
          match GetAll(order, bits, next, shapes[1..])
          case Err(e) => Err(e)
          case Ok((vs, end)) => Ok(([v] + vs, end))
  }

  function Shapes(ws: seq<Write>): (shapes: seq<Shape>)
    ensures |shapes| == |ws|
  {
    seq(|ws|, i requires 0 <= i < |ws| => ws[i].shape)
  }

  function Values(ws: seq<Write>): (vs: seq<int>)
    requires AllInRange(ws)
    ensures |vs| == |ws|
  {
    seq(|ws|, i requires 0 <= i < |ws| => Expected(ws[i]))
  }

  /** The main theorem: at any alignment and before any tail, the matching reads return exactly the
      written values and stop exactly where the writes stopped. */
  lemma {:induction false} ProgramRoundTrip(order: BitOrder, stream: seq<bool>, ws: seq<Write>, tail: seq<bool>)
    requires AllInRange(ws)
    ensures stream <= PutAll(order, stream, ws)
    ensures GetAll(order, PutAll(order, stream, ws) + tail, |stream|, Shapes(ws))
         == Ok((Values(ws), |PutAll(order, stream, ws)|))
    decreases |ws|
  {
    if ws == [] {
      assert Values(ws) == [];
    } else {
      var next, end := Put(order, stream, ws[0]), PutAll(order, stream, ws);
      ProgramRoundTrip(order, next, ws[1..], tail);
      var rest := end[|next|..] + tail;
      SplitTail(next, end, tail);
      OneRoundTrip(order, stream, ws[0], rest);
      PutExtends(order, stream, ws[0]);
      ProgramStep(order, end + tail, |stream|, ws, |next|, |end|);
    }
  }

  lemma SplitTail(next: seq<bool>, end: seq<bool>, tail: seq<bool>)
    requires next <= end
    ensures end + tail == next + (end[|next|..] + tail)
  {
    assert end == next + end[|next|..];
  }

  lemma FirstAndRest(ws: seq<Write>)
    requires ws != [] && AllInRange(ws)
    ensures Shapes(ws)[0] == ws[0].shape && Shapes(ws)[1..] == Shapes(ws[1..])
    ensures Values(ws) == [Expected(ws[0])] + Values(ws[1..])
  {
  }

  lemma ProgramStep(order: BitOrder, bits: seq<bool>, position: nat, ws: seq<Write>, next: nat, end: nat)
    requires position <= |bits| && next <= |bits| && ws != [] && AllInRange(ws)
    requires Get(order, bits, position, ws[0].shape) == Ok((Expected(ws[0]), next))
    requires GetAll(order, bits, next, Shapes(ws[1..])) == Ok((Values(ws[1..]), end))
    ensures GetAll(order, bits, position, Shapes(ws)) == Ok((Values(ws), end))
  {
    FirstAndRest(ws);
  }

  lemma PutExtends(order: BitOrder, stream: seq<bool>, w: Write)
    requires Typed(w)
    ensures stream <= Put(order, stream, w)
  {
  }

  // ---------- the same programs run by the encoder and the decoder ----------

  /** What a write reports: only the EBML and VLQ writers can refuse a value. */
  function Outcome(w: Write): Result<()>
    requires Typed(w)
  {
    if w.shape.BitField? then Ok(())
    else
      match Encode(w)
      case Ok(_) => Ok(())
      case Err(e) => Err(e)
  }

  /** Any write of the right type, in range or not. */
  method RunWrite(enc: BitStreamEncoder, w: Write) returns (r: Result<()>)
    requires enc.Valid() && Typed(w)
    modifies enc
    ensures enc.Valid() && enc.Stream() == Put(enc.bitOrder, old(enc.Stream()), w)
    ensures r == Outcome(w)
  {
    r := Ok(());
    match w.shape {
      case BitField(width) => enc.WriteBits(w.value, width);
      case Fixed(size, e) => RunWriteFixed(enc, w.value, size, e);
      case Variable(Leb128) => enc.WriteVarlengthLeb128(w.value);
      case Variable(Der) => enc.WriteVarlengthDer(w.value);
      case Variable(Ebml) => r := enc.WriteVarlengthEbml(w.value);
      case Variable(Vlq) => r := enc.WriteVarlengthVlq(w.value);
      case Variable(ZigZag128) => enc.WriteVarlengthZigzag(w.value);
      case Variable(Sleb128) => enc.WriteVarlengthSleb128(w.value);
    }
  }

  method RunWriteFixed(enc: BitStreamEncoder, value: nat, size: nat, e: Endianness)
    requires enc.Valid() && size in {1, 2, 4, 8} && value < Pow2(8 * size)
    modifies enc
    ensures enc.Valid()
    ensures enc.Stream() == PutBytes(enc.bitOrder, old(enc.Stream()), IntBytes(e, value, size))
  {
    Pow2Small();
    Pow2Of32();
    if size == 1 {
      assert IntBytes(e, value, 1) == [value];
      enc.WriteUint8(value);
    } else if size == 2 {
      enc.WriteUint16(value, e);
    } else if size == 4 {
      enc.WriteUint32(value, e);
    } else {
      FitsU64(value, 64);
      enc.WriteUint64(value, e);
    }
  }

  method RunWrites(enc: BitStreamEncoder, ws: seq<Write>) returns (allOk: bool)
    requires enc.Valid() && AllTyped(ws)
    modifies enc
    ensures enc.Valid() && enc.Stream() == PutAll(enc.bitOrder, old(enc.Stream()), ws)
    ensures allOk <==> forall i :: 0 <= i < |ws| ==> Outcome(ws[i]).Ok?
  {
    assert ws[0..] == ws;
    allOk := true;
    for i := 0 to |ws|
      invariant enc.Valid()
      invariant allOk <==> forall j :: 0 <= j < i ==> Outcome(ws[j]).Ok?
      invariant PutAll(enc.bitOrder, enc.Stream(), ws[i..]) == PutAll(enc.bitOrder, old(enc.Stream()), ws)
    {
      assert ws[i..][1..] == ws[i + 1..];
      var r := RunWrite(enc, ws[i]);
      allOk := allOk && r.Ok?;
    }
  }

  method RunRead(dec: BitStreamDecoder, shape: Shape) returns (r: Result<int>)
    requires dec.Valid() && (shape.Fixed? ==> shape.size in {1, 2, 4, 8})
    modifies dec
    ensures dec.Valid()
    ensures var got := Get(dec.bitOrder, dec.Bits(), old(dec.Position()), shape);
      r == First(got) && (got.Ok? ==> dec.Position() == got.value.1)
  {
    hide Pack, BytesFrom;
    match shape {
      case BitField(width) => var v := dec.ReadBits(width); r := Widen(v);
      case Fixed(size, e) =>
        if size == 1 {
          ghost var rest := dec.Rest();
          if |rest| > 0 { OneByteInt(e, rest); }
          var v := dec.ReadUint8();
          r := Widen(v);
        } else if size == 2 {
          var v := dec.ReadUint16(e);
          r := Widen(v);
        } else if size == 4 {
          var v := dec.ReadUint32(e);
          r := Widen(v);
        } else {
          var v := dec.ReadUint64(e);
          r := Widen(v);
        }
      case Variable(Leb128) => var v := dec.ReadVarlengthLeb128(); r := Widen(v);
      case Variable(Der) => var v := dec.ReadVarlengthDer(); r := Widen(v);
      case Variable(Ebml) => var v := dec.ReadVarlengthEbml(); r := Widen(v);
      case Variable(Vlq) => var v := dec.ReadVarlengthVlq(); r := Widen(v);
      case Variable(ZigZag128) => var v := dec.ReadVarlengthZigzag(); r := Widen(v);
      case Variable(Sleb128) => var v := dec.ReadVarlengthSleb128(); r := Widen(v);
    }
  }

  function First<A, B>(r: Result<(A, B)>): Result<A> {
    match r case Ok((a, _)) => Ok(a) case Err(e) => Err(e)
  }

  function Widen(r: Result<int>): Result<int> {
    r
  }

  lemma OneByteInt(e: Endianness, bs: seq<Byte>)
    requires |bs| > 0
    ensures ReadInt(e, 1, bs) == Ok(Parsed(bs[0], 1))
  {
    var one := bs[..1];
    assert FromBe(one) == 256 * FromBe(one[..0]) + one[0];
    assert FromLe(one) == one[0] + 256 * FromLe(one[1..]);
  }

  method RunReads(dec: BitStreamDecoder, shapes: seq<Shape>) returns (r: Result<seq<int>>)
    requires dec.Valid()
    requires forall i :: 0 <= i < |shapes| && shapes[i].Fixed? ==> shapes[i].size in {1, 2, 4, 8}
    modifies dec
    ensures dec.Valid()
    ensures var got := GetAll(dec.bitOrder, dec.Bits(), old(dec.Position()), shapes);
      r == First(got) && (got.Ok? ==> dec.Position() == got.value.1)
  {
    var vs := [];
    ghost var order, bits, start := dec.bitOrder, dec.Bits(), dec.Position();
    assert shapes[0..] == shapes;
    PrependNone(GetAll(order, bits, start, shapes));
    for i := 0 to |shapes|
      invariant dec.Valid()
      invariant GetAll(order, bits, start, shapes) == Prepend(vs, GetAll(order, bits, dec.Position(), shapes[i..]))
    {
      ghost var got := Get(order, bits, dec.Position(), shapes[i]);
      GetAllUnfold(order, bits, dec.Position(), shapes, i, vs, got);
      var v := RunRead(dec, shapes[i]);
      if v.Err? {
        return Err(v.error);
      }
      vs := vs + [v.value];
    }
    assert vs + [] == vs;
    r := Ok(vs);
  }

  lemma GetAllUnfold(order: BitOrder, bits: seq<bool>, position: nat, shapes: seq<Shape>, i: nat, vs: seq<int>,
                     got: Result<(int, nat)>)
    requires position <= |bits| && i < |shapes| && got == Get(order, bits, position, shapes[i])
    ensures got.Err? ==> Prepend(vs, GetAll(order, bits, position, shapes[i..])) == Err(got.error)
    ensures got.Ok? && got.value.1 <= |bits| ==>
      Prepend(vs, GetAll(order, bits, position, shapes[i..]))
        == Prepend(vs + [got.value.0], GetAll(order, bits, got.value.1, shapes[i + 1..]))
  {
    assert shapes[i..][1..] == shapes[i + 1..];
    if got.Ok? && got.value.1 <= |bits| {
      PrependOne(vs, got.value.0, GetAll(order, bits, got.value.1, shapes[i + 1..]));
    }
  }

  function Prepend(vs: seq<int>, r: Result<(seq<int>, nat)>): Result<(seq<int>, nat)> {
    match r case Ok((more, end)) => Ok((vs + more, end)) case Err(e) => Err(e)
  }

  lemma PrependNone(r: Result<(seq<int>, nat)>)
    ensures Prepend([], r) == r
  {
    if r.Ok? { assert [] + r.value.0 == r.value.0; }
  }

  lemma PrependOne(vs: seq<int>, v: int, r: Result<(seq<int>, nat)>)
    ensures Prepend(vs, Prepend([v], r)) == Prepend(vs + [v], r)
  {
    if r.Ok? { assert vs + ([v] + r.value.0) == (vs + [v]) + r.value.0; }
  }

  /** Encode, finish, decode: every value comes back, and less than a byte of padding is left over. */
  method EncodeThenDecode(order: BitOrder, ws: seq<Write>) returns (r: Result<seq<int>>, leftover: nat)
    requires AllInRange(ws)
    ensures r == Ok(Values(ws)) && leftover < 8
  {
    var enc := new BitStreamEncoder(order);
    var _ := RunWrites(enc, ws);
    ghost var stream := enc.Stream();
    var bytes := enc.Finish();
    var dec := new BitStreamDecoder(bytes, order);
    ghost var pad := Padded(stream)[|stream|..];
    assert Padded(stream) == stream + pad;
    ProgramRoundTrip(order, [], ws, pad);
    r := RunReads(dec, seq(|ws|, i requires 0 <= i < |ws| => ws[i].shape));
    leftover := 8 * |bytes| - (8 * dec.byteOffset + dec.bitOffset);
  }
}
