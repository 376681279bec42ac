/** Two or more misprinted entries can cancel, but not within fourteen bytes of the first.

    The drift of a run is a sum: an entry that was off k bytes ago contributes its error, shifted k times.
    A change of basis takes the thirty errors of the ten oldest of fourteen bytes to single bits, three to a
    byte. A byte adds at most one error, so the four latest bytes would have to add up to at most one bit in
    each group of three, and they do so only when they add nothing. */
module CrcCancellation {
  import opened Crc32

  /** What a byte of the run met: a good entry or one of the three misprints. */
  datatype Slip = Good | At42 | At43 | At245

  function SlipOf(i: bv8): Slip {
    if i == 42 then At42 else if i == 43 then At43 else if i == 245 then At245 else Good
  }

  /** What a slip adds to the drift, j bytes later. */
  function Image(s: Slip, j: nat): bv32 {
    if j > 0 then Shift8(Image(s, j - 1))
    else match s case Good => 0 case At42 => 0x7200 case At43 => 0x3600 case At245 => 0x20
  }

  /** The drift left by slips listed latest first, j bytes after the first of them. */
  function Sum(slips: seq<Slip>, j: nat): bv32 {
    if slips == [] then 0 else Xor(Sum(slips[1..], j + 1), Image(slips[0], j))
  }

  /** The slips of a run, put before those of an earlier one. */
  function Slips(c: bv32, data: seq<bv8>, before: seq<Slip>): (slips: seq<Slip>)
    ensures |slips| == |data| + |before|
    decreases |data|
  {
    if data == [] then before
    else Slips(Step(Table, c, data[0]), data[1..], [SlipOf(Index(c, data[0]))] + before)
  }

  predicate AllGood(slips: seq<Slip>) {
    forall i :: 0 <= i < |slips| ==> slips[i].Good?
  }

  lemma ErrorIsImage(i: bv8)
    ensures Error(i) == Image(SlipOf(i), 0)
    ensures Misprint(i) <==> !SlipOf(i).Good?
  {
    ErrorExact(i);
    if i == 42 {
      assert Table(42) == 0xDBBB_BBD6;
    } else if i == 43 {
      assert Table(43) == 0xACBC_CF40;
    } else if i == 245 {
      assert Table(245) == 0xCDD7_06B3;
    }
  }

  lemma {:induction false} SumShifts(slips: seq<Slip>, j: nat)
    ensures Shift8(Sum(slips, j)) == Sum(slips, j + 1)
    decreases |slips|
  {
    hide Xor, Shift8;
    if slips == [] {
      Shift8OfZero();
    } else {
      Linear8(Sum(slips[1..], j + 1), Image(slips[0], j));
      SumShifts(slips[1..], j + 1);
    }
  }

  lemma SumAdds(slips: seq<Slip>, i: bv8)
    ensures Sum([SlipOf(i)] + slips, 0) == Xor(Shift8(Sum(slips, 0)), Error(i))
  {
    hide Xor, Shift8, Image, Error, SlipOf;
    SumShifts(slips, 0);
    ErrorIsImage(i);
    assert ([SlipOf(i)] + slips)[1..] == slips;
  }

  lemma {:induction false} DriftIsSum(c: bv32, data: seq<bv8>, before: seq<Slip>)
    ensures Drift(c, Sum(before, 0), data) == Sum(Slips(c, data, before), 0)
    ensures AllGood(Slips(c, data, before)) <==> AllGood(before) && Hits(c, data) == 0
    decreases |data|
  {
    hide Xor, Shift8, Image, Error, SlipOf, Sum, Misprint, Index, Step, Table;
    if data != [] {
      var i := Index(c, data[0]);
      var next := [SlipOf(i)] + before;
      SumAdds(before, i);
      ErrorIsImage(i);
      DriftIsSum(Step(Table, c, data[0]), data[1..], next);
      assert next[0] == SlipOf(i) && forall k :: 0 <= k < |before| ==> next[k + 1] == before[k];
    }
  }

  /** The checksum is right exactly when the errors met, each shifted by the bytes since, add up to nothing. */
  lemma RightExactly(data: seq<bv8>)
    ensures Crc32Of(data) == DivisionCrc(data) <==> Sum(Slips(0xFFFF_FFFF, data, []), 0) == 0
  {
    hide Crc32Of, DivisionCrc, Drift, Slips;
    Crc32Exactly(data);
    DriftIsSum(0xFFFF_FFFF, data, []);
  }

  // ---------- the change of basis ----------

  function And(v: bv32, bit: bv32): bv32 {
    v & bit
  }

  predicate Has(v: bv32, bit: bv32) {
    And(v, bit) != 0
  }

  /** What two bits stand for together. */
  function Pick(p: bool, q: bool, a: bv32, b: bv32): bv32 {
    if p then if q then Xor(a, b) else a else if q then b else 0
  }

  function Two(v: bv32, bit: bv32, a: bv32, b: bv32): bv32 {
    Pick(v & bit != 0, v & (bit << 1) != 0, a, b)
  }

  function Four(v: bv32, bit: bv32, a: bv32, b: bv32, c: bv32, d: bv32): bv32 {
    Xor(Two(v, bit, a, b), Two(v, bit << 2, c, d))
  }

  /** A word in the new basis: what its bits stand for, taken together. */
  function Coordinates(v: bv32): bv32 {
    Xor(Xor(Xor(Four0(v), Four1(v)), Xor(Four2(v), Four3(v))), Xor(Xor(Four4(v), Four5(v)), Xor(Four6(v), Four7(v))))
  }

  function Four0(v: bv32): bv32 {
    Four(v, 0x0000_0001, 0x9237_8FFF, 0x164C_90B8, 0xCA73_1065, 0x553E_390A)
  }

  function Four1(v: bv32): bv32 {
    Four(v, 0x0000_0010, 0x4E99_6E5B, 0x60B5_4CA4, 0xF2E7_2870, 0x7906_410B)
  }

  function Four2(v: bv32): bv32 {
    Four(v, 0x0000_0100, 0xE82C_2AD1, 0x1435_8F62, 0x6B76_3976, 0x8FA0_C2F2)
  }

  function Four3(v: bv32): bv32 {
    Four(v, 0x0000_1000, 0x93E4_970D, 0xC5AA_6520, 0x2EA9_16A9, 0xC94C_E72F)
  }

  function Four4(v: bv32): bv32 {
    Four(v, 0x0001_0000, 0x398F_ECD6, 0x07FD_71B2, 0xFC9E_2E65, 0xC5E8_ADCE)
  }

  function Four5(v: bv32): bv32 {
    Four(v, 0x0010_0000, 0xE6B4_ED41, 0x7292_768B, 0x5267_509D, 0x7289_8326)
  }

  function Four6(v: bv32): bv32 {
    Four(v, 0x0100_0000, 0x4D01_89C7, 0x3FEB_8D90, 0x3A4E_C3D4, 0x7084_31FB)
  }

  function Four7(v: bv32): bv32 {
    Four(v, 0x1000_0000, 0x2A66_3583, 0xF2C2_BEFA, 0xB56B_8E4A, 0xF21D_1392)
  }

  predicate OneBit(bit: bv32) {
    bit & (bit - 1) == 0
  }

  lemma AndDistributes(v: bv32, w: bv32, bit: bv32)
    ensures (v ^ w) & bit == (v & bit) ^ (w & bit)
  {
  }

  lemma AndOfXor(v: bv32, w: bv32, bit: bv32)
    ensures And(Xor(v, w), bit) == Xor(And(v, bit), And(w, bit))
  {
    hide Xor;
    XorIs(v, w);
    XorIs(v & bit, w & bit);
    AndDistributes(v, w, bit);
  }

  lemma AndSingle(v: bv32, bit: bv32)
    requires OneBit(bit)
    ensures And(v, bit) == 0 || And(v, bit) == bit
  {
  }

  lemma HasOfXor(v: bv32, w: bv32, bit: bv32)
    requires OneBit(bit)
    ensures Has(Xor(v, w), bit) <==> Has(v, bit) != Has(w, bit)
  {
    hide And, Xor, OneBit;
    AndOfXor(v, w, bit);
    AndSingle(v, bit);
    AndSingle(w, bit);
    XorZero(bit);
    XorZero(0);
  }

  lemma PickOfEither(p: bool, q: bool, p': bool, q': bool, a: bv32, b: bv32)
    ensures Pick(p != p', q != q', a, b) == Xor(Pick(p, q, a, b), Pick(p', q', a, b))
  {
    hide Xor;
    XorZero(0);
    XorZero(a);
    XorZero(b);
    XorZero(Xor(a, b));
    XorCommutes(a, b);
    XorAssociative(a, a, b);
    XorAssociative(b, b, a);
    XorCommutes(Xor(a, b), a);
    XorCommutes(Xor(a, b), b);
  }

  lemma XorPairs(a: bv32, b: bv32, c: bv32, d: bv32)
    ensures Xor(Xor(a, b), Xor(c, d)) == Xor(Xor(a, c), Xor(b, d))
  {
    hide Xor;
    XorAssociative(Xor(a, b), c, d);
    XorSwap(a, b, c);
    XorAssociative(Xor(a, c), b, d);
  }

  lemma TwoIs(v: bv32, bit: bv32, a: bv32, b: bv32)
    ensures Two(v, bit, a, b) == Pick(Has(v, bit), Has(v, bit << 1), a, b)
  {
    hide Pick;
  }

  lemma TwoOfXor(v: bv32, w: bv32, bit: bv32, a: bv32, b: bv32)
    requires OneBit(bit) && OneBit(bit << 1)
    ensures Two(Xor(v, w), bit, a, b) == Xor(Two(v, bit, a, b), Two(w, bit, a, b))
  {
    hide Xor, Pick, OneBit, Two, Has;
    TwoIs(v, bit, a, b);
    TwoIs(w, bit, a, b);
    TwoIs(Xor(v, w), bit, a, b);
    var next := bit << 1;
    HasOfXor(v, w, bit);
    HasOfXor(v, w, next);
    PickOfEither(Has(v, bit), Has(v, next), Has(w, bit), Has(w, next), a, b);
  }

  lemma FourOfXor(v: bv32, w: bv32, bit: bv32, a: bv32, b: bv32, c: bv32, d: bv32)
    requires OneBit(bit) && OneBit(bit << 1) && OneBit(bit << 2) && OneBit(bit << 2 << 1)
    ensures Four(Xor(v, w), bit, a, b, c, d) == Xor(Four(v, bit, a, b, c, d), Four(w, bit, a, b, c, d))
  {
    hide Xor, OneBit, Two;
    var up := bit << 2;
    TwoOfXor(v, w, bit, a, b);
    TwoOfXor(v, w, up, c, d);
    XorPairs(Two(v, bit, a, b), Two(w, bit, a, b), Two(v, up, c, d), Two(w, up, c, d));
  }

  lemma CoordinatesOfXor(a: bv32, b: bv32)
    ensures Coordinates(Xor(a, b)) == Xor(Coordinates(a), Coordinates(b))
  {
    hide Xor, Four;
    FourOfXor(a, b, 0x0000_0001, 0x9237_8FFF, 0x164C_90B8, 0xCA73_1065, 0x553E_390A);
    FourOfXor(a, b, 0x0000_0010, 0x4E99_6E5B, 0x60B5_4CA4, 0xF2E7_2870, 0x7906_410B);
    FourOfXor(a, b, 0x0000_0100, 0xE82C_2AD1, 0x1435_8F62, 0x6B76_3976, 0x8FA0_C2F2);
    FourOfXor(a, b, 0x0000_1000, 0x93E4_970D, 0xC5AA_6520, 0x2EA9_16A9, 0xC94C_E72F);
    FourOfXor(a, b, 0x0001_0000, 0x398F_ECD6, 0x07FD_71B2, 0xFC9E_2E65, 0xC5E8_ADCE);
    FourOfXor(a, b, 0x0010_0000, 0xE6B4_ED41, 0x7292_768B, 0x5267_509D, 0x7289_8326);
    FourOfXor(a, b, 0x0100_0000, 0x4D01_89C7, 0x3FEB_8D90, 0x3A4E_C3D4, 0x7084_31FB);
    FourOfXor(a, b, 0x1000_0000, 0x2A66_3583, 0xF2C2_BEFA, 0xB56B_8E4A, 0xF21D_1392);
    hide Four0, Four1, Four2, Four3, Four4, Four5, Four6, Four7;
    XorPairs(Four0(a), Four0(b), Four1(a), Four1(b));
    XorPairs(Four2(a), Four2(b), Four3(a), Four3(b));
    XorPairs(Four4(a), Four4(b), Four5(a), Four5(b));
    XorPairs(Four6(a), Four6(b), Four7(a), Four7(b));
    var a01, b01 := Xor(Four0(a), Four1(a)), Xor(Four0(b), Four1(b));
    var a23, b23 := Xor(Four2(a), Four3(a)), Xor(Four2(b), Four3(b));
    var a45, b45 := Xor(Four4(a), Four5(a)), Xor(Four4(b), Four5(b));
    var a67, b67 := Xor(Four6(a), Four7(a)), Xor(Four6(b), Four7(b));
    XorPairs(a01, b01, a23, b23);
    XorPairs(a45, b45, a67, b67);
    XorPairs(Xor(a01, a23), Xor(b01, b23), Xor(a45, a67), Xor(b45, b67));
  }

  lemma CoordinatesOfZero()
    ensures Coordinates(0) == 0
  {
  }

  /** A slip's image in the new basis: a single bit from the fifth byte on. */
  function Place(s: Slip, j: nat): bv32 {
    match s
    case Good => 0
    case At42 => Place42(j)
    case At43 => Place43(j)
    case At245 => Place245(j)
  }

  function Place42(j: nat): bv32 {
    match j
    case 0 => 0x6CD2_6BE6
    case 1 => 0xCA87_9A37
    case 2 => 0x797F_2EA8
    case 3 => 0x272F_E5D5
    case 4 => 0x0800_0000
    case 5 => 0x0100_0000
    case 6 => 0x0020_0000
    case 7 => 0x0004_0000
    case 8 => 0x0000_8000
    case 9 => 0x0000_1000
    case 10 => 0x0000_0200
    case 11 => 0x0000_0040
    case 12 => 0x0000_0008
    case _ => 0x0000_0001
  }

  function Place43(j: nat): bv32 {
    match j
    case 0 => 0x290D_4439
    case 1 => 0xF213_A222
    case 2 => 0x7288_5510
    case 3 => 0x2651_0AA2
    case 4 => 0x1000_0000
    case 5 => 0x0200_0000
    case 6 => 0x0040_0000
    case 7 => 0x0008_0000
    case 8 => 0x0001_0000
    case 9 => 0x0000_2000
    case 10 => 0x0000_0400
    case 11 => 0x0000_0080
    case 12 => 0x0000_0010
    case _ => 0x0000_0002
  }

  function Place245(j: nat): bv32 {
    match j
    case 0 => 0x60B5_4CA4
    case 1 => 0xDFC1_5F8B
    case 2 => 0x8000_0000
    case 3 => 0x4000_0000
    case 4 => 0x2000_0000
    case 5 => 0x0400_0000
    case 6 => 0x0080_0000
    case 7 => 0x0010_0000
    case 8 => 0x0002_0000
    case 9 => 0x0000_4000
    case 10 => 0x0000_0800
    case 11 => 0x0000_0100
    case 12 => 0x0000_0020
    case _ => 0x0000_0004
  }

  lemma ImagesOf42()
    ensures Image(At42, 0) == 0x0000_7200
    ensures Image(At42, 1) == 0x0000_0072
    ensures Image(At42, 2) == 0xBE0B_1010
    ensures Image(At42, 3) == 0x1D09_1B74
    ensures Image(At42, 4) == 0x5775_BC3E
    ensures Image(At42, 5) == 0xC136_6817
    ensures Image(At42, 6) == 0x8312_B3AF
    ensures Image(At42, 7) == 0x46EA_ACCA
    ensures Image(At42, 8) == 0x7BF7_C102
    ensures Image(At42, 9) == 0xEE75_96ED
    ensures Image(At42, 10) == 0xDE55_EB53
    ensures Image(At42, 11) == 0xF2BC_55A5
    ensures Image(At42, 12) == 0xA64E_EB32
    ensures Image(At42, 13) == 0xC871_1F6B
  {
    assert Shift8(0x0000_7200) == 0x0000_0072;
    assert Shift8(0x0000_0072) == 0xBE0B_1010;
    assert Shift8(0xBE0B_1010) == 0x1D09_1B74;
    assert Shift8(0x1D09_1B74) == 0x5775_BC3E;
    assert Shift8(0x5775_BC3E) == 0xC136_6817;
    assert Shift8(0xC136_6817) == 0x8312_B3AF;
    assert Shift8(0x8312_B3AF) == 0x46EA_ACCA;
    assert Shift8(0x46EA_ACCA) == 0x7BF7_C102;
    assert Shift8(0x7BF7_C102) == 0xEE75_96ED;
    assert Shift8(0xEE75_96ED) == 0xDE55_EB53;
    assert Shift8(0xDE55_EB53) == 0xF2BC_55A5;
    assert Shift8(0xF2BC_55A5) == 0xA64E_EB32;
    assert Shift8(0xA64E_EB32) == 0xC871_1F6B;
    hide Shift8;
  }

  lemma NewCoordinatesOf42()
    ensures Coordinates(0x0000_7200) == 0x6CD2_6BE6
    ensures Coordinates(0x0000_0072) == 0xCA87_9A37
    ensures Coordinates(0xBE0B_1010) == 0x797F_2EA8
    ensures Coordinates(0x1D09_1B74) == 0x272F_E5D5
  {
  }

  lemma OldCoordinatesOf42()
    ensures Coordinates(0x5775_BC3E) == 0x0800_0000
    ensures Coordinates(0xC136_6817) == 0x0100_0000
    ensures Coordinates(0x8312_B3AF) == 0x0020_0000
    ensures Coordinates(0x46EA_ACCA) == 0x0004_0000
    ensures Coordinates(0x7BF7_C102) == 0x0000_8000
  {
  }

  lemma OldestCoordinatesOf42()
    ensures Coordinates(0xEE75_96ED) == 0x0000_1000
    ensures Coordinates(0xDE55_EB53) == 0x0000_0200
    ensures Coordinates(0xF2BC_55A5) == 0x0000_0040
    ensures Coordinates(0xA64E_EB32) == 0x0000_0008
    ensures Coordinates(0xC871_1F6B) == 0x0000_0001
  {
    hide Coordinates;
    NinthCoordinatesOf42();
    LastCoordinatesOf42();
  }

  lemma NinthCoordinatesOf42()
    ensures Coordinates(0xEE75_96ED) == 0x0000_1000
    ensures Coordinates(0xDE55_EB53) == 0x0000_0200
    ensures Coordinates(0xF2BC_55A5) == 0x0000_0040
  {
  }

  lemma LastCoordinatesOf42()
    ensures Coordinates(0xA64E_EB32) == 0x0000_0008
    ensures Coordinates(0xC871_1F6B) == 0x0000_0001
  {
  }

  lemma PlaceOf42(j: nat)
    requires j < 14
    ensures Coordinates(Image(At42, j)) == Place42(j)
  {
    hide Image, Coordinates;
    ImagesOf42();
    NewCoordinatesOf42();
    OldCoordinatesOf42();
    OldestCoordinatesOf42();
  }

  lemma ImagesOf43()
    ensures Image(At43, 0) == 0x0000_3600
    ensures Image(At43, 1) == 0x0000_0036
    ensures Image(At43, 2) == 0xCFBA_9599
    ensures Image(At43, 3) == 0x891C_9175
    ensures Image(At43, 4) == 0x20E6_9922
    ensures Image(At43, 5) == 0xD540_A77D
    ensures Image(At43, 6) == 0x2E61_4D26
    ensures Image(At43, 7) == 0xD223_E4B0
    ensures Image(At43, 8) == 0xCBB3_9068
    ensures Image(At43, 9) == 0x43A2_5AFA
    ensures Image(At43, 10) == 0x5D2B_B958
    ensures Image(At43, 11) == 0x65ED_F27F
    ensures Image(At43, 12) == 0xC0DF_815F
    ensures Image(At43, 13) == 0xFB14_93E4
  {
    assert Shift8(0x0000_3600) == 0x0000_0036;
    assert Shift8(0x0000_0036) == 0xCFBA_9599;
    assert Shift8(0xCFBA_9599) == 0x891C_9175;
    assert Shift8(0x891C_9175) == 0x20E6_9922;
    assert Shift8(0x20E6_9922) == 0xD540_A77D;
    assert Shift8(0xD540_A77D) == 0x2E61_4D26;
    assert Shift8(0x2E61_4D26) == 0xD223_E4B0;
    assert Shift8(0xD223_E4B0) == 0xCBB3_9068;
    assert Shift8(0xCBB3_9068) == 0x43A2_5AFA;
    assert Shift8(0x43A2_5AFA) == 0x5D2B_B958;
    assert Shift8(0x5D2B_B958) == 0x65ED_F27F;
    assert Shift8(0x65ED_F27F) == 0xC0DF_815F;
    assert Shift8(0xC0DF_815F) == 0xFB14_93E4;
    hide Shift8;
  }

  lemma NewCoordinatesOf43()
    ensures Coordinates(0x0000_3600) == 0x290D_4439
    ensures Coordinates(0x0000_0036) == 0xF213_A222
    ensures Coordinates(0xCFBA_9599) == 0x7288_5510
    ensures Coordinates(0x891C_9175) == 0x2651_0AA2
  {
  }

  lemma OldCoordinatesOf43()
    ensures Coordinates(0x20E6_9922) == 0x1000_0000
    ensures Coordinates(0xD540_A77D) == 0x0200_0000
    ensures Coordinates(0x2E61_4D26) == 0x0040_0000
    ensures Coordinates(0xD223_E4B0) == 0x0008_0000
    ensures Coordinates(0xCBB3_9068) == 0x0001_0000
  {
  }

  lemma OldestCoordinatesOf43()
    ensures Coordinates(0x43A2_5AFA) == 0x0000_2000
    ensures Coordinates(0x5D2B_B958) == 0x0000_0400
    ensures Coordinates(0x65ED_F27F) == 0x0000_0080
    ensures Coordinates(0xC0DF_815F) == 0x0000_0010
    ensures Coordinates(0xFB14_93E4) == 0x0000_0002
  {
    hide Coordinates;
    NinthCoordinatesOf43();
    LastCoordinatesOf43();
  }

  lemma NinthCoordinatesOf43()
    ensures Coordinates(0x43A2_5AFA) == 0x0000_2000
    ensures Coordinates(0x5D2B_B958) == 0x0000_0400
    ensures Coordinates(0x65ED_F27F) == 0x0000_0080
  {
  }

  lemma LastCoordinatesOf43()
    ensures Coordinates(0xC0DF_815F) == 0x0000_0010
    ensures Coordinates(0xFB14_93E4) == 0x0000_0002
  {
  }

  lemma PlaceOf43(j: nat)
    requires j < 14
    ensures Coordinates(Image(At43, j)) == Place43(j)
  {
    hide Image, Coordinates;
    ImagesOf43();
    NewCoordinatesOf43();
    OldCoordinatesOf43();
    OldestCoordinatesOf43();
  }

  lemma ImagesOf245()
    ensures Image(At245, 0) == 0x0000_0020
    ensures Image(At245, 1) == 0x3B6E_20C8
    ensures Image(At245, 2) == 0x9584_24A2
    ensures Image(At245, 3) == 0x384D_46E0
    ensures Image(At245, 4) == 0xA032_AF3E
    ensures Image(At245, 5) == 0xC1C1_2F04
    ensures Image(At245, 6) == 0x07AC_0536
    ensures Image(At245, 7) == 0xCFBD_399C
    ensures Image(At245, 8) == 0xF976_6256
    ensures Image(At245, 9) == 0x82F1_82A3
    ensures Image(At245, 10) == 0x4F5D_03D0
    ensures Image(At245, 11) == 0x869C_8FD7
    ensures Image(At245, 12) == 0x1831_DBF8
    ensures Image(At245, 13) == 0xB37E_4BF5
  {
    assert Shift8(0x0000_0020) == 0x3B6E_20C8;
    assert Shift8(0x3B6E_20C8) == 0x9584_24A2;
    assert Shift8(0x9584_24A2) == 0x384D_46E0;
    assert Shift8(0x384D_46E0) == 0xA032_AF3E;
    assert Shift8(0xA032_AF3E) == 0xC1C1_2F04;
    assert Shift8(0xC1C1_2F04) == 0x07AC_0536;
    assert Shift8(0x07AC_0536) == 0xCFBD_399C;
    assert Shift8(0xCFBD_399C) == 0xF976_6256;
    assert Shift8(0xF976_6256) == 0x82F1_82A3;
    assert Shift8(0x82F1_82A3) == 0x4F5D_03D0;
    assert Shift8(0x4F5D_03D0) == 0x869C_8FD7;
    assert Shift8(0x869C_8FD7) == 0x1831_DBF8;
    assert Shift8(0x1831_DBF8) == 0xB37E_4BF5;
    hide Shift8;
  }

  lemma NewCoordinatesOf245()
    ensures Coordinates(0x0000_0020) == 0x60B5_4CA4
    ensures Coordinates(0x3B6E_20C8) == 0xDFC1_5F8B
    ensures Coordinates(0x9584_24A2) == 0x8000_0000
    ensures Coordinates(0x384D_46E0) == 0x4000_0000
  {
  }

  lemma OldCoordinatesOf245()
    ensures Coordinates(0xA032_AF3E) == 0x2000_0000
    ensures Coordinates(0xC1C1_2F04) == 0x0400_0000
    ensures Coordinates(0x07AC_0536) == 0x0080_0000
    ensures Coordinates(0xCFBD_399C) == 0x0010_0000
    ensures Coordinates(0xF976_6256) == 0x0002_0000
  {
    assert Four0(0x07AC_0536) == 0xDC3F_80DD;
    assert Four1(0x07AC_0536) == 0x2E2C_22FF;
    assert Four2(0x07AC_0536) == 0x835A_13A7;
    assert Four3(0x07AC_0536) == 0x0000_0000;
    assert Four4(0x07AC_0536) == 0x3976_83AB;
    assert Four5(0x07AC_0536) == 0x001B_F5AD;
    assert Four6(0x07AC_0536) == 0x48A4_C783;
    assert Four7(0x07AC_0536) == 0x0000_0000;
  }

  lemma OldestCoordinatesOf245()
    ensures Coordinates(0x82F1_82A3) == 0x0000_4000
    ensures Coordinates(0x4F5D_03D0) == 0x0000_0800
    ensures Coordinates(0x869C_8FD7) == 0x0000_0100
    ensures Coordinates(0x1831_DBF8) == 0x0000_0020
    ensures Coordinates(0xB37E_4BF5) == 0x0000_0004
  {
  }

  lemma PlaceOf245(j: nat)
    requires j < 14
    ensures Coordinates(Image(At245, j)) == Place245(j)
  {
    hide Image, Coordinates;
    ImagesOf245();
    NewCoordinatesOf245();
    OldCoordinatesOf245();
    OldestCoordinatesOf245();
  }

  lemma {:induction false} ImageOfGood(j: nat)
    ensures Image(Good, j) == 0
  {
    hide Shift8;
    Shift8OfZero();
    if j > 0 { ImageOfGood(j - 1); }
  }

  lemma PlaceIs(s: Slip, j: nat)
    requires j < 14
    ensures Coordinates(Image(s, j)) == Place(s, j)
  {
    hide Image, Coordinates, Place42, Place43, Place245;
    CoordinatesOfZero();
    match s
    case Good => ImageOfGood(j);
    case At42 => PlaceOf42(j);
    case At43 => PlaceOf43(j);
    case At245 => PlaceOf245(j);
  }

  function Places(slips: seq<Slip>, j: nat): bv32 {
    if slips == [] then 0 else Xor(Places(slips[1..], j + 1), Place(slips[0], j))
  }

  lemma {:induction false} PlacesAre(slips: seq<Slip>, j: nat)
    requires j + |slips| <= 14
    ensures Coordinates(Sum(slips, j)) == Places(slips, j)
    decreases |slips|
  {
    hide Xor, Image, Coordinates, Place;
    if slips == [] {
      CoordinatesOfZero();
    } else {
      CoordinatesOfXor(Sum(slips[1..], j + 1), Image(slips[0], j));
      PlacesAre(slips[1..], j + 1);
      PlaceIs(slips[0], j);
    }
  }

  /** At most one bit in each of ten groups of three, and none above them. */
  predicate Spread(w: bv32) {
    w & (w >> 1) & 0x1B6D_B6DB == 0 && w & (w >> 2) & 0x0924_9249 == 0 && w & 0xC000_0000 == 0
  }

  /** The groups that slips from j bytes on leave alone. */
  function Beyond(j: nat): bv32 {
    match j
    case 4 => 0xC000_0000
    case 5 => 0xF800_0000
    case 6 => 0xFF00_0000
    case 7 => 0xFFE0_0000
    case 8 => 0xFFFC_0000
    case 9 => 0xFFFF_8000
    case 10 => 0xFFFF_F000
    case 11 => 0xFFFF_FE00
    case 12 => 0xFFFF_FFC0
    case 13 => 0xFFFF_FFF8
    case _ => 0xFFFF_FFFF
  }

  /** Only whole groups. */
  predicate Whole(groups: bv32) {
    (groups ^ (groups >> 1)) & 0x1B6D_B6DB == 0
  }

  predicate Clear(w: bv32, groups: bv32) {
    w & groups == 0
  }

  predicate Within(w: bv32, groups: bv32) {
    w & groups == w
  }

  /** One bit of the group that slips j bytes back have to themselves. */
  predicate Fits(p: bv32, j: nat) {
    Spread(p) && Clear(p, Beyond(j)) && Within(p, Beyond(j + 1)) && p != 0
  }

  lemma Fits42(j: nat)
    requires 4 <= j < 14
    ensures Fits(Place42(j), j)
  {
  }

  lemma Fits43(j: nat)
    requires 4 <= j < 14
    ensures Fits(Place43(j), j)
  {
  }

  lemma Fits245(j: nat)
    requires 4 <= j < 14
    ensures Fits(Place245(j), j)
  {
  }

  lemma BeyondShrinks(j: nat)
    requires 4 <= j < 14
    ensures Whole(Beyond(j + 1)) && Within(Beyond(j), Beyond(j + 1))
  {
  }

  lemma SpreadJoins(w: bv32, p: bv32, groups: bv32)
    requires Spread(w) && Spread(p) && Whole(groups) && Clear(w, groups) && Within(p, groups)
    ensures Spread(Xor(w, p))
    ensures Xor(w, p) == 0 ==> w == 0 && p == 0
  {
  }

  lemma BeyondJoins(w: bv32, p: bv32, groups: bv32, fewer: bv32)
    requires Clear(w, groups) && Within(fewer, groups) && Clear(p, fewer)
    ensures Clear(Xor(w, p), fewer)
  {
  }

  lemma NothingSpread()
    ensures Spread(0)
  {
  }

  lemma NothingClear(groups: bv32)
    ensures Clear(0, groups)
  {
  }

  lemma FittingJoins(w: bv32, p: bv32, j: nat)
    requires 4 <= j < 14 && Spread(w) && Clear(w, Beyond(j + 1)) && Fits(p, j)
    ensures Spread(Xor(w, p)) && Clear(Xor(w, p), Beyond(j)) && Xor(w, p) != 0
  {
    hide Spread, Whole, Clear, Within, Xor, Beyond;
    BeyondShrinks(j);
    SpreadJoins(w, p, Beyond(j + 1));
    BeyondJoins(w, p, Beyond(j + 1), Beyond(j));
  }

  lemma Joins(w: bv32, s: Slip, j: nat)
    requires 4 <= j < 14 && Spread(w) && Clear(w, Beyond(j + 1))
    ensures Spread(Xor(w, Place(s, j))) && Clear(Xor(w, Place(s, j)), Beyond(j))
    ensures Xor(w, Place(s, j)) == 0 ==> w == 0 && s.Good?
  {
    hide Spread, Whole, Clear, Within, Xor, Beyond, Place42, Place43, Place245;
    BeyondShrinks(j);
    match s
    case Good =>
      XorZero(w);
      NothingClear(Beyond(j));
      BeyondJoins(w, 0, Beyond(j + 1), Beyond(j));
    case At42 =>
      Fits42(j);
      FittingJoins(w, Place42(j), j);
    case At43 =>
      Fits43(j);
      FittingJoins(w, Place43(j), j);
    case At245 =>
      Fits245(j);
      FittingJoins(w, Place245(j), j);
  }

  /** Slips at least four bytes back are spread over the groups, and cancel only when there are none. */
  lemma {:induction false} OldSlips(slips: seq<Slip>, j: nat)
    requires 4 <= j && j + |slips| == 14
    ensures Spread(Places(slips, j)) && Clear(Places(slips, j), Beyond(j))
    ensures Places(slips, j) == 0 ==> AllGood(slips)
    decreases |slips|
  {
    hide Spread, Clear, Xor, Beyond, Place;
    if slips == [] {
      NothingSpread();
      NothingClear(Beyond(j));
    } else {
      OldSlips(slips[1..], j + 1);
      Joins(Places(slips[1..], j + 1), slips[0], j);
      if Places(slips, j) == 0 {
        assert slips == [slips[0]] + slips[1..];
      }
    }
  }

  /** What the four latest bytes add is spread over the groups only when it is nothing. */
  lemma NewWords(a: bv32, b: bv32, c: bv32, d: bv32)
    requires a == 0 || a == 0x6CD2_6BE6 || a == 0x290D_4439 || a == 0x60B5_4CA4
    requires b == 0 || b == 0xCA87_9A37 || b == 0xF213_A222 || b == 0xDFC1_5F8B
    requires c == 0 || c == 0x797F_2EA8 || c == 0x7288_5510 || c == 0x8000_0000
    requires d == 0 || d == 0x272F_E5D5 || d == 0x2651_0AA2 || d == 0x4000_0000
    requires Spread(Xor(Xor(Xor(d, c), b), a))
    ensures a == 0 && b == 0 && c == 0 && d == 0
  {
  }

  lemma NewSlips(a: Slip, b: Slip, c: Slip, d: Slip)
    requires Spread(Xor(Xor(Xor(Place(d, 3), Place(c, 2)), Place(b, 1)), Place(a, 0)))
    ensures a.Good? && b.Good? && c.Good? && d.Good?
  {
    hide Spread, Xor;
    NewWords(Place(a, 0), Place(b, 1), Place(c, 2), Place(d, 3));
  }

  lemma LastFour(w: bv32, a: Slip, b: Slip, c: Slip, d: Slip)
    requires Spread(w) && Xor(Xor(Xor(Xor(w, Place(d, 3)), Place(c, 2)), Place(b, 1)), Place(a, 0)) == 0
    ensures w == 0 && a.Good? && b.Good? && c.Good? && d.Good?
  {
    hide Spread, Xor, Place42, Place43, Place245;
    var dc := Xor(Place(d, 3), Place(c, 2));
    var dcb := Xor(dc, Place(b, 1));
    XorAssociative(w, Place(d, 3), Place(c, 2));
    XorAssociative(w, dc, Place(b, 1));
    XorAssociative(w, dcb, Place(a, 0));
    XorZero(w);
    XorCancels(w, w, Xor(dcb, Place(a, 0)));
    NewSlips(a, b, c, d);
    XorZero(0);
  }

  /** No choice of misprints over fourteen bytes cancels. */
  lemma NoneCancel(slips: seq<Slip>)
    requires |slips| == 14 && Sum(slips, 0) == 0
    ensures AllGood(slips)
  {
    hide Spread, Clear, Xor, Beyond, Place, Coordinates, Sum;
    PlacesAre(slips, 0);
    CoordinatesOfZero();
    var old1, old2, old3, old4 := slips[1..], slips[2..], slips[3..], slips[4..];
    assert old1[1..] == old2 && old2[1..] == old3 && old3[1..] == old4;
    OldSlips(old4, 4);
    assert Places(old3, 3) == Xor(Places(old4, 4), Place(slips[3], 3));
    assert Places(old2, 2) == Xor(Places(old3, 3), Place(slips[2], 2));
    assert Places(old1, 1) == Xor(Places(old2, 2), Place(slips[1], 1));
    LastFour(Places(old4, 4), slips[0], slips[1], slips[2], slips[3]);
    assert slips == slips[..4] + old4;
  }

  // ---------- the checksum of short messages ----------

  function Goods(n: nat): (slips: seq<Slip>)
    ensures |slips| == n && AllGood(slips)
  {
    seq(n, _ => Good)
  }

  lemma {:induction false} SumOfGoods(slips: seq<Slip>, j: nat)
    requires AllGood(slips)
    ensures Sum(slips, j) == 0
    decreases |slips|
  {
    hide Xor, Shift8;
    if slips != [] {
      SumOfGoods(slips[1..], j + 1);
      ImageOfGood(j);
      XorZero(0);
    }
  }

  lemma ShortDrift(c: bv32, data: seq<bv8>)
    requires |data| < 15
    ensures Drift(c, 0, data) == 0 <==> Hits(c, data) == 0
  {
    hide Drift, Hits, Sum, Slips;
    var before := Goods(14 - |data|);
    SumOfGoods(before, 0);
    DriftIsSum(c, data, before);
    if Drift(c, 0, data) == 0 {
      NoneCancel(Slips(c, data, before));
    } else if Hits(c, data) == 0 {
      SumOfGoods(Slips(c, data, before), 0);
    }
  }

  lemma {:induction false} CleanStart(c: bv32, clean: seq<bv8>, data: seq<bv8>)
    requires Hits(c, clean) == 0
    ensures Drift(c, 0, clean + data) == Drift(Run(Table, c, clean), 0, data)
    ensures Hits(c, clean + data) == Hits(Run(Table, c, clean), data)
    decreases |clean|
  {
    hide Xor, Shift8, Index, Table, Step, Error, Misprint;
    if clean == [] {
      assert clean + data == data;
    } else {
      assert (clean + data)[1..] == clean[1..] + data;
      var i := Index(c, clean[0]);
      ErrorExact(i);
      Shift8OfZero();
      XorZero(0);
      CleanStart(Step(Table, c, clean[0]), clean[1..], data);
    }
  }

  /** From the first misprint on, fewer than fifteen bytes cannot repair the checksum: it is right exactly
      when no byte meets a misprint. */
  lemma ShortExactly(clean: seq<bv8>, data: seq<bv8>)
    requires Hits(0xFFFF_FFFF, clean) == 0 && |data| < 15
    ensures Crc32Of(clean + data) == DivisionCrc(clean + data) <==> Hits(0xFFFF_FFFF, clean + data) == 0
  {
    hide Drift, Hits, Run, Table, Crc32Of, DivisionCrc;
    Crc32Exactly(clean + data);
    CleanStart(0xFFFF_FFFF, clean, data);
    ShortDrift(Run(Table, 0xFFFF_FFFF, clean), data);
  }

  // ---------- fifteen bytes can ----------

  /** A message of fifteen bytes, fourteen of which meet a misprint. */
  const REPAIRED: seq<bv8> :=
    [0x0A, 0xB9, 0x61, 0x9B, 0x4D, 0xC2, 0x2C, 0x00, 0x90, 0xBF, 0xB5, 0x7E, 0x47, 0x7D, 0xDF]

  lemma {:induction false} RunStates(t: bv8 -> bv32, states: seq<bv32>, data: seq<bv8>)
    requires |states| == |data| + 1
    requires forall k :: 0 <= k < |data| ==> Step(t, states[k], data[k]) == states[k + 1]
    ensures Run(t, states[0], data) == states[|data|]
    decreases |data|
  {
    hide Step;
    if data != [] {
      assert forall k :: 0 <= k < |data| - 1 ==> states[1..][k] == states[k + 1] && data[1..][k] == data[k + 1];
      RunStates(t, states[1..], data[1..]);
    }
  }

  lemma {:induction false} SerialStates(states: seq<bv32>, data: seq<bv8>)
    requires |states| == |data| + 1
    requires forall k :: 0 <= k < |data| ==> Shift8(Xor(states[k], data[k] as bv32)) == states[k + 1]
    ensures Serial(states[0], data) == states[|data|]
    decreases |data|
  {
    hide Shift8, Xor;
    if data != [] {
      assert forall k :: 0 <= k < |data| - 1 ==> states[1..][k] == states[k + 1] && data[1..][k] == data[k + 1];
      SerialStates(states[1..], data[1..]);
    }
  }

  lemma RepairedSteps()
    ensures Step(Table, 0xFFFF_FFFF, 0x0A) == 0xCD28_F94C
    ensures Step(Table, 0xCD28_F94C, 0xB9) == 0xCD1A_2E4A
    ensures Step(Table, 0xCD1A_2E4A, 0x61) == 0xAC71_D56E
    ensures Step(Table, 0xAC71_D56E, 0x9B) == 0xCD7B_7766
    ensures Step(Table, 0xCD7B_7766, 0x4D) == 0xAC71_B437
    ensures Step(Table, 0xAC71_B437, 0xC2) == 0xCD7B_7707
    ensures Step(Table, 0xCD7B_7707, 0x2C) == 0xAC71_B437
    ensures Step(Table, 0xAC71_B437, 0x00) == 0xB811_D4BB
    ensures Step(Table, 0xB811_D4BB, 0x90) == 0xAC04_DE94
    ensures Step(Table, 0xAC04_DE94, 0xBF) == 0xAC10_CB9E
    ensures Step(Table, 0xAC10_CB9E, 0xB5) == 0xAC10_DF8B
    ensures Step(Table, 0xAC10_DF8B, 0x7E) == 0xCD7B_166C
    ensures Step(Table, 0xCD7B_166C, 0x47) == 0xAC71_B456
    ensures Step(Table, 0xAC71_B456, 0x7D) == 0xAC10_BEF4
    ensures Step(Table, 0xAC10_BEF4, 0xDF) == 0xAC10_DFFE
  {
  }

  lemma RepairedRun()
    ensures Run(Table, 0xFFFF_FFFF, REPAIRED) == 0xAC10_DFFE
  {
    hide Step, Table, Run;
    RepairedSteps();
    var states: seq<bv32> :=
      [0xFFFF_FFFF, 0xCD28_F94C, 0xCD1A_2E4A, 0xAC71_D56E, 0xCD7B_7766, 0xAC71_B437, 0xCD7B_7707, 0xAC71_B437,
       0xB811_D4BB, 0xAC04_DE94, 0xAC10_CB9E, 0xAC10_DF8B, 0xCD7B_166C, 0xAC71_B456, 0xAC10_BEF4, 0xAC10_DFFE];
    RunStates(Table, states, REPAIRED);
  }

  lemma RepairedShifts()
    ensures Shift8(Xor(0xFFFF_FFFF, 0x0A)) == 0xCD28_F96C
    ensures Shift8(Xor(0xCD28_F96C, 0xB9)) == 0xF674_0EA2
    ensures Shift8(Xor(0xF674_0EA2, 0x61)) == 0x029B_E704
    ensures Shift8(Xor(0x029B_E704, 0x9B)) == 0x60B2_1532
    ensures Shift8(Xor(0x60B2_1532, 0x4D)) == 0xC0DA_DEB8
    ensures Shift8(Xor(0xC0DA_DEB8, 0xC2)) == 0xB010_42FC
    ensures Shift8(Xor(0xB010_42FC, 0x2C)) == 0x8663_C296
    ensures Shift8(Xor(0x8663_C296, 0x00)) == 0x19EA_55B3
    ensures Shift8(Xor(0x19EA_55B3, 0x90)) == 0xA27E_9B27
    ensures Shift8(Xor(0xA27E_9B27, 0xBF)) == 0xFE76_65ED
    ensures Shift8(Xor(0xFE76_65ED, 0xB5)) == 0x654E_AFA3
    ensures Shift8(Xor(0x654E_AFA3, 0x7E)) == 0xF807_E0C6
    ensures Shift8(Xor(0xF807_E0C6, 0x47)) == 0x9A47_B456
    ensures Shift8(Xor(0x9A47_B456, 0x7D)) == 0xAC26_BEF4
    ensures Shift8(Xor(0xAC26_BEF4, 0xDF)) == 0xAC10_DFFE
  {
  }

  lemma RepairedSerial()
    ensures Serial(0xFFFF_FFFF, REPAIRED) == 0xAC10_DFFE
  {
    hide Shift8, Xor, Serial;
    RepairedShifts();
    var states: seq<bv32> :=
      [0xFFFF_FFFF, 0xCD28_F96C, 0xF674_0EA2, 0x029B_E704, 0x60B2_1532, 0xC0DA_DEB8, 0xB010_42FC, 0x8663_C296,
       0x19EA_55B3, 0xA27E_9B27, 0xFE76_65ED, 0x654E_AFA3, 0xF807_E0C6, 0x9A47_B456, 0xAC26_BEF4, 0xAC10_DFFE];
    SerialStates(states, REPAIRED);
  }

  /** The bound is sharp: misprints met over fifteen bytes can cancel, and here they do. */
  lemma FifteenCanCancel()
    ensures |REPAIRED| == 15 && Hits(0xFFFF_FFFF, REPAIRED) >= 2
    ensures Crc32Of(REPAIRED) == DivisionCrc(REPAIRED) == 0x53EF_2001
  {
    assert Index(0xFFFF_FFFF, 0x0A) == 245;
    assert Not(0xAC10_DFFE) == 0x53EF_2001;
    hide Not, Run, Serial, Table, Index, Step;
    RepairedRun();
    RepairedSerial();
    Crc32Exactly(REPAIRED);
    assert Misprint(Index(0xFFFF_FFFF, REPAIRED[0]));
  }
}

