/** `crc32` of the wire runtime: a table-driven loop, the polynomial division it stands for, and the
    errors it detects.  The words here are bit vectors, because everything is exclusive-or and shifts. */
module Crc32 {

  function Row0(low: bv8): bv32 {
    match low
    case 0x0 => 0x00000000
    case 0x1 => 0x77073096
    case 0x2 => 0xEE0E612C
    case 0x3 => 0x990951BA
    case 0x4 => 0x076DC419
    case 0x5 => 0x706AF48F
    case 0x6 => 0xE963A535
    case 0x7 => 0x9E6495A3
    case 0x8 => 0x0EDB8832
    case 0x9 => 0x79DCB8A4
    case 0xA => 0xE0D5E91E
    case 0xB => 0x97D2D988
    case 0xC => 0x09B64C2B
    case 0xD => 0x7EB17CBD
    case 0xE => 0xE7B82D07
    case _ => 0x90BF1D91
  }

  function Row1(low: bv8): bv32 {
    match low
    case 0x0 => 0x1DB71064
    case 0x1 => 0x6AB020F2
    case 0x2 => 0xF3B97148
    case 0x3 => 0x84BE41DE
    case 0x4 => 0x1ADAD47D
    case 0x5 => 0x6DDDE4EB
    case 0x6 => 0xF4D4B551
    case 0x7 => 0x83D385C7
    case 0x8 => 0x136C9856
    case 0x9 => 0x646BA8C0
    case 0xA => 0xFD62F97A
    case 0xB => 0x8A65C9EC
    case 0xC => 0x14015C4F
    case 0xD => 0x63066CD9
    case 0xE => 0xFA0F3D63
    case _ => 0x8D080DF5
  }

  function Row2(low: bv8): bv32 {
    match low
    case 0x0 => 0x3B6E20C8
    case 0x1 => 0x4C69105E
    case 0x2 => 0xD56041E4
    case 0x3 => 0xA2677172
    case 0x4 => 0x3C03E4D1
    case 0x5 => 0x4B04D447
    case 0x6 => 0xD20D85FD
    case 0x7 => 0xA50AB56B
    case 0x8 => 0x35B5A8FA
    case 0x9 => 0x42B2986C
    case 0xA => 0xDBBBBBD6
    case 0xB => 0xACBCCF40
    case 0xC => 0x32D86CE3
    case 0xD => 0x45DF5C75
    case 0xE => 0xDCD60DCF
    case _ => 0xABD13D59
  }

  function Row3(low: bv8): bv32 {
    match low
    case 0x0 => 0x26D930AC
    case 0x1 => 0x51DE003A
    case 0x2 => 0xC8D75180
    case 0x3 => 0xBFD06116
    case 0x4 => 0x21B4F4B5
    case 0x5 => 0x56B3C423
    case 0x6 => 0xCFBA9599
    case 0x7 => 0xB8BDA50F
    case 0x8 => 0x2802B89E
    case 0x9 => 0x5F058808
    case 0xA => 0xC60CD9B2
    case 0xB => 0xB10BE924
    case 0xC => 0x2F6F7C87
    case 0xD => 0x58684C11
    case 0xE => 0xC1611DAB
    case _ => 0xB6662D3D
  }

  function Row4(low: bv8): bv32 {
    match low
    case 0x0 => 0x76DC4190
    case 0x1 => 0x01DB7106
    case 0x2 => 0x98D220BC
    case 0x3 => 0xEFD5102A
    case 0x4 => 0x71B18589
    case 0x5 => 0x06B6B51F
    case 0x6 => 0x9FBFE4A5
    case 0x7 => 0xE8B8D433
    case 0x8 => 0x7807C9A2
    case 0x9 => 0x0F00F934
    case 0xA => 0x9609A88E
    case 0xB => 0xE10E9818
    case 0xC => 0x7F6A0DBB
    case 0xD => 0x086D3D2D
    case 0xE => 0x91646C97
    case _ => 0xE6635C01
  }

  function Row5(low: bv8): bv32 {
    match low
    case 0x0 => 0x6B6B51F4
    case 0x1 => 0x1C6C6162
    case 0x2 => 0x856530D8
    case 0x3 => 0xF262004E
    case 0x4 => 0x6C0695ED
    case 0x5 => 0x1B01A57B
    case 0x6 => 0x8208F4C1
    case 0x7 => 0xF50FC457
    case 0x8 => 0x65B0D9C6
    case 0x9 => 0x12B7E950
    case 0xA => 0x8BBEB8EA
    case 0xB => 0xFCB9887C
    case 0xC => 0x62DD1DDF
    case 0xD => 0x15DA2D49
    case 0xE => 0x8CD37CF3
    case _ => 0xFBD44C65
  }

  function Row6(low: bv8): bv32 {
    match low
    case 0x0 => 0x4DB26158
    case 0x1 => 0x3AB551CE
    case 0x2 => 0xA3BC0074
    case 0x3 => 0xD4BB30E2
    case 0x4 => 0x4ADFA541
    case 0x5 => 0x3DD895D7
    case 0x6 => 0xA4D1C46D
    case 0x7 => 0xD3D6F4FB
    case 0x8 => 0x4369E96A
    case 0x9 => 0x346ED9FC
    case 0xA => 0xAD678846
    case 0xB => 0xDA60B8D0
    case 0xC => 0x44042D73
    case 0xD => 0x33031DE5
    case 0xE => 0xAA0A4C5F
    case _ => 0xDD0D7CC9
  }

  function Row7(low: bv8): bv32 {
    match low
    case 0x0 => 0x5005713C
    case 0x1 => 0x270241AA
    case 0x2 => 0xBE0B1010
    case 0x3 => 0xC90C2086
    case 0x4 => 0x5768B525
    case 0x5 => 0x206F85B3
    case 0x6 => 0xB966D409
    case 0x7 => 0xCE61E49F
    case 0x8 => 0x5EDEF90E
    case 0x9 => 0x29D9C998
    case 0xA => 0xB0D09822
    case 0xB => 0xC7D7A8B4
    case 0xC => 0x59B33D17
    case 0xD => 0x2EB40D81
    case 0xE => 0xB7BD5C3B
    case _ => 0xC0BA6CAD
  }

  function Row8(low: bv8): bv32 {
    match low
    case 0x0 => 0xEDB88320
    case 0x1 => 0x9ABFB3B6
    case 0x2 => 0x03B6E20C
    case 0x3 => 0x74B1D29A
    case 0x4 => 0xEAD54739
    case 0x5 => 0x9DD277AF
    case 0x6 => 0x04DB2615
    case 0x7 => 0x73DC1683
    case 0x8 => 0xE3630B12
    case 0x9 => 0x94643B84
    case 0xA => 0x0D6D6A3E
    case 0xB => 0x7A6A5AA8
    case 0xC => 0xE40ECF0B
    case 0xD => 0x9309FF9D
    case 0xE => 0x0A00AE27
    case _ => 0x7D079EB1
  }

  function Row9(low: bv8): bv32 {
    match low
    case 0x0 => 0xF00F9344
    case 0x1 => 0x8708A3D2
    case 0x2 => 0x1E01F268
    case 0x3 => 0x6906C2FE
    case 0x4 => 0xF762575D
    case 0x5 => 0x806567CB
    case 0x6 => 0x196C3671
    case 0x7 => 0x6E6B06E7
    case 0x8 => 0xFED41B76
    case 0x9 => 0x89D32BE0
    case 0xA => 0x10DA7A5A
    case 0xB => 0x67DD4ACC
    case 0xC => 0xF9B9DF6F
    case 0xD => 0x8EBEEFF9
    case 0xE => 0x17B7BE43
    case _ => 0x60B08ED5
  }

  function RowA(low: bv8): bv32 {
    match low
    case 0x0 => 0xD6D6A3E8
    case 0x1 => 0xA1D1937E
    case 0x2 => 0x38D8C2C4
    case 0x3 => 0x4FDFF252
    case 0x4 => 0xD1BB67F1
    case 0x5 => 0xA6BC5767
    case 0x6 => 0x3FB506DD
    case 0x7 => 0x48B2364B
    case 0x8 => 0xD80D2BDA
    case 0x9 => 0xAF0A1B4C
    case 0xA => 0x36034AF6
    case 0xB => 0x41047A60
    case 0xC => 0xDF60EFC3
    case 0xD => 0xA867DF55
    case 0xE => 0x316E8EEF
    case _ => 0x4669BE79
  }

  function RowB(low: bv8): bv32 {
    match low
    case 0x0 => 0xCB61B38C
    case 0x1 => 0xBC66831A
    case 0x2 => 0x256FD2A0
    case 0x3 => 0x5268E236
    case 0x4 => 0xCC0C7795
    case 0x5 => 0xBB0B4703
    case 0x6 => 0x220216B9
    case 0x7 => 0x5505262F
    case 0x8 => 0xC5BA3BBE
    case 0x9 => 0xB2BD0B28
    case 0xA => 0x2BB45A92
    case 0xB => 0x5CB36A04
    case 0xC => 0xC2D7FFA7
    case 0xD => 0xB5D0CF31
    case 0xE => 0x2CD99E8B
    case _ => 0x5BDEAE1D
  }

  function RowC(low: bv8): bv32 {
    match low
    case 0x0 => 0x9B64C2B0
    case 0x1 => 0xEC63F226
    case 0x2 => 0x756AA39C
    case 0x3 => 0x026D930A
    case 0x4 => 0x9C0906A9
    case 0x5 => 0xEB0E363F
    case 0x6 => 0x72076785
    case 0x7 => 0x05005713
    case 0x8 => 0x95BF4A82
    case 0x9 => 0xE2B87A14
    case 0xA => 0x7BB12BAE
    case 0xB => 0x0CB61B38
    case 0xC => 0x92D28E9B
    case 0xD => 0xE5D5BE0D
    case 0xE => 0x7CDCEFB7
    case _ => 0x0BDBDF21
  }

  function RowD(low: bv8): bv32 {
    match low
    case 0x0 => 0x86D3D2D4
    case 0x1 => 0xF1D4E242
    case 0x2 => 0x68DDB3F8
    case 0x3 => 0x1FDA836E
    case 0x4 => 0x81BE16CD
    case 0x5 => 0xF6B9265B
    case 0x6 => 0x6FB077E1
    case 0x7 => 0x18B74777
    case 0x8 => 0x88085AE6
    case 0x9 => 0xFF0F6A70
    case 0xA => 0x66063BCA
    case 0xB => 0x11010B5C
    case 0xC => 0x8F659EFF
    case 0xD => 0xF862AE69
    case 0xE => 0x616BFFD3
    case _ => 0x166CCF45
  }

  function RowE(low: bv8): bv32 {
    match low
    case 0x0 => 0xA00AE278
    case 0x1 => 0xD70DD2EE
    case 0x2 => 0x4E048354
    case 0x3 => 0x3903B3C2
    case 0x4 => 0xA7672661
    case 0x5 => 0xD06016F7
    case 0x6 => 0x4969474D
    case 0x7 => 0x3E6E77DB
    case 0x8 => 0xAED16A4A
    case 0x9 => 0xD9D65ADC
    case 0xA => 0x40DF0B66
    case 0xB => 0x37D83BF0
    case 0xC => 0xA9BCAE53
    case 0xD => 0xDEBB9EC5
    case 0xE => 0x47B2CF7F
    case _ => 0x30B5FFE9
  }

  function RowF(low: bv8): bv32 {
    match low
    case 0x0 => 0xBDBDF21C
    case 0x1 => 0xCABAC28A
    case 0x2 => 0x53B39330
    case 0x3 => 0x24B4A3A6
    case 0x4 => 0xBAD03605
    case 0x5 => 0xCDD706B3
    case 0x6 => 0x54DE5729
    case 0x7 => 0x23D967BF
    case 0x8 => 0xB3667A2E
    case 0x9 => 0xC4614AB8
    case 0xA => 0x5D681B02
    case 0xB => 0x2A6F2B94
    case 0xC => 0xB40BBE37
    case 0xD => 0xC30C8EA1
    case 0xE => 0x5A05DF1B
    case _ => 0x2D02EF8D
  }

  /** The lookup table as the source spells it: sixteen rows of sixteen literals. */
  function Table(i: bv8): bv32 {
    var low := i & 0xF;
    match i >> 4
    case 0x0 => Row0(low)
    case 0x1 => Row1(low)
    case 0x2 => Row2(low)
    case 0x3 => Row3(low)
    case 0x4 => Row4(low)
    case 0x5 => Row5(low)
    case 0x6 => Row6(low)
    case 0x7 => Row7(low)
    case 0x8 => Row8(low)
    case 0x9 => Row9(low)
    case 0xA => RowA(low)
    case 0xB => RowB(low)
    case 0xC => RowC(low)
    case 0xD => RowD(low)
    case 0xE => RowE(low)
    case _ => RowF(low)
  }

  function Xor(a: bv32, b: bv32): bv32 {
    a ^ b
  }

  function Rest(c: bv32): bv32 {
    c >> 8
  }

  // ---------- the table loop ----------

  function Index(c: bv32, b: bv8): bv8 {
    (Xor(c, b as bv32) & 0xFF) as bv8
  }

  function Step(t: bv8 -> bv32, c: bv32, b: bv8): bv32 {
    Xor(t(Index(c, b)), Rest(c))
  }

  function Run(t: bv8 -> bv32, c: bv32, data: seq<bv8>): bv32
    decreases |data|
  {
    if data == [] then c else Run(t, Step(t, c, data[0]), data[1..])
  }

  method Crc32(data: seq<bv8>) returns (checksum: bv32)
    ensures checksum == Crc32Of(data)
  {
    hide Table, Index, Xor, Rest;
    var crc: bv32 := 0xFFFF_FFFF;
    assert data[0..] == data;
    for i := 0 to |data|
      invariant Run(Table, crc, data[i..]) == Run(Table, 0xFFFF_FFFF, data)
    {
      assert data[i..][1..] == data[i + 1..];
      var index := Index(crc, data[i]);
      crc := Xor(Table(index), Rest(crc));
    }
    checksum := Not(crc);
  }

  function Not(c: bv32): bv32 {
    !c
  }

  function Crc32Of(data: seq<bv8>): bv32 {
    Not(Run(Table, 0xFFFF_FFFF, data))
  }

  // ---------- bit-serial division by the polynomial (section 8 of RFC 1952) ----------

  function Shift1(c: bv32): bv32 {
    if c & 1 == 1 then (c >> 1) ^ 0xEDB88320 else c >> 1
  }

  function Shift2(c: bv32): bv32 {
    Shift1(Shift1(c))
  }

  function Shift4(c: bv32): bv32 {
    Shift2(Shift2(c))
  }

  function Shift8(c: bv32): bv32 {
    Shift4(Shift4(c))
  }

  function Serial(c: bv32, data: seq<bv8>): bv32
    decreases |data|
  {
    if data == [] then c else Serial(Shift8(Xor(c, data[0] as bv32)), data[1..])
  }

  function DivisionCrc(data: seq<bv8>): bv32 {
    Not(Serial(0xFFFF_FFFF, data))
  }

  // ---------- exclusive-or ----------

  lemma XorAssociative(a: bv32, b: bv32, c: bv32)
    ensures Xor(Xor(a, b), c) == Xor(a, Xor(b, c))
  {
  }

  lemma XorCommutes(a: bv32, b: bv32)
    ensures Xor(a, b) == Xor(b, a)
  {
  }

  lemma XorZero(a: bv32)
    ensures Xor(a, 0) == a == Xor(0, a) && Xor(a, a) == 0
  {
  }

  lemma XorCancels(a: bv32, b: bv32, c: bv32)
    requires Xor(a, b) == Xor(a, c)
    ensures b == c
  {
    hide Xor;
    XorAssociative(a, a, b);
    XorAssociative(a, a, c);
    XorZero(a);
    XorZero(b);
    XorZero(c);
  }

  // ---------- one division step is linear and injective ----------

  lemma OddOrEven(c: bv32)
    ensures c & 1 == 0 || c & 1 == 1
  {
  }

  lemma LinearOddOdd(c: bv32, d: bv32)
    requires c & 1 == 1 && d & 1 == 1
    ensures Shift1(Xor(c, d)) == Xor(Shift1(c), Shift1(d))
  {
  }

  lemma LinearOddEven(c: bv32, d: bv32)
    requires c & 1 == 1 && d & 1 == 0
    ensures Shift1(Xor(c, d)) == Xor(Shift1(c), Shift1(d))
  {
  }

  lemma LinearEvenEven(c: bv32, d: bv32)
    requires c & 1 == 0 && d & 1 == 0
    ensures Shift1(Xor(c, d)) == Xor(Shift1(c), Shift1(d))
  {
  }

  lemma Linear(c: bv32, d: bv32)
    ensures Shift1(Xor(c, d)) == Xor(Shift1(c), Shift1(d))
  {
    hide Xor, Shift1;
    OddOrEven(c);
    OddOrEven(d);
    if c & 1 == 1 {
      if d & 1 == 1 { LinearOddOdd(c, d); } else { LinearOddEven(c, d); }
    } else if d & 1 == 1 {
      LinearOddEven(d, c);
      XorCommutes(c, d);
      XorCommutes(Shift1(c), Shift1(d));
    } else {
      LinearEvenEven(c, d);
    }
  }

  lemma Linear2(c: bv32, d: bv32)
    ensures Shift2(Xor(c, d)) == Xor(Shift2(c), Shift2(d))
  {
    hide Xor, Shift1;
    Linear(c, d);
    Linear(Shift1(c), Shift1(d));
  }

  lemma Linear8(c: bv32, d: bv32)
    ensures Shift8(Xor(c, d)) == Xor(Shift8(c), Shift8(d))
  {
    hide Xor, Shift2;
    Linear2(c, d);
    Linear2(Shift2(c), Shift2(d));
    Linear2(Shift4(c), Shift4(d));
    Linear2(Shift2(Shift4(c)), Shift2(Shift4(d)));
  }

  lemma Kernel1(c: bv32)
    requires Shift1(c) == 0
    ensures c == 0
  {
  }

  lemma Kernel2(c: bv32)
    requires Shift2(c) == 0
    ensures c == 0
  {
    hide Shift1;
    Kernel1(Shift1(c));
    Kernel1(c);
  }

  lemma Kernel8(c: bv32)
    requires Shift8(c) == 0
    ensures c == 0
  {
    hide Shift2;
    Kernel2(Shift2(Shift4(c)));
    Kernel2(Shift4(c));
    Kernel2(Shift2(c));
    Kernel2(c);
  }

  lemma Shift8OfZero()
    ensures Shift8(0) == 0
  {
  }

  lemma Shift8OfHigh(c: bv32)
    requires c & 0xFF == 0
    ensures Shift8(c) == Rest(c)
  {
  }

  lemma SplitByte(x: bv32)
    ensures x == Xor(x & 0xFF, x & 0xFFFF_FF00) && (x & 0xFFFF_FF00) & 0xFF == 0 && Rest(x & 0xFFFF_FF00) == Rest(x)
  {
  }

  lemma LowByte(x: bv32)
    ensures x & 0xFF < 256 && ((x & 0xFF) as bv8) as bv32 == x & 0xFF
  {
  }

  lemma RestOfXor(c: bv32, b: bv8)
    ensures Rest(Xor(c, b as bv32)) == Rest(c)
  {
  }

  /** Eight division steps act on the low byte as a table would, and shift the rest. */
  lemma Shift8Splits(c: bv32, b: bv8)
    ensures Shift8(Xor(c, b as bv32)) == Xor(Shift8(Index(c, b) as bv32), Rest(c))
  {
    hide Xor, Shift8, Rest;
    var x := Xor(c, b as bv32);
    SplitByte(x);
    LowByte(x);
    Linear8(x & 0xFF, x & 0xFFFF_FF00);
    Shift8OfHigh(x & 0xFFFF_FF00);
    RestOfXor(c, b);
  }

  // ---------- any table of residues computes the division ----------

  ghost predicate Residues(t: bv8 -> bv32) {
    forall i :: t(i) == Shift8(i as bv32)
  }

  lemma {:induction false} TableLoopIsDivision(t: bv8 -> bv32, c: bv32, data: seq<bv8>)
    requires Residues(t)
    ensures Run(t, c, data) == Serial(c, data)
    decreases |data|
  {
    hide Xor, Shift8, Rest, Index;
    if data != [] {
      Shift8Splits(c, data[0]);
      TableLoopIsDivision(t, Step(t, c, data[0]), data[1..]);
    }
  }

  // ---------- which literals of the table are residues ----------

  lemma Nibbles(low: bv8)
    ensures low & 0xF == low <==> low < 16
  {
  }

  lemma LawRow0(low: bv8)
    requires low < 16
    ensures Row0(low) == Shift8(0x00 | (low as bv32))
  {
    if low < 8 { Nibbles(low); } else { Nibbles(low); }
  }

  lemma LawRow1(low: bv8)
    requires low < 16
    ensures Row1(low) == Shift8(0x10 | (low as bv32))
  {
    if low < 8 { Nibbles(low); } else { Nibbles(low); }
  }

  lemma LawRow2(low: bv8)
    requires low < 16
    ensures Row2(low) == Shift8(0x20 | (low as bv32)) <==> low != 10 && low != 11
  {
    if low < 8 { Nibbles(low); } else { Nibbles(low); }
  }

  lemma LawRow3(low: bv8)
    requires low < 16
    ensures Row3(low) == Shift8(0x30 | (low as bv32))
  {
    if low < 8 { Nibbles(low); } else { Nibbles(low); }
  }

  lemma LawRow4(low: bv8)
    requires low < 16
    ensures Row4(low) == Shift8(0x40 | (low as bv32))
  {
    if low < 8 { Nibbles(low); } else { Nibbles(low); }
  }

  lemma LawRow5(low: bv8)
    requires low < 16
    ensures Row5(low) == Shift8(0x50 | (low as bv32))
  {
    if low < 8 { Nibbles(low); } else { Nibbles(low); }
  }

  lemma LawRow6(low: bv8)
    requires low < 16
    ensures Row6(low) == Shift8(0x60 | (low as bv32))
  {
    if low < 8 { Nibbles(low); } else { Nibbles(low); }
  }

  lemma LawRow7(low: bv8)
    requires low < 16
    ensures Row7(low) == Shift8(0x70 | (low as bv32))
  {
    if low < 8 { Nibbles(low); } else { Nibbles(low); }
  }

  lemma LawRow8(low: bv8)
    requires low < 16
    ensures Row8(low) == Shift8(0x80 | (low as bv32))
  {
    if low < 8 { Nibbles(low); } else { Nibbles(low); }
  }

  lemma LawRow9(low: bv8)
    requires low < 16
    ensures Row9(low) == Shift8(0x90 | (low as bv32))
  {
    if low < 8 { Nibbles(low); } else { Nibbles(low); }
  }

  lemma LawRowA(low: bv8)
    requires low < 16
    ensures RowA(low) == Shift8(0xA0 | (low as bv32))
  {
    if low < 8 { Nibbles(low); } else { Nibbles(low); }
  }

  lemma LawRowB(low: bv8)
    requires low < 16
    ensures RowB(low) == Shift8(0xB0 | (low as bv32))
  {
    if low < 8 { Nibbles(low); } else { Nibbles(low); }
  }

  lemma LawRowC(low: bv8)
    requires low < 16
    ensures RowC(low) == Shift8(0xC0 | (low as bv32))
  {
    if low < 8 { Nibbles(low); } else { Nibbles(low); }
  }

  lemma LawRowD(low: bv8)
    requires low < 16
    ensures RowD(low) == Shift8(0xD0 | (low as bv32))
  {
    if low < 8 { Nibbles(low); } else { Nibbles(low); }
  }

  lemma LawRowE(low: bv8)
    requires low < 16
    ensures RowE(low) == Shift8(0xE0 | (low as bv32))
  {
    if low < 8 { Nibbles(low); } else { Nibbles(low); }
  }

  lemma LawRowF(low: bv8)
    requires low < 16
    ensures RowF(low) == Shift8(0xF0 | (low as bv32)) <==> low != 5
  {
    if low < 8 { Nibbles(low); } else { Nibbles(low); }
  }

  predicate Misprint(i: bv8) {
    i == 42 || i == 43 || i == 245
  }

  lemma ByteFromNibbles(i: bv8)
    ensures (i as bv32) == (((i >> 4) as bv32) << 4) | ((i & 0xF) as bv32)
    ensures i & 0xF < 16 && i >> 4 < 16
    ensures Misprint(i) <==> (i >> 4 == 2 && (i & 0xF == 10 || i & 0xF == 11)) || (i >> 4 == 15 && i & 0xF == 5)
  {
  }

  /** The literal table holds the residue of every index except 42, 43 and 245. */
  lemma TableExact(i: bv8)
    ensures Table(i) == Shift8(i as bv32) <==> !Misprint(i)
  {
    hide Shift8, Row0, Row1, Row2, Row3, Row4, Row5, Row6, Row7, Row8, Row9, RowA, RowB, RowC, RowD, RowE, RowF;
    ByteFromNibbles(i);
    match i >> 4
    case 0x0 => LawRow0(i & 0xF);
    case 0x1 => LawRow1(i & 0xF);
    case 0x2 => LawRow2(i & 0xF);
    case 0x3 => LawRow3(i & 0xF);
    case 0x4 => LawRow4(i & 0xF);
    case 0x5 => LawRow5(i & 0xF);
    case 0x6 => LawRow6(i & 0xF);
    case 0x7 => LawRow7(i & 0xF);
    case 0x8 => LawRow8(i & 0xF);
    case 0x9 => LawRow9(i & 0xF);
    case 0xA => LawRowA(i & 0xF);
    case 0xB => LawRowB(i & 0xF);
    case 0xC => LawRowC(i & 0xF);
    case 0xD => LawRowD(i & 0xF);
    case 0xE => LawRowE(i & 0xF);
    case _ => LawRowF(i & 0xF);
  }

  lemma TableIsNotTheResidues()
    ensures !Residues(Table)
  {
    TableExact(42);
    assert Table(42) != Shift8(42 as bv32);
  }

  // ---------- how far the code is from the division ----------

  /** What an entry of the table is off by. */
  function Error(i: bv8): bv32 {
    Xor(Table(i), Shift8(i as bv32))
  }

  /** The exclusive-or of the code's state and the divider's state, carried along the code's run. */
  function Drift(c: bv32, d: bv32, data: seq<bv8>): bv32
    decreases |data|
  {
    if data == [] then d
    else Drift(Step(Table, c, data[0]), Xor(Shift8(d), Error(Index(c, data[0]))), data[1..])
  }

  lemma XorSwap(c: bv32, d: bv32, b: bv32)
    ensures Xor(Xor(c, d), b) == Xor(Xor(c, b), d)
  {
    hide Xor;
    XorAssociative(c, d, b);
    XorAssociative(c, b, d);
    XorCommutes(d, b);
  }

  lemma XorRegroup(entry: bv32, rest: bv32, residue: bv32, d: bv32)
    ensures Xor(Xor(entry, rest), Xor(d, Xor(entry, residue))) == Xor(Xor(residue, rest), d)
  {
    hide Xor;
    XorCommutes(d, Xor(entry, residue));
    XorAssociative(Xor(entry, rest), Xor(entry, residue), d);
    XorSwap(entry, rest, Xor(entry, residue));
    XorAssociative(entry, entry, residue);
    XorZero(entry);
    XorZero(residue);
  }

  /** The divider steps to the code's next state, off by the next drift. */
  lemma DriftStep(c: bv32, d: bv32, b: bv8)
    ensures Shift8(Xor(Xor(c, d), b as bv32))
         == Xor(Step(Table, c, b), Xor(Shift8(d), Error(Index(c, b))))
  {
    hide Xor, Shift8, Rest, Index, Table;
    var i := Index(c, b);
    XorSwap(c, d, b as bv32);
    Linear8(Xor(c, b as bv32), d);
    Shift8Splits(c, b);
    XorRegroup(Table(i), Rest(c), Shift8(i as bv32), Shift8(d));
  }

  lemma {:induction false} DriftIsTheDifference(c: bv32, d: bv32, data: seq<bv8>)
    ensures Serial(Xor(c, d), data) == Xor(Run(Table, c, data), Drift(c, d, data))
    decreases |data|
  {
    hide Xor, Shift8, Rest, Index, Table, Step, Error;
    if data != [] {
      DriftStep(c, d, data[0]);
      DriftIsTheDifference(Step(Table, c, data[0]), Xor(Shift8(d), Error(Index(c, data[0]))), data[1..]);
    }
  }

  /** How many bytes of a run meet a misprinted entry. */
  function Hits(c: bv32, data: seq<bv8>): nat
    decreases |data|
  {
    if data == [] then 0
    else (if Misprint(Index(c, data[0])) then 1 else 0) + Hits(Step(Table, c, data[0]), data[1..])
  }

  lemma ErrorExact(i: bv8)
    ensures Error(i) == 0 <==> !Misprint(i)
  {
    hide Xor, Shift8, Table, Misprint;
    TableExact(i);
    XorZero(Table(i));
    if Error(i) == 0 { XorCancels(Table(i), Table(i), Shift8(i as bv32)); }
  }

  /** A state difference survives a good entry, and a misprint creates one. */
  lemma DriftKept(d: bv32, i: bv8)
    ensures !Misprint(i) ==> (Xor(Shift8(d), Error(i)) == 0 <==> d == 0)
    ensures Misprint(i) && d == 0 ==> Xor(Shift8(d), Error(i)) != 0
  {
    hide Xor, Shift8, Error, Misprint;
    ErrorExact(i);
    Shift8OfZero();
    XorZero(Shift8(d));
    XorZero(Error(i));
    if Shift8(d) == 0 { Kernel8(d); }
  }

  lemma {:induction false} DriftOfHits(c: bv32, d: bv32, data: seq<bv8>)
    ensures Hits(c, data) == 0 ==> (Drift(c, d, data) == 0 <==> d == 0)
    ensures Hits(c, data) == 1 && d == 0 ==> Drift(c, d, data) != 0
    decreases |data|
  {
    hide Xor, Shift8, Index, Table, Step, Error, Misprint;
    if data != [] {
      var i := Index(c, data[0]);
      DriftKept(d, i);
      DriftOfHits(Step(Table, c, data[0]), Xor(Shift8(d), Error(i)), data[1..]);
    }
  }

  lemma NotNot(a: bv32)
    ensures Not(Not(a)) == a
  {
  }

  /** The checksum is the IEEE CRC-32 exactly when the drift is zero: always when no byte meets a
      misprint, never when exactly one does. */
  lemma Crc32Exactly(data: seq<bv8>)
    ensures Crc32Of(data) == DivisionCrc(data) <==> Drift(0xFFFF_FFFF, 0, data) == 0
    ensures Hits(0xFFFF_FFFF, data) == 0 ==> Crc32Of(data) == DivisionCrc(data)
    ensures Hits(0xFFFF_FFFF, data) == 1 ==> Crc32Of(data) != DivisionCrc(data)
  {
    hide Xor, Drift, Run, Serial, Hits, Table, Not;
    var c: bv32 := 0xFFFF_FFFF;
    var r, drift := Run(Table, c, data), Drift(c, 0, data);
    DriftIsTheDifference(c, 0, data);
    DriftOfHits(c, 0, data);
    XorZero(c);
    XorZero(r);
    NotNot(r);
    NotNot(Serial(c, data));
    if r == Serial(c, data) { XorCancels(r, 0, drift); }
  }

  lemma {:induction false} HitsConcat(c: bv32, a: seq<bv8>, b: seq<bv8>)
    ensures Hits(c, a + b) == Hits(c, a) + Hits(Run(Table, c, a), b)
    decreases |a|
  {
    hide Misprint, Index, Step, Table;
    if a == [] {
      assert a + b == b;
    } else {
      assert (a + b)[1..] == a[1..] + b;
      HitsConcat(Step(Table, c, a[0]), a[1..], b);
    }
  }

  lemma {:induction false} FirstHit(c: bv32, data: seq<bv8>) returns (n: nat)
    requires Hits(c, data) > 0
    ensures n <= |data| && Hits(c, data[..n]) == 1
    decreases |data|
  {
    hide Misprint, Index, Step, Table;
    var next := Step(Table, c, data[0]);
    if Misprint(Index(c, data[0])) {
      n := 1;
      assert data[..1][1..] == [];
    } else {
      n := FirstHit(next, data[1..]);
      n := n + 1;
      assert data[..n][1..] == data[1..][..n - 1];
    }
  }

  /** Every prefix has the IEEE checksum exactly when no byte meets a misprint: the first one that does is
      seen at once, whether or not later ones hide it again. */
  lemma PrefixesExactly(data: seq<bv8>)
    ensures (forall n :: 0 <= n <= |data| ==> Crc32Of(data[..n]) == DivisionCrc(data[..n]))
       <==> Hits(0xFFFF_FFFF, data) == 0
  {
    hide Crc32Of, DivisionCrc, Drift, Hits, Run, Table;
    if Hits(0xFFFF_FFFF, data) == 0 {
      forall n | 0 <= n <= |data|
        ensures Crc32Of(data[..n]) == DivisionCrc(data[..n])
      {
        assert data == data[..n] + data[n..];
        HitsConcat(0xFFFF_FFFF, data[..n], data[n..]);
        Crc32Exactly(data[..n]);
      }
    } else {
      var n := FirstHit(0xFFFF_FFFF, data);
      Crc32Exactly(data[..n]);
    }
  }

  /** The one-byte message 0xD5 meets entry 42 and gets a checksum other than CRC-32. */
  lemma MisprintSeen()
    ensures Crc32Of([0xD5]) != DivisionCrc([0xD5])
  {
    hide Crc32Of, DivisionCrc, Drift, Table;
    var data: seq<bv8> := [0xD5];
    assert Index(0xFFFF_FFFF, data[0]) == 42;
    assert data[1..] == [];
    assert Hits(Step(Table, 0xFFFF_FFFF, data[0]), []) == 0;
    Crc32Exactly(data);
  }

  // ---------- error detection ----------

  function Top(c: bv32): bv32 {
    c >> 24
  }

  /** The top bytes of the table are a permutation. */
  ghost predicate TopsDistinct(t: bv8 -> bv32) {
    forall i, j :: Top(t(i)) == Top(t(j)) ==> i == j
  }

  lemma Shift8Tops(c: bv32, d: bv32)
    requires c < 256 && d < 256 && Top(Shift8(c)) == Top(Shift8(d))
    ensures c == d
  {
  }

  /** A misprint leaves the top byte of its entry alone. */
  lemma TopOfTable(i: bv8)
    ensures Top(Table(i)) == Top(Shift8(i as bv32))
  {
    TableExact(i);
    if Misprint(i) {
      assert Table(42) == 0xDBBBBBD6 && Shift8(42) == 0xDBBBC9D6;
      assert Table(43) == 0xACBCCF40 && Shift8(43) == 0xACBCF940;
      assert Table(245) == 0xCDD706B3 && Shift8(245) == 0xCDD70693;
    }
  }

  lemma ByteAsWord(i: bv8, j: bv8)
    ensures i as bv32 < 256 && (i as bv32 == j as bv32 <==> i == j)
  {
  }

  lemma TableTopsDistinct()
    ensures TopsDistinct(Table)
  {
    hide Table, Shift8, Top;
    forall i, j | Top(Table(i)) == Top(Table(j))
      ensures i == j
    {
      TopOfTable(i);
      TopOfTable(j);
      ByteAsWord(i, j);
      ByteAsWord(j, i);
      Shift8Tops(i as bv32, j as bv32);
    }
  }

  /** The part of a state above its k low bytes. */
  function Above(c: bv32, k: nat): bv32 {
    if k == 0 then c else if k == 1 then c >> 8 else if k == 2 then c >> 16 else if k == 3 then c >> 24 else 0
  }

  lemma TopAbove(x: bv32, y: bv32, k: nat)
    requires k <= 3 && Above(x, k) == Above(y, k)
    ensures Top(x) == Top(y)
  {
  }

  lemma TopOfStep(entry: bv32, c: bv32)
    ensures Top(Xor(entry, Rest(c))) == Top(entry)
  {
  }

  lemma XorIs(a: bv32, b: bv32)
    ensures Xor(a, b) == a ^ b
  {
  }

  lemma ShiftDistributes8(a: bv32, b: bv32)
    ensures (a ^ b) >> 8 == (a >> 8) ^ (b >> 8)
  {
  }

  lemma ShiftOfXor8(a: bv32, b: bv32)
    ensures Xor(a, b) >> 8 == Xor(a >> 8, b >> 8)
  {
    hide Xor;
    XorIs(a, b);
    XorIs(a >> 8, b >> 8);
    ShiftDistributes8(a, b);
  }

  lemma ShiftDistributes16(a: bv32, b: bv32)
    ensures (a ^ b) >> 16 == (a >> 16) ^ (b >> 16)
  {
  }

  lemma ShiftOfXor16(a: bv32, b: bv32)
    ensures Xor(a, b) >> 16 == Xor(a >> 16, b >> 16)
  {
    hide Xor;
    XorIs(a, b);
    XorIs(a >> 16, b >> 16);
    ShiftDistributes16(a, b);
  }

  lemma ShiftDistributes24(a: bv32, b: bv32)
    ensures (a ^ b) >> 24 == (a >> 24) ^ (b >> 24)
  {
  }

  lemma ShiftOfXor24(a: bv32, b: bv32)
    ensures Xor(a, b) >> 24 == Xor(a >> 24, b >> 24)
  {
    hide Xor;
    XorIs(a, b);
    XorIs(a >> 24, b >> 24);
    ShiftDistributes24(a, b);
  }

  lemma AboveOfXor(a: bv32, b: bv32, k: nat)
    ensures Above(Xor(a, b), k) == Xor(Above(a, k), Above(b, k))
  {
    hide Xor;
    ShiftOfXor8(a, b);
    ShiftOfXor16(a, b);
    ShiftOfXor24(a, b);
    XorZero(0);
  }

  lemma ShiftOfRest1(c: bv32)
    ensures Rest(c) >> 8 == c >> 16
  {
  }

  lemma ShiftOfRest2(c: bv32)
    ensures Rest(c) >> 16 == c >> 24
  {
  }

  lemma ShiftOfRest3(c: bv32)
    ensures Rest(c) >> 24 == 0
  {
  }

  lemma RestIsShift(c: bv32)
    ensures Rest(c) == c >> 8
  {
  }

  lemma AboveOfRest(c: bv32, k: nat)
    requires k <= 3
    ensures Above(Rest(c), k) == Above(c, k + 1)
  {
    hide Rest;
    RestIsShift(c);
    ShiftOfRest1(c);
    ShiftOfRest2(c);
    ShiftOfRest3(c);
  }

  lemma RestAbove(entry: bv32, c1: bv32, c2: bv32, k: nat)
    requires k <= 3 && Above(Xor(entry, Rest(c1)), k) == Above(Xor(entry, Rest(c2)), k)
    ensures Above(c1, k + 1) == Above(c2, k + 1)
  {
    hide Xor, Above, Rest;
    AboveOfXor(entry, Rest(c1), k);
    AboveOfXor(entry, Rest(c2), k);
    XorCancels(Above(entry, k), Above(Rest(c1), k), Above(Rest(c2), k));
    AboveOfRest(c1, k);
    AboveOfRest(c2, k);
  }

  /** One step backwards: equal high bytes after it mean equal table indices, and one more equal
      byte before it. */
  lemma StepBack(t: bv8 -> bv32, c1: bv32, b1: bv8, c2: bv32, b2: bv8, k: nat)
    requires TopsDistinct(t) && k <= 3
    requires Above(Step(t, c1, b1), k) == Above(Step(t, c2, b2), k)
    ensures Index(c1, b1) == Index(c2, b2) && Above(c1, k + 1) == Above(c2, k + 1)
  {
    hide Xor, Above, Rest, Index, Top;
    TopAbove(Step(t, c1, b1), Step(t, c2, b2), k);
    TopOfStep(t(Index(c1, b1)), c1);
    TopOfStep(t(Index(c2, b2)), c2);
    RestAbove(t(Index(c1, b1)), c1, c2, k);
  }

  lemma SameIndex(c: bv32, b1: bv8, b2: bv8)
    requires Index(c, b1) == Index(c, b2)
    ensures b1 == b2
  {
    hide Xor;
    LowByte(Xor(c, b1 as bv32));
    LowByte(Xor(c, b2 as bv32));
    ByteAsWord(b1, b2);
    ByteAsWord(b2, b1);
    SameLowByte(c, b1 as bv32, b2 as bv32);
  }

  lemma SameLowByte(c: bv32, b1: bv32, b2: bv32)
    requires b1 < 256 && b2 < 256 && Xor(c, b1) & 0xFF == Xor(c, b2) & 0xFF
    ensures b1 == b2
  {
  }

  lemma SameState(c1: bv32, c2: bv32, b: bv8)
    requires Index(c1, b) == Index(c2, b) && Above(c1, 1) == Above(c2, 1)
    ensures c1 == c2
  {
    hide Xor;
    LowByte(Xor(c1, b as bv32));
    LowByte(Xor(c2, b as bv32));
    SameParts(c1, c2, b as bv32);
  }

  lemma SameParts(c1: bv32, c2: bv32, b: bv32)
    requires Xor(c1, b) & 0xFF == Xor(c2, b) & 0xFF && c1 >> 8 == c2 >> 8
    ensures c1 == c2
  {
  }

  lemma {:induction false} WindowDetermined(t: bv8 -> bv32, c1: bv32, c2: bv32, w1: seq<bv8>, w2: seq<bv8>, k: nat)
    requires TopsDistinct(t) && |w1| == |w2| && k + |w1| <= 4
    requires Above(Run(t, c1, w1), k) == Above(Run(t, c2, w2), k)
    ensures Above(c1, k + |w1|) == Above(c2, k + |w2|)
    ensures c1 == c2 ==> w1 == w2
    decreases |w1|
  {
    hide Above, Step, Index;
    if w1 != [] {
      var s1, s2 := Step(t, c1, w1[0]), Step(t, c2, w2[0]);
      WindowDetermined(t, s1, s2, w1[1..], w2[1..], k);
      StepBack(t, c1, w1[0], c2, w2[0], k + |w1| - 1);
      if c1 == c2 {
        SameIndex(c1, w1[0], w2[0]);
        assert w1 == [w1[0]] + w1[1..] && w2 == [w2[0]] + w2[1..];
      }
    }
  }

  lemma {:induction false} SuffixInjective(t: bv8 -> bv32, c1: bv32, c2: bv32, suffix: seq<bv8>)
    requires TopsDistinct(t) && Run(t, c1, suffix) == Run(t, c2, suffix)
    ensures c1 == c2
    decreases |suffix|
  {
    hide Step, Index;
    if suffix != [] {
      SuffixInjective(t, Step(t, c1, suffix[0]), Step(t, c2, suffix[0]), suffix[1..]);
      StepBack(t, c1, suffix[0], c2, suffix[0], 0);
      SameState(c1, c2, suffix[0]);
    }
  }

  lemma {:induction false} RunConcat(t: bv8 -> bv32, c: bv32, a: seq<bv8>, b: seq<bv8>)
    ensures Run(t, c, a + b) == Run(t, Run(t, c, a), b)
    decreases |a|
  {
    hide Step;
    if a == [] {
      assert a + b == b;
    } else {
      assert (a + b)[1..] == a[1..] + b;
      RunConcat(t, Step(t, c, a[0]), a[1..], b);
    }
  }

  /** Every error confined to four consecutive bytes is detected, misprints and all. */
  lemma BurstDetected(prefix: seq<bv8>, w1: seq<bv8>, w2: seq<bv8>, suffix: seq<bv8>)
    requires |w1| == |w2| <= 4 && w1 != w2
    ensures Crc32Of(prefix + w1 + suffix) != Crc32Of(prefix + w2 + suffix)
  {
    hide Run, Table, Not, Above;
    var c := Run(Table, 0xFFFF_FFFF, prefix);
    TableTopsDistinct();
    RunConcat(Table, 0xFFFF_FFFF, prefix + w1, suffix);
    RunConcat(Table, 0xFFFF_FFFF, prefix + w2, suffix);
    RunConcat(Table, 0xFFFF_FFFF, prefix, w1);
    RunConcat(Table, 0xFFFF_FFFF, prefix, w2);
    var s1, s2 := Run(Table, c, w1), Run(Table, c, w2);
    NotNot(Run(Table, s1, suffix));
    NotNot(Run(Table, s2, suffix));
    if Run(Table, s1, suffix) == Run(Table, s2, suffix) {
      SuffixInjective(Table, s1, s2, suffix);
      WindowDetermined(Table, c, c, w1, w2, 0);
    }
  }
}
