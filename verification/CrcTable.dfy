/** The 256-entry table of `lib/crc.c`, by rows of sixteen; the C array is indexed by one byte. A
    lookup advances the register by eight bits. */
module CrcTable {
  import opened CrcBits
  import opened CrcRegister

  function Row0(low: bv8): bv32 {
    match low
    case 0 => 0x00000000 case 1 => 0x77073096 case 2 => 0xEE0E612C case 3 => 0x990951BA
    case 4 => 0x076DC419 case 5 => 0x706AF48F case 6 => 0xE963A535 case 7 => 0x9E6495A3
    case 8 => 0x0EDB8832 case 9 => 0x79DCB8A4 case 10 => 0xE0D5E91E case 11 => 0x97D2D988
    case 12 => 0x09B64C2B case 13 => 0x7EB17CBD case 14 => 0xE7B82D07 case _ => 0x90BF1D91
  }

  function Row1(low: bv8): bv32 {
    match low
    case 0 => 0x1DB71064 case 1 => 0x6AB020F2 case 2 => 0xF3B97148 case 3 => 0x84BE41DE
    case 4 => 0x1ADAD47D case 5 => 0x6DDDE4EB case 6 => 0xF4D4B551 case 7 => 0x83D385C7
    case 8 => 0x136C9856 case 9 => 0x646BA8C0 case 10 => 0xFD62F97A case 11 => 0x8A65C9EC
    case 12 => 0x14015C4F case 13 => 0x63066CD9 case 14 => 0xFA0F3D63 case _ => 0x8D080DF5
  }

  function Row2(low: bv8): bv32 {
    match low
    case 0 => 0x3B6E20C8 case 1 => 0x4C69105E case 2 => 0xD56041E4 case 3 => 0xA2677172
    case 4 => 0x3C03E4D1 case 5 => 0x4B04D447 case 6 => 0xD20D85FD case 7 => 0xA50AB56B
    case 8 => 0x35B5A8FA case 9 => 0x42B2986C case 10 => 0xDBBBC9D6 case 11 => 0xACBCF940
    case 12 => 0x32D86CE3 case 13 => 0x45DF5C75 case 14 => 0xDCD60DCF case _ => 0xABD13D59
  }

  function Row3(low: bv8): bv32 {
    match low
    case 0 => 0x26D930AC case 1 => 0x51DE003A case 2 => 0xC8D75180 case 3 => 0xBFD06116
    case 4 => 0x21B4F4B5 case 5 => 0x56B3C423 case 6 => 0xCFBA9599 case 7 => 0xB8BDA50F
    case 8 => 0x2802B89E case 9 => 0x5F058808 case 10 => 0xC60CD9B2 case 11 => 0xB10BE924
    case 12 => 0x2F6F7C87 case 13 => 0x58684C11 case 14 => 0xC1611DAB case _ => 0xB6662D3D
  }

  function Row4(low: bv8): bv32 {
    match low
    case 0 => 0x76DC4190 case 1 => 0x01DB7106 case 2 => 0x98D220BC case 3 => 0xEFD5102A
    case 4 => 0x71B18589 case 5 => 0x06B6B51F case 6 => 0x9FBFE4A5 case 7 => 0xE8B8D433
    case 8 => 0x7807C9A2 case 9 => 0x0F00F934 case 10 => 0x9609A88E case 11 => 0xE10E9818
    case 12 => 0x7F6A0DBB case 13 => 0x086D3D2D case 14 => 0x91646C97 case _ => 0xE6635C01
  }

  function Row5(low: bv8): bv32 {
    match low
    case 0 => 0x6B6B51F4 case 1 => 0x1C6C6162 case 2 => 0x856530D8 case 3 => 0xF262004E
    case 4 => 0x6C0695ED case 5 => 0x1B01A57B case 6 => 0x8208F4C1 case 7 => 0xF50FC457
    case 8 => 0x65B0D9C6 case 9 => 0x12B7E950 case 10 => 0x8BBEB8EA case 11 => 0xFCB9887C
    case 12 => 0x62DD1DDF case 13 => 0x15DA2D49 case 14 => 0x8CD37CF3 case _ => 0xFBD44C65
  }

  function Row6(low: bv8): bv32 {
    match low
    case 0 => 0x4DB26158 case 1 => 0x3AB551CE case 2 => 0xA3BC0074 case 3 => 0xD4BB30E2
    case 4 => 0x4ADFA541 case 5 => 0x3DD895D7 case 6 => 0xA4D1C46D case 7 => 0xD3D6F4FB
    case 8 => 0x4369E96A case 9 => 0x346ED9FC case 10 => 0xAD678846 case 11 => 0xDA60B8D0
    case 12 => 0x44042D73 case 13 => 0x33031DE5 case 14 => 0xAA0A4C5F case _ => 0xDD0D7CC9
  }

  function Row7(low: bv8): bv32 {
    match low
    case 0 => 0x5005713C case 1 => 0x270241AA case 2 => 0xBE0B1010 case 3 => 0xC90C2086
    case 4 => 0x5768B525 case 5 => 0x206F85B3 case 6 => 0xB966D409 case 7 => 0xCE61E49F
    case 8 => 0x5EDEF90E case 9 => 0x29D9C998 case 10 => 0xB0D09822 case 11 => 0xC7D7A8B4
    case 12 => 0x59B33D17 case 13 => 0x2EB40D81 case 14 => 0xB7BD5C3B case _ => 0xC0BA6CAD
  }

  function Row8(low: bv8): bv32 {
    match low
    case 0 => 0xEDB88320 case 1 => 0x9ABFB3B6 case 2 => 0x03B6E20C case 3 => 0x74B1D29A
    case 4 => 0xEAD54739 case 5 => 0x9DD277AF case 6 => 0x04DB2615 case 7 => 0x73DC1683
    case 8 => 0xE3630B12 case 9 => 0x94643B84 case 10 => 0x0D6D6A3E case 11 => 0x7A6A5AA8
    case 12 => 0xE40ECF0B case 13 => 0x9309FF9D case 14 => 0x0A00AE27 case _ => 0x7D079EB1
  }

  function Row9(low: bv8): bv32 {
    match low
    case 0 => 0xF00F9344 case 1 => 0x8708A3D2 case 2 => 0x1E01F268 case 3 => 0x6906C2FE
    case 4 => 0xF762575D case 5 => 0x806567CB case 6 => 0x196C3671 case 7 => 0x6E6B06E7
    case 8 => 0xFED41B76 case 9 => 0x89D32BE0 case 10 => 0x10DA7A5A case 11 => 0x67DD4ACC
    case 12 => 0xF9B9DF6F case 13 => 0x8EBEEFF9 case 14 => 0x17B7BE43 case _ => 0x60B08ED5
  }

  function RowA(low: bv8): bv32 {
    match low
    case 0 => 0xD6D6A3E8 case 1 => 0xA1D1937E case 2 => 0x38D8C2C4 case 3 => 0x4FDFF252
    case 4 => 0xD1BB67F1 case 5 => 0xA6BC5767 case 6 => 0x3FB506DD case 7 => 0x48B2364B
    case 8 => 0xD80D2BDA case 9 => 0xAF0A1B4C case 10 => 0x36034AF6 case 11 => 0x41047A60
    case 12 => 0xDF60EFC3 case 13 => 0xA867DF55 case 14 => 0x316E8EEF case _ => 0x4669BE79
  }

  function RowB(low: bv8): bv32 {
    match low
    case 0 => 0xCB61B38C case 1 => 0xBC66831A case 2 => 0x256FD2A0 case 3 => 0x5268E236
    case 4 => 0xCC0C7795 case 5 => 0xBB0B4703 case 6 => 0x220216B9 case 7 => 0x5505262F
    case 8 => 0xC5BA3BBE case 9 => 0xB2BD0B28 case 10 => 0x2BB45A92 case 11 => 0x5CB36A04
    case 12 => 0xC2D7FFA7 case 13 => 0xB5D0CF31 case 14 => 0x2CD99E8B case _ => 0x5BDEAE1D
  }

  function RowC(low: bv8): bv32 {
    match low
    case 0 => 0x9B64C2B0 case 1 => 0xEC63F226 case 2 => 0x756AA39C case 3 => 0x026D930A
    case 4 => 0x9C0906A9 case 5 => 0xEB0E363F case 6 => 0x72076785 case 7 => 0x05005713
    case 8 => 0x95BF4A82 case 9 => 0xE2B87A14 case 10 => 0x7BB12BAE case 11 => 0x0CB61B38
    case 12 => 0x92D28E9B case 13 => 0xE5D5BE0D case 14 => 0x7CDCEFB7 case _ => 0x0BDBDF21
  }

  function RowD(low: bv8): bv32 {
    match low
    case 0 => 0x86D3D2D4 case 1 => 0xF1D4E242 case 2 => 0x68DDB3F8 case 3 => 0x1FDA836E
    case 4 => 0x81BE16CD case 5 => 0xF6B9265B case 6 => 0x6FB077E1 case 7 => 0x18B74777
    case 8 => 0x88085AE6 case 9 => 0xFF0F6A70 case 10 => 0x66063BCA case 11 => 0x11010B5C
    case 12 => 0x8F659EFF case 13 => 0xF862AE69 case 14 => 0x616BFFD3 case _ => 0x166CCF45
  }

  function RowE(low: bv8): bv32 {
    match low
    case 0 => 0xA00AE278 case 1 => 0xD70DD2EE case 2 => 0x4E048354 case 3 => 0x3903B3C2
    case 4 => 0xA7672661 case 5 => 0xD06016F7 case 6 => 0x4969474D case 7 => 0x3E6E77DB
    case 8 => 0xAED16A4A case 9 => 0xD9D65ADC case 10 => 0x40DF0B66 case 11 => 0x37D83BF0
    case 12 => 0xA9BCAE53 case 13 => 0xDEBB9EC5 case 14 => 0x47B2CF7F case _ => 0x30B5FFE9
  }

  function RowF(low: bv8): bv32 {
    match low
    case 0 => 0xBDBDF21C case 1 => 0xCABAC28A case 2 => 0x53B39330 case 3 => 0x24B4A3A6
    case 4 => 0xBAD03605 case 5 => 0xCDD70693 case 6 => 0x54DE5729 case 7 => 0x23D967BF
    case 8 => 0xB3667A2E case 9 => 0xC4614AB8 case 10 => 0x5D681B02 case 11 => 0x2A6F2B94
    case 12 => 0xB40BBE37 case 13 => 0xC30C8EA1 case 14 => 0x5A05DF1B case _ => 0x2D02EF8D
  }

  function CrcTable(index: bv8): bv32 {
    var low := index & 0xF;
    match index >> 4
    case 0 => Row0(low)
    case 1 => Row1(low)
    case 2 => Row2(low)
    case 3 => Row3(low)
    case 4 => Row4(low)
    case 5 => Row5(low)
    case 6 => Row6(low)
    case 7 => Row7(low)
    case 8 => Row8(low)
    case 9 => Row9(low)
    case 10 => RowA(low)
    case 11 => RowB(low)
    case 12 => RowC(low)
    case 13 => RowD(low)
    case 14 => RowE(low)
    case _ => RowF(low)
  }

  function Shift1(c: bv32): bv32 {
    (c >> 1) ^ (POLY & (0 - (c & 1)))
  }

  /** Eight one-bit steps, written out. */
  function Shift8(c: bv32): bv32 {
    var c1 := (c >> 1) ^ (POLY & (0 - (c & 1)));
    var c2 := (c1 >> 1) ^ (POLY & (0 - (c1 & 1)));
    var c3 := (c2 >> 1) ^ (POLY & (0 - (c2 & 1)));
    var c4 := (c3 >> 1) ^ (POLY & (0 - (c3 & 1)));
    var c5 := (c4 >> 1) ^ (POLY & (0 - (c4 & 1)));
    var c6 := (c5 >> 1) ^ (POLY & (0 - (c5 & 1)));
    var c7 := (c6 >> 1) ^ (POLY & (0 - (c6 & 1)));
    (c7 >> 1) ^ (POLY & (0 - (c7 & 1)))
  }

  lemma RowsFrom0(low: bv8)
    requires low < 16
    ensures Row0(low) == Shift8(0x00 | (low as bv32))
    ensures Row1(low) == Shift8(0x10 | (low as bv32))
    ensures Row2(low) == Shift8(0x20 | (low as bv32))
    ensures Row3(low) == Shift8(0x30 | (low as bv32))
  {}

  lemma RowsFrom4(low: bv8)
    requires low < 16
    ensures Row4(low) == Shift8(0x40 | (low as bv32))
    ensures Row5(low) == Shift8(0x50 | (low as bv32))
    ensures Row6(low) == Shift8(0x60 | (low as bv32))
    ensures Row7(low) == Shift8(0x70 | (low as bv32))
  {}

  lemma RowsFrom8(low: bv8)
    requires low < 16
    ensures Row8(low) == Shift8(0x80 | (low as bv32))
    ensures Row9(low) == Shift8(0x90 | (low as bv32))
    ensures RowA(low) == Shift8(0xA0 | (low as bv32))
    ensures RowB(low) == Shift8(0xB0 | (low as bv32))
  {}

  lemma RowsFromC(low: bv8)
    requires low < 16
    ensures RowC(low) == Shift8(0xC0 | (low as bv32))
    ensures RowD(low) == Shift8(0xD0 | (low as bv32))
    ensures RowE(low) == Shift8(0xE0 | (low as bv32))
    ensures RowF(low) == Shift8(0xF0 | (low as bv32))
  {}

  /** Every table entry is eight one-bit division steps of its index. */
  lemma TableIsEightSteps(i: bv8)
    ensures CrcTable(i) == Shift8(i as bv32)
  {
    var low := i & 0xF;
    RowsFrom0(low);
    RowsFrom4(low);
    RowsFrom8(low);
    RowsFromC(low);
  }

  lemma ShiftAtMask(c: bv32, m: bv32)
    requires m & (m - 1) == 0
    ensures (((c >> 1) ^ (POLY & (0 - (c & 1)))) & m != 0)
            == ((c & (m << 1) != 0) != (c & 1 != 0 && POLY & m != 0))
  {}

  lemma ShiftBit(c: bv32, i: nat)
    requires i < 32
    ensures Bit(Shift1(c), i) == ((i < 31 && Bit(c, i + 1)) != (c & 1 != 0 && Bit(POLY, i)))
  {
    MaskOneHot(i);
    ShiftAtMask(c, Mask(i));
    MaskBounds();
  }

  lemma StepOfWord(c: bv32)
    ensures Step(WordBits(c), false) == WordBits(Shift1(c))
  {
    forall i | 0 <= i < 32
      ensures Step(WordBits(c), false)[i] == WordBits(Shift1(c))[i]
    {
      ShiftBit(c, i);
      assert Mask(0) == 1;
      assert LOWER[i] == Bit(POLY, i);
    }
  }

  lemma XorOfWords(c: bv32, d: bv32)
    ensures AddFront(WordBits(c), WordBits(d)) == WordBits(c ^ d)
  {
    forall i | 0 <= i < 32
      ensures AddFront(WordBits(c), WordBits(d))[i] == WordBits(c ^ d)[i]
    {
      XorBit(c, d, i);
    }
  }

  lemma {:induction false} HighMask(i: nat)
    requires i >= 8
    ensures Mask(i) & 0xFF == 0
  {
    if i == 8 {
      MaskBounds();
    } else {
      HighMask(i - 1);
      assert Mask(i - 1) & 0xFF == 0 ==> (Mask(i - 1) << 1) & 0xFF == 0;
    }
  }

  lemma NoHighBits(b: bv8, m: bv32)
    requires m & 0xFF == 0
    ensures (b as bv32) & m == 0
  {}

  lemma BitsOfByte(b: bv8, w: bv32)
    requires w == b as bv32
    ensures forall i | 0 <= i < 32 :: WordBits(w)[i] == (i < 8 && ByteBits(b)[i])
  {
    forall i | 8 <= i < 32
      ensures !Bit(w, i)
    {
      HighMask(i);
      NoHighBits(b, Mask(i));
    }
  }

  lemma AddShort(r: Poly, w: Poly, p: Poly)
    requires |r| == |w| == 32 && |p| <= 32
    requires forall i | 0 <= i < 32 :: w[i] == (i < |p| && p[i])
    ensures AddFront(r, w) == AddFront(r, p)
  {
    assert forall i | 0 <= i < 32 :: AddFront(r, w)[i] == AddFront(r, p)[i];
  }

  lemma AddByte(c: bv32, b: bv8)
    ensures AddFront(WordBits(c), ByteBits(b)) == WordBits(c ^ (b as bv32))
  {
    XorOfWords(c, b as bv32);
    BitsOfByte(b, b as bv32);
    AddShort(WordBits(c), WordBits(b as bv32), ByteBits(b));
  }

  lemma ZeroStep(c: bv32, n: nat)
    requires n > 0
    ensures Run(WordBits(c), Zeros(n)) == Run(WordBits(Shift1(c)), Zeros(n - 1))
  {
    assert Zeros(n)[1..] == Zeros(n - 1);
    StepOfWord(c);
  }

  lemma FourSteps(c: bv32, n: nat)
    requires n >= 4
    ensures Run(WordBits(c), Zeros(n)) == Run(WordBits(Shift1(Shift1(Shift1(Shift1(c))))), Zeros(n - 4))
  {
    ZeroStep(c, n);
    ZeroStep(Shift1(c), n - 1);
    ZeroStep(Shift1(Shift1(c)), n - 2);
    ZeroStep(Shift1(Shift1(Shift1(c))), n - 3);
  }

  lemma ShiftEight(c: bv32)
    ensures Shift1(Shift1(Shift1(Shift1(Shift1(Shift1(Shift1(Shift1(c)))))))) == Shift8(c)
  {}

  /** Feeding a byte bit by bit is Shift8 of the register with the byte added to it. */
  lemma EightSteps(c: bv32, b: bv8, x: bv32)
    requires x == c ^ (b as bv32)
    ensures Run(WordBits(c), ByteBits(b)) == WordBits(Shift8(x))
  {
    RunPreloaded(WordBits(c), ByteBits(b));
    AddByte(c, b);
    FourSteps(x, 8);
    FourSteps(Shift1(Shift1(Shift1(Shift1(x)))), 4);
    ShiftEight(x);
  }

  lemma SplitLookup(c: bv32, b: bv8)
    ensures (c >> 8) ^ Shift8((((c & 0xFF) as bv8) ^ b) as bv32) == Shift8(c ^ (b as bv32))
  {}

  /** One table lookup advances the register by the eight bits of one byte. */
  lemma TableStep(c: bv32, b: bv8, entry: bv32)
    requires entry == Shift8((((c & 0xFF) as bv8) ^ b) as bv32)
    ensures WordBits((c >> 8) ^ entry) == Run(WordBits(c), ByteBits(b))
  {
    SplitLookup(c, b);
    EightSteps(c, b, c ^ (b as bv32));
  }

  /** The loop body of `CalculateCrc`: one table lookup. */
  method AdvanceByte(crc: bv32, b: bv8) returns (next: bv32)
    ensures WordBits(next) == Run(WordBits(crc), ByteBits(b))
  {
    var entry := CrcTable(((crc & 0xFF) as bv8) ^ b);
    next := (crc >> 8) ^ entry;
    TableIsEightSteps(((crc & 0xFF) as bv8) ^ b);
    TableStep(crc, b, entry);
  }
}
