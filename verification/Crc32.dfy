/** The checksum that places nodes and keys on the ring: the table-driven loop of
  * `Crc32IEEE` is proved equal to the bit-serial shift register over the reflected
  * polynomial 0xEDB88320 (section 8 of RFC 1952), and two equally long strings that differ
  * inside a window of at most four consecutive bytes are proved to get different checksums. */
module Crc32 {

  type Byte = bv8
  const POLY: bv32 := 0xEDB88320
  const ONES: bv32 := 0xFFFFFFFF

  function Xor(a: bv32, b: bv32): bv32 {
    a ^ b
  }

  /** One step of the shift register with no message bit. */
  function Shift(c: bv32): bv32 {
    if c & 1 == 1 then (c >> 1) ^ POLY else c >> 1
  }

  // ---- The reference: the register consumes the message bit by bit, low bit first ----

  function FeedBit(c: bv32, bit: bv32): bv32 {
    if c & 1 == bit then c >> 1 else (c >> 1) ^ POLY
  }

  function FeedBits(c: bv32, bits: bv32, n: nat): bv32
    decreases n
  {
    if n == 0 then c else FeedBits(FeedBit(c, bits & 1), bits >> 1, n - 1)
  }

  function Serial(c: bv32, data: seq<Byte>): bv32
    decreases |data|
  {
    if data == [] then c else Serial(FeedBits(c, Word(data[0]), 8), data[1..])
  }

  function Checksum(data: seq<Byte>): bv32 {
    Xor(Serial(ONES, data), ONES)
  }

  // ---- The implementation ----

  function TableRow(row: Byte, col: Byte): bv32 {
    match row
    case 0 =>
      (match col
       case 0 => 0x00000000 case 1 => 0x77073096 case 2 => 0xee0e612c case 3 => 0x990951ba
       case 4 => 0x076dc419 case 5 => 0x706af48f case 6 => 0xe963a535 case 7 => 0x9e6495a3
       case 8 => 0x0edb8832 case 9 => 0x79dcb8a4 case 10 => 0xe0d5e91e case 11 => 0x97d2d988
       case 12 => 0x09b64c2b case 13 => 0x7eb17cbd case 14 => 0xe7b82d07 case _ => 0x90bf1d91)
    case 1 =>
      (match col
       case 0 => 0x1db71064 case 1 => 0x6ab020f2 case 2 => 0xf3b97148 case 3 => 0x84be41de
       case 4 => 0x1adad47d case 5 => 0x6ddde4eb case 6 => 0xf4d4b551 case 7 => 0x83d385c7
       case 8 => 0x136c9856 case 9 => 0x646ba8c0 case 10 => 0xfd62f97a case 11 => 0x8a65c9ec
       case 12 => 0x14015c4f case 13 => 0x63066cd9 case 14 => 0xfa0f3d63 case _ => 0x8d080df5)
    case 2 =>
      (match col
       case 0 => 0x3b6e20c8 case 1 => 0x4c69105e case 2 => 0xd56041e4 case 3 => 0xa2677172
       case 4 => 0x3c03e4d1 case 5 => 0x4b04d447 case 6 => 0xd20d85fd case 7 => 0xa50ab56b
       case 8 => 0x35b5a8fa case 9 => 0x42b2986c case 10 => 0xdbbbc9d6 case 11 => 0xacbcf940
       case 12 => 0x32d86ce3 case 13 => 0x45df5c75 case 14 => 0xdcd60dcf case _ => 0xabd13d59)
    case 3 =>
      (match col
       case 0 => 0x26d930ac case 1 => 0x51de003a case 2 => 0xc8d75180 case 3 => 0xbfd06116
       case 4 => 0x21b4f4b5 case 5 => 0x56b3c423 case 6 => 0xcfba9599 case 7 => 0xb8bda50f
       case 8 => 0x2802b89e case 9 => 0x5f058808 case 10 => 0xc60cd9b2 case 11 => 0xb10be924
       case 12 => 0x2f6f7c87 case 13 => 0x58684c11 case 14 => 0xc1611dab case _ => 0xb6662d3d)
    case 4 =>
      (match col
       case 0 => 0x76dc4190 case 1 => 0x01db7106 case 2 => 0x98d220bc case 3 => 0xefd5102a
       case 4 => 0x71b18589 case 5 => 0x06b6b51f case 6 => 0x9fbfe4a5 case 7 => 0xe8b8d433
       case 8 => 0x7807c9a2 case 9 => 0x0f00f934 case 10 => 0x9609a88e case 11 => 0xe10e9818
       case 12 => 0x7f6a0dbb case 13 => 0x086d3d2d case 14 => 0x91646c97 case _ => 0xe6635c01)
    case 5 =>
      (match col
       case 0 => 0x6b6b51f4 case 1 => 0x1c6c6162 case 2 => 0x856530d8 case 3 => 0xf262004e
       case 4 => 0x6c0695ed case 5 => 0x1b01a57b case 6 => 0x8208f4c1 case 7 => 0xf50fc457
       case 8 => 0x65b0d9c6 case 9 => 0x12b7e950 case 10 => 0x8bbeb8ea case 11 => 0xfcb9887c
       case 12 => 0x62dd1ddf case 13 => 0x15da2d49 case 14 => 0x8cd37cf3 case _ => 0xfbd44c65)
    case 6 =>
      (match col
       case 0 => 0x4db26158 case 1 => 0x3ab551ce case 2 => 0xa3bc0074 case 3 => 0xd4bb30e2
       case 4 => 0x4adfa541 case 5 => 0x3dd895d7 case 6 => 0xa4d1c46d case 7 => 0xd3d6f4fb
       case 8 => 0x4369e96a case 9 => 0x346ed9fc case 10 => 0xad678846 case 11 => 0xda60b8d0
       case 12 => 0x44042d73 case 13 => 0x33031de5 case 14 => 0xaa0a4c5f case _ => 0xdd0d7cc9)
    case 7 =>
      (match col
       case 0 => 0x5005713c case 1 => 0x270241aa case 2 => 0xbe0b1010 case 3 => 0xc90c2086
       case 4 => 0x5768b525 case 5 => 0x206f85b3 case 6 => 0xb966d409 case 7 => 0xce61e49f
       case 8 => 0x5edef90e case 9 => 0x29d9c998 case 10 => 0xb0d09822 case 11 => 0xc7d7a8b4
       case 12 => 0x59b33d17 case 13 => 0x2eb40d81 case 14 => 0xb7bd5c3b case _ => 0xc0ba6cad)
    case 8 =>
      (match col
       case 0 => 0xedb88320 case 1 => 0x9abfb3b6 case 2 => 0x03b6e20c case 3 => 0x74b1d29a
       case 4 => 0xead54739 case 5 => 0x9dd277af case 6 => 0x04db2615 case 7 => 0x73dc1683
       case 8 => 0xe3630b12 case 9 => 0x94643b84 case 10 => 0x0d6d6a3e case 11 => 0x7a6a5aa8
       case 12 => 0xe40ecf0b case 13 => 0x9309ff9d case 14 => 0x0a00ae27 case _ => 0x7d079eb1)
    case 9 =>
      (match col
       case 0 => 0xf00f9344 case 1 => 0x8708a3d2 case 2 => 0x1e01f268 case 3 => 0x6906c2fe
       case 4 => 0xf762575d case 5 => 0x806567cb case 6 => 0x196c3671 case 7 => 0x6e6b06e7
       case 8 => 0xfed41b76 case 9 => 0x89d32be0 case 10 => 0x10da7a5a case 11 => 0x67dd4acc
       case 12 => 0xf9b9df6f case 13 => 0x8ebeeff9 case 14 => 0x17b7be43 case _ => 0x60b08ed5)
    case 10 =>
      (match col
       case 0 => 0xd6d6a3e8 case 1 => 0xa1d1937e case 2 => 0x38d8c2c4 case 3 => 0x4fdff252
       case 4 => 0xd1bb67f1 case 5 => 0xa6bc5767 case 6 => 0x3fb506dd case 7 => 0x48b2364b
       case 8 => 0xd80d2bda case 9 => 0xaf0a1b4c case 10 => 0x36034af6 case 11 => 0x41047a60
       case 12 => 0xdf60efc3 case 13 => 0xa867df55 case 14 => 0x316e8eef case _ => 0x4669be79)
    case 11 =>
      (match col
       case 0 => 0xcb61b38c case 1 => 0xbc66831a case 2 => 0x256fd2a0 case 3 => 0x5268e236
       case 4 => 0xcc0c7795 case 5 => 0xbb0b4703 case 6 => 0x220216b9 case 7 => 0x5505262f
       case 8 => 0xc5ba3bbe case 9 => 0xb2bd0b28 case 10 => 0x2bb45a92 case 11 => 0x5cb36a04
       case 12 => 0xc2d7ffa7 case 13 => 0xb5d0cf31 case 14 => 0x2cd99e8b case _ => 0x5bdeae1d)
    case 12 =>
      (match col
       case 0 => 0x9b64c2b0 case 1 => 0xec63f226 case 2 => 0x756aa39c case 3 => 0x026d930a
       case 4 => 0x9c0906a9 case 5 => 0xeb0e363f case 6 => 0x72076785 case 7 => 0x05005713
       case 8 => 0x95bf4a82 case 9 => 0xe2b87a14 case 10 => 0x7bb12bae case 11 => 0x0cb61b38
       case 12 => 0x92d28e9b case 13 => 0xe5d5be0d case 14 => 0x7cdcefb7 case _ => 0x0bdbdf21)
    case 13 =>
      (match col
       case 0 => 0x86d3d2d4 case 1 => 0xf1d4e242 case 2 => 0x68ddb3f8 case 3 => 0x1fda836e
       case 4 => 0x81be16cd case 5 => 0xf6b9265b case 6 => 0x6fb077e1 case 7 => 0x18b74777
       case 8 => 0x88085ae6 case 9 => 0xff0f6a70 case 10 => 0x66063bca case 11 => 0x11010b5c
       case 12 => 0x8f659eff case 13 => 0xf862ae69 case 14 => 0x616bffd3 case _ => 0x166ccf45)
    case 14 =>
      (match col
       case 0 => 0xa00ae278 case 1 => 0xd70dd2ee case 2 => 0x4e048354 case 3 => 0x3903b3c2
       case 4 => 0xa7672661 case 5 => 0xd06016f7 case 6 => 0x4969474d case 7 => 0x3e6e77db
       case 8 => 0xaed16a4a case 9 => 0xd9d65adc case 10 => 0x40df0b66 case 11 => 0x37d83bf0
       case 12 => 0xa9bcae53 case 13 => 0xdebb9ec5 case 14 => 0x47b2cf7f case _ => 0x30b5ffe9)
    case _ =>
      (match col
       case 0 => 0xbdbdf21c case 1 => 0xcabac28a case 2 => 0x53b39330 case 3 => 0x24b4a3a6
       case 4 => 0xbad03605 case 5 => 0xcdd70693 case 6 => 0x54de5729 case 7 => 0x23d967bf
       case 8 => 0xb3667a2e case 9 => 0xc4614ab8 case 10 => 0x5d681b02 case 11 => 0x2a6f2b94
       case 12 => 0xb40bbe37 case 13 => 0xc30c8ea1 case 14 => 0x5a05df1b case _ => 0x2d02ef8d)
  }

  /** `kCrc32IEEETable`, addressed by the high and the low half of the index. */
  function Table(i: Byte): bv32 {
    TableRow(i >> 4, i & 0xF)
  }

  function LowByte(x: bv32): Byte {
    (x & 0xFF) as Byte
  }

  function HighBytes(x: bv32): bv32 {
    x >> 8
  }

  function Up(p: bv32): bv32 {
    p << 8
  }

  function Word(b: Byte): bv32 {
    b as bv32
  }

  /** The right-hand side of the loop body. */
  function Update(crc: bv32, b: Byte): bv32 {
    Xor(Table(LowByte(Xor(crc, Word(b)))), HighBytes(crc))
  }

  method Crc32IEEE(data: seq<Byte>) returns (r: bv32)
    ensures r == Checksum(data)
  {
    hide Update, FeedBits, Xor;
    var crc: bv32 := ONES;
    for i := 0 to |data|
      invariant Serial(crc, data[i..]) == Serial(ONES, data)
    {
      assert data[i..][0] == data[i] && data[i..][1..] == data[i + 1..];
      UpdateIsFeedBits(crc, data[i]);
      crc := Update(crc, data[i]);
    }
    r := Xor(crc, ONES);
  }

  // ---- Algebra of the register ----

  lemma XorShiftRight(a: bv32, b: bv32)
    ensures (a ^ b) >> 1 == (a >> 1) ^ (b >> 1)
  {}

  lemma XorLowBit(a: bv32, b: bv32)
    ensures (a ^ b) & 1 == (a & 1) ^ (b & 1)
  {}

  lemma LowBit(a: bv32)
    ensures a & 1 == 0 || a & 1 == 1
  {}

  lemma XorRegroup(a: bv32, b: bv32, c: bv32)
    ensures (a ^ c) ^ b == (a ^ b) ^ c
    ensures a ^ (b ^ c) == (a ^ b) ^ c
    ensures (a ^ c) ^ (b ^ c) == a ^ b
  {}

  lemma XorCancels(a: bv32, b: bv32, c: bv32)
    requires Xor(a, b) == Xor(a, c)
    ensures b == c
  {}

  lemma ShiftLinearRaw(a: bv32, b: bv32)
    ensures Shift(a ^ b) == Shift(a) ^ Shift(b)
  {
    XorShiftRight(a, b);
    XorLowBit(a, b);
    LowBit(a);
    LowBit(b);
    XorRegroup(a >> 1, b >> 1, POLY);
  }

  lemma ShiftLinear(a: bv32, b: bv32)
    ensures Shift(Xor(a, b)) == Xor(Shift(a), Shift(b))
  {
    hide Shift;
    ShiftLinearRaw(a, b);
  }

  lemma ShiftInjective(a: bv32, b: bv32)
    requires Shift(a) == Shift(b)
    ensures a == b
  {}

  function Rounds(c: bv32, n: nat): bv32
    decreases n
  {
    if n == 0 then c else Rounds(Shift(c), n - 1)
  }

  /** Eight steps written out, for evaluation. */
  function Round8(c: bv32): bv32 {
    Shift(Shift(Shift(Shift(Shift(Shift(Shift(Shift(c))))))))
  }

  lemma RoundsUnrolled(c: bv32)
    ensures Rounds(c, 8) == Round8(c)
  {
    hide Shift;
    var c1 := Shift(c);
    var c2 := Shift(c1);
    var c3 := Shift(c2);
    var c4 := Shift(c3);
    var c5 := Shift(c4);
    var c6 := Shift(c5);
    assert Rounds(c6, 2) == Shift(Shift(c6));
    assert Rounds(c4, 4) == Rounds(c6, 2);
    assert Rounds(c2, 6) == Rounds(c4, 4);
  }

  lemma Round8Linear(a: bv32, b: bv32)
    ensures Round8(Xor(a, b)) == Xor(Round8(a), Round8(b))
  {
    hide Shift, Xor;
    var a1, b1 := Shift(a), Shift(b);
    var a2, b2 := Shift(a1), Shift(b1);
    var a3, b3 := Shift(a2), Shift(b2);
    var a4, b4 := Shift(a3), Shift(b3);
    var a5, b5 := Shift(a4), Shift(b4);
    var a6, b6 := Shift(a5), Shift(b5);
    var a7, b7 := Shift(a6), Shift(b6);
    ShiftLinear(a, b);
    ShiftLinear(a1, b1);
    ShiftLinear(a2, b2);
    ShiftLinear(a3, b3);
    ShiftLinear(a4, b4);
    ShiftLinear(a5, b5);
    ShiftLinear(a6, b6);
    ShiftLinear(a7, b7);
  }

  lemma {:induction false} RoundsInjective(a: bv32, b: bv32, n: nat)
    requires Rounds(a, n) == Rounds(b, n)
    ensures a == b
    decreases n
  {
    hide Shift;
    if n > 0 {
      RoundsInjective(Shift(a), Shift(b), n - 1);
      ShiftInjective(a, b);
    }
  }

  lemma Round8OfShifted(c: bv32, up: bv32)
    requires c & 0xFF000000 == 0 && up == c << 8
    ensures Round8(up) == c
  {}

  /** Eight steps move a word whose low byte is clear down by one byte. */
  lemma Round8OfHighBytes(c: bv32)
    requires Fits(c, 3)
    ensures Round8(Up(c)) == c
  {
    hide Round8;
    Round8OfShifted(c, Up(c));
  }

  // ---- The reference in terms of the register algebra ----

  lemma FeedBitIsShift(c: bv32, bits: bv32)
    ensures FeedBit(c, bits & 1) ^ (bits >> 1) == Shift(c ^ bits)
  {
    XorShiftRight(c, bits);
    XorLowBit(c, bits);
    LowBit(c);
    LowBit(bits);
    XorRegroup(c >> 1, bits >> 1, POLY);
  }

  lemma FeedBitsIsRounds(c: bv32, b: Byte)
    ensures FeedBits(c, Word(b), 8) == Rounds(Xor(c, Word(b)), 8)
  {
    XorZero(FeedBits(c, Word(b), 8), b);
    FeedBitsIsRoundsFrom(c, Word(b), 8);
  }

  lemma XorZero(c: bv32, b: Byte)
    ensures Xor(c, ShiftedOut(Word(b), 8)) == c
  {
    assert ((((((((Word(b) >> 1) >> 1) >> 1) >> 1) >> 1) >> 1) >> 1) >> 1) == 0;
    ShiftedOutUnrolled(Word(b));
  }

  /** What is left of a message word after its n low bits have been consumed. */
  function ShiftedOut(bits: bv32, n: nat): bv32
    decreases n
  {
    if n == 0 then bits else ShiftedOut(bits >> 1, n - 1)
  }

  lemma ShiftedOutUnrolled(bits: bv32)
    ensures ShiftedOut(bits, 8) == (((((((bits >> 1) >> 1) >> 1) >> 1) >> 1) >> 1) >> 1) >> 1
  {
    var b4 := (((bits >> 1) >> 1) >> 1) >> 1;
    assert ShiftedOut(bits, 8) == ShiftedOut((bits >> 1) >> 1, 6);
    assert ShiftedOut((bits >> 1) >> 1, 6) == ShiftedOut(b4, 4);
    assert ShiftedOut(b4, 4) == ShiftedOut((b4 >> 1) >> 1, 2);
  }

  lemma {:induction false} FeedBitsIsRoundsFrom(c: bv32, bits: bv32, n: nat)
    ensures Xor(FeedBits(c, bits, n), ShiftedOut(bits, n)) == Rounds(Xor(c, bits), n)
    decreases n
  {
    hide Shift, FeedBit;
    if n > 0 {
      FeedBitIsShift(c, bits);
      FeedBitsIsRoundsFrom(FeedBit(c, bits & 1), bits >> 1, n - 1);
    }
  }

  // The table, a row at a time.

  lemma Row0IsRound8(i: Byte)
    requires 0x00 <= i <= 0x0F
    ensures Table(i) == Round8(Word(i))
  {}

  lemma Row1IsRound8(i: Byte)
    requires 0x10 <= i <= 0x1F
    ensures Table(i) == Round8(Word(i))
  {}

  lemma Row2IsRound8(i: Byte)
    requires 0x20 <= i <= 0x2F
    ensures Table(i) == Round8(Word(i))
  {}

  lemma Row3IsRound8(i: Byte)
    requires 0x30 <= i <= 0x3F
    ensures Table(i) == Round8(Word(i))
  {}

  lemma Row4IsRound8(i: Byte)
    requires 0x40 <= i <= 0x4F
    ensures Table(i) == Round8(Word(i))
  {}

  lemma Row5IsRound8(i: Byte)
    requires 0x50 <= i <= 0x5F
    ensures Table(i) == Round8(Word(i))
  {}

  lemma Row6IsRound8(i: Byte)
    requires 0x60 <= i <= 0x6F
    ensures Table(i) == Round8(Word(i))
  {}

  lemma Row7IsRound8(i: Byte)
    requires 0x70 <= i <= 0x7F
    ensures Table(i) == Round8(Word(i))
  {}

  lemma Row8IsRound8(i: Byte)
    requires 0x80 <= i <= 0x8F
    ensures Table(i) == Round8(Word(i))
  {}

  lemma Row9IsRound8(i: Byte)
    requires 0x90 <= i <= 0x9F
    ensures Table(i) == Round8(Word(i))
  {}

  lemma Row10IsRound8(i: Byte)
    requires 0xA0 <= i <= 0xAF
    ensures Table(i) == Round8(Word(i))
  {}

  lemma Row11IsRound8(i: Byte)
    requires 0xB0 <= i <= 0xBF
    ensures Table(i) == Round8(Word(i))
  {}

  lemma Row12IsRound8(i: Byte)
    requires 0xC0 <= i <= 0xCF
    ensures Table(i) == Round8(Word(i))
  {}

  lemma Row13IsRound8(i: Byte)
    requires 0xD0 <= i <= 0xDF
    ensures Table(i) == Round8(Word(i))
  {}

  lemma Row14IsRound8(i: Byte)
    requires 0xE0 <= i <= 0xEF
    ensures Table(i) == Round8(Word(i))
  {}

  lemma Row15IsRound8(i: Byte)
    requires 0xF0 <= i <= 0xFF
    ensures Table(i) == Round8(Word(i))
  {}

  lemma TableIsRound8(i: Byte)
    ensures Table(i) == Round8(Word(i))
  {
    hide Table, Round8, Word;
    if i <= 0x0F {
      Row0IsRound8(i);
    } else if i <= 0x1F {
      Row1IsRound8(i);
    } else if i <= 0x2F {
      Row2IsRound8(i);
    } else if i <= 0x3F {
      Row3IsRound8(i);
    } else if i <= 0x4F {
      Row4IsRound8(i);
    } else if i <= 0x5F {
      Row5IsRound8(i);
    } else if i <= 0x6F {
      Row6IsRound8(i);
    } else if i <= 0x7F {
      Row7IsRound8(i);
    } else if i <= 0x8F {
      Row8IsRound8(i);
    } else if i <= 0x9F {
      Row9IsRound8(i);
    } else if i <= 0xAF {
      Row10IsRound8(i);
    } else if i <= 0xBF {
      Row11IsRound8(i);
    } else if i <= 0xCF {
      Row12IsRound8(i);
    } else if i <= 0xDF {
      Row13IsRound8(i);
    } else if i <= 0xEF {
      Row14IsRound8(i);
    } else {
      Row15IsRound8(i);
    }
  }

  lemma SplitLowByte(x: bv32)
    ensures x == Xor(Word(LowByte(x)), Up(HighBytes(x)))
    ensures Fits(HighBytes(x), 3)
  {}

  lemma HighBytesIgnoreByte(crc: bv32, b: Byte)
    ensures HighBytes(Xor(crc, Word(b))) == HighBytes(crc)
  {}

  lemma Round8Split(x: bv32)
    ensures Round8(x) == Xor(Table(LowByte(x)), HighBytes(x))
  {
    hide Round8, Xor, Table, Word, LowByte, HighBytes, Up, Fits;
    SplitLowByte(x);
    Round8Linear(Word(LowByte(x)), Up(HighBytes(x)));
    Round8OfHighBytes(HighBytes(x));
    TableIsRound8(LowByte(x));
  }

  /** One iteration of the table-driven loop is eight steps of the bit-serial reference. */
  lemma UpdateIsFeedBits(crc: bv32, b: Byte)
    ensures Update(crc, b) == FeedBits(crc, Word(b), 8)
  {
    hide Round8, FeedBits, Rounds, Xor, Table, Word, LowByte, HighBytes;
    var x := Xor(crc, Word(b));
    HighBytesIgnoreByte(crc, b);
    Round8Split(x);
    RoundsUnrolled(x);
    FeedBitsIsRounds(crc, b);
  }

  // ---- Known values ----

  lemma Absorb(c: bv32, b: Byte, rest: seq<Byte>, next: bv32)
    requires Update(c, b) == next
    ensures Serial(c, [b] + rest) == Serial(next, rest)
  {
    hide Update, FeedBits;
    UpdateIsFeedBits(c, b);
    assert ([b] + rest)[1..] == rest;
  }

  lemma AbsorbLast(c: bv32, b: Byte, next: bv32)
    requires Update(c, b) == next
    ensures Serial(c, [b]) == next
  {
    hide Update, Serial;
    Absorb(c, b, [], next);
    assert [b] + [] == [b];
    AbsorbNothing(next);
  }

  lemma AbsorbNothing(c: bv32)
    ensures Serial(c, []) == c
  {}

  lemma DigitsAbsorbed()
    ensures Serial(ONES, [49, 50, 51, 52, 53, 54, 55, 56, 57]) == 0x340BC6D9
  {
    hide Serial;
    var r8: seq<Byte> := [57];
    var r7: seq<Byte> := [56] + r8;
    var r6: seq<Byte> := [55] + r7;
    var r5: seq<Byte> := [54] + r6;
    var r4: seq<Byte> := [53] + r5;
    var r3: seq<Byte> := [52] + r4;
    var r2: seq<Byte> := [51] + r3;
    var r1: seq<Byte> := [50] + r2;
    assert [49, 50, 51, 52, 53, 54, 55, 56, 57] == [49] + r1;
    Absorb(ONES, 49, r1, 0x7C231048);
    Absorb(0x7C231048, 50, r2, 0xB0ACBB32);
    Absorb(0xB0ACBB32, 51, r3, 0x77B79C2D);
    Absorb(0x77B79C2D, 52, r4, 0x641C1F5C);
    Absorb(0x641C1F5C, 53, r5, 0x340AC5E3);
    Absorb(0x340AC5E3, 54, r6, 0xF68D2C9E);
    Absorb(0xF68D2C9E, 55, r7, 0xAFFC9660);
    Absorb(0xAFFC9660, 56, r8, 0x651F2550);
    AbsorbLast(0x651F2550, 57, 0x340BC6D9);
  }

  /** The check value of CRC-32, the checksum of the digits 1 to 9, and the checksum of nothing. */
  lemma CheckValues()
    ensures Checksum([49, 50, 51, 52, 53, 54, 55, 56, 57]) == 0xCBF43926
    ensures Checksum([]) == 0
  {
    hide Serial;
    DigitsAbsorbed();
    AbsorbNothing(ONES);
  }

  // ---- Windows of up to four bytes ----

  /** A short byte string as one word, first byte lowest. */
  function Pack(x: seq<Byte>): bv32 {
    if x == [] then 0 else Xor(Word(x[0]), Up(Pack(x[1..])))
  }

  /** All bytes but the n lowest, up to three. */
  function Mask(n: nat): bv32 {
    if n == 0 then 0xFFFFFFFF
    else if n == 1 then 0xFFFFFF00
    else if n == 2 then 0xFFFF0000
    else 0xFF000000
  }

  predicate Fits(p: bv32, n: nat) {
    p & Mask(n) == 0
  }

  lemma FitsOneMore(b: Byte, p: bv32, n: nat)
    requires n <= 2 && Fits(p, n)
    ensures Fits(Xor(Word(b), Up(p)), n + 1)
  {}

  lemma FitsThree(p: bv32, n: nat)
    requires n <= 3 && Fits(p, n)
    ensures Fits(p, 3)
  {
    Narrower(p);
  }

  lemma Narrower(p: bv32)
    ensures p & 0xFFFFFF00 == 0 ==> p & 0xFFFF0000 == 0
    ensures p & 0xFFFF0000 == 0 ==> p & 0xFF000000 == 0
  {}

  lemma {:induction false} PackFits(x: seq<Byte>)
    requires |x| <= 3
    ensures Fits(Pack(x), |x|) && Fits(Pack(x), 3)
  {
    if x == [] {
    } else {
      hide Xor, Word, Up, Fits;
      PackFits(x[1..]);
      FitsOneMore(x[0], Pack(x[1..]), |x[1..]|);
      FitsThree(Pack(x), |x|);
    }
  }

  lemma PackHeadTail(b: Byte, p: bv32, b': Byte, p': bv32)
    requires Fits(p, 3) && Fits(p', 3)
    requires Xor(Word(b), Up(p)) == Xor(Word(b'), Up(p'))
    ensures b == b' && p == p'
  {}

  lemma {:induction false} PackInjective(x: seq<Byte>, y: seq<Byte>)
    requires |x| == |y| <= 4 && Pack(x) == Pack(y)
    ensures x == y
  {
    hide Xor, Word, Up, Fits;
    if x != [] {
      PackFits(x[1..]);
      PackFits(y[1..]);
      PackHeadTail(x[0], Pack(x[1..]), y[0], Pack(y[1..]));
      PackInjective(x[1..], y[1..]);
      assert x == [x[0]] + x[1..] && y == [y[0]] + y[1..];
    }
  }

  lemma {:induction false} RoundsCompose(c: bv32, m: nat, n: nat)
    ensures Rounds(Rounds(c, m), n) == Rounds(c, m + n)
    decreases m
  {
    hide Shift;
    if m > 0 {
      RoundsCompose(Shift(c), m - 1, n);
    }
  }

  lemma XorReassociate(c: bv32, w: bv32, p: bv32)
    ensures Xor(c, Xor(w, p)) == Xor(Xor(c, w), p)
  {}

  /** Absorbing at most four bytes is xoring them in at once and then shifting. */
  lemma {:induction false} SerialOfWindow(c: bv32, x: seq<Byte>)
    requires |x| <= 4
    ensures Serial(c, x) == Rounds(Xor(c, Pack(x)), 8 * |x|)
    decreases |x|
  {
    hide Shift, Xor, Word, FeedBits, Round8, Up, Fits;
    if x == [] {
      XorReassociate(c, 0, 0);
      XorWithZero(c);
    } else {
      var rest, w := x[1..], Word(x[0]);
      FeedBitsIsRounds(c, x[0]);
      var c' := Rounds(Xor(c, w), 8);
      SerialOfWindow(c', rest);
      PackFits(rest);
      RoundsUnrolled(Xor(c, w));
      RoundsUnrolled(Xor(Xor(c, w), Up(Pack(rest))));
      Round8Linear(Xor(c, w), Up(Pack(rest)));
      Round8OfHighBytes(Pack(rest));
      XorReassociate(c, w, Up(Pack(rest)));
      RoundsCompose(Xor(c, Pack(x)), 8, 8 * |rest|);
    }
  }

  lemma XorWithZero(c: bv32)
    ensures Xor(c, 0) == c
  {}

  lemma {:induction false} SerialAppend(c: bv32, a: seq<Byte>, b: seq<Byte>)
    ensures Serial(c, a + b) == Serial(Serial(c, a), b)
    decreases |a|
  {
    hide FeedBits;
    if a == [] {
      assert a + b == b;
    } else {
      assert (a + b)[1..] == a[1..] + b;
      SerialAppend(FeedBits(c, Word(a[0]), 8), a[1..], b);
    }
  }

  lemma {:induction false} SerialInjective(c: bv32, d: bv32, data: seq<Byte>)
    requires Serial(c, data) == Serial(d, data)
    ensures c == d
    decreases |data|
  {
    hide FeedBits, Xor, Rounds;
    if data != [] {
      SerialInjective(FeedBits(c, Word(data[0]), 8), FeedBits(d, Word(data[0]), 8), data[1..]);
      FeedBitsIsRounds(c, data[0]);
      FeedBitsIsRounds(d, data[0]);
      RoundsInjective(Xor(c, Word(data[0])), Xor(d, Word(data[0])), 8);
      XorCancelsRight(c, d, Word(data[0]));
    }
  }

  lemma XorCancelsRight(a: bv32, b: bv32, c: bv32)
    requires Xor(a, c) == Xor(b, c)
    ensures a == b
  {}

  /** Two strings of equal length that differ only inside a window of at most four
    * consecutive bytes never share a checksum. */
  lemma ShortWindowNeverCollides(before: seq<Byte>, x: seq<Byte>, y: seq<Byte>, after: seq<Byte>)
    requires |x| == |y| <= 4 && x != y
    ensures Checksum(before + x + after) != Checksum(before + y + after)
  {
    hide Serial, Rounds, Pack;
    if Checksum(before + x + after) == Checksum(before + y + after) {
      hide Xor;
      XorCancelsRight(Serial(ONES, before + x + after), Serial(ONES, before + y + after), ONES);
      SerialAppend(ONES, before + x, after);
      SerialAppend(ONES, before + y, after);
      SerialInjective(Serial(ONES, before + x), Serial(ONES, before + y), after);
      SerialAppend(ONES, before, x);
      SerialAppend(ONES, before, y);
      var c := Serial(ONES, before);
      SerialOfWindow(c, x);
      SerialOfWindow(c, y);
      RoundsInjective(Xor(c, Pack(x)), Xor(c, Pack(y)), 8 * |x|);
      XorCancels(c, Pack(x), Pack(y));
      PackInjective(x, y);
    }
  }
}
