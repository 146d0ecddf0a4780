/** The ring under its default configuration: CRC-32 as the hash, ten virtual nodes for a new
  * node, and at most two hundred. */
module DefaultRing {
  import opened Crc32
  import opened Labels
  import opened HashRing
  import opened RingMovement
  import opened ReAdding

  /** A checksum as an unsigned number. */
  function Unsigned(c: bv32): Point {
    var b0: int, b1: int := LowByte(c) as int, LowByte(c >> 8) as int;
    var b2: int, b3: int := LowByte(c >> 16) as int, LowByte(c >> 24) as int;
    b0 + 0x100 * b1 + 0x1_0000 * b2 + 0x100_0000 * b3
  }

  /** Its last base-256 digit is the low byte, and the others are those of the checksum shifted down. */
  lemma UnsignedDigits(c: bv32)
    ensures Unsigned(c) % 0x100 == LowByte(c) as int && Unsigned(c) / 0x100 == Unsigned(c >> 8)
  {
    hide LowByte;
    ShiftsCompose(c);
    LowDigitFirst(LowByte(c) as int, Unsigned(c >> 8));
  }

  lemma LowDigitFirst(b0: int, rest: int)
    requires 0 <= b0 < 256
    ensures (b0 + 0x100 * rest) % 0x100 == b0 && (b0 + 0x100 * rest) / 0x100 == rest
  {
    var x := b0 + 0x100 * rest;
    LowDigit(b0, rest, x % 0x100, x / 0x100);
  }

  lemma UnsignedExample()
    ensures Unsigned(0xCBF43926) == 0xCBF43926
  {
    var c: bv32 := 0xCBF43926;
    assert LowByte(c) == 0x26 && LowByte(c >> 8) == 0x39 && LowByte(c >> 16) == 0xF4 && LowByte(c >> 24) == 0xCB;
  }

  lemma ShiftsCompose(c: bv32)
    ensures LowByte((c >> 8) >> 8) == LowByte(c >> 16) && LowByte((c >> 8) >> 16) == LowByte(c >> 24)
    ensures LowByte((c >> 8) >> 24) as int == 0
  {
    assert (c >> 8) >> 24 == 0;
    assert LowByte(0) == 0;
  }

  function CrcPoint(s: string): Point {
    Unsigned(Checksum(Bytes(s)))
  }

  const DEFAULT_CONFIG := Config(10, 10, 200, CrcPoint, 0.25)

  lemma ByteValueInjective(a: Byte, b: Byte)
    requires a as int == b as int
    ensures a == b
  {
    assert (a as int) as Byte == (b as int) as Byte;
  }

  lemma FourBytes(a: bv32, b: bv32)
    requires LowByte(a) == LowByte(b) && LowByte(a >> 8) == LowByte(b >> 8)
    requires LowByte(a >> 16) == LowByte(b >> 16) && LowByte(a >> 24) == LowByte(b >> 24)
    ensures a == b
  {}

  lemma LowDigit(a: int, more: int, b: int, rest: int)
    requires 0 <= a < 256 && 0 <= b < 256 && a + 0x100 * more == b + 0x100 * rest
    ensures a == b && more == rest
  {}

  lemma BytesOfSum(a0: int, a1: int, a2: int, a3: int, b0: int, b1: int, b2: int, b3: int)
    requires 0 <= a0 < 256 && 0 <= a1 < 256 && 0 <= a2 < 256 && 0 <= b0 < 256 && 0 <= b1 < 256 && 0 <= b2 < 256
    requires a0 + 0x100 * a1 + 0x1_0000 * a2 + 0x100_0000 * a3 == b0 + 0x100 * b1 + 0x1_0000 * b2 + 0x100_0000 * b3
    ensures a0 == b0 && a1 == b1 && a2 == b2 && a3 == b3
  {
    LowDigit(a0, a1 + 0x100 * a2 + 0x1_0000 * a3, b0, b1 + 0x100 * b2 + 0x1_0000 * b3);
    LowDigit(a1, a2 + 0x100 * a3, b1, b2 + 0x100 * b3);
    LowDigit(a2, a3, b2, b3);
  }

  lemma UnsignedInjective(a: bv32, b: bv32)
    requires Unsigned(a) == Unsigned(b)
    ensures a == b
  {
    hide LowByte;
    BytesOfSum(LowByte(a) as int, LowByte(a >> 8) as int, LowByte(a >> 16) as int, LowByte(a >> 24) as int,
               LowByte(b) as int, LowByte(b >> 8) as int, LowByte(b >> 16) as int, LowByte(b >> 24) as int);
    ByteValueInjective(LowByte(a), LowByte(b));
    ByteValueInjective(LowByte(a >> 8), LowByte(b >> 8));
    ByteValueInjective(LowByte(a >> 16), LowByte(b >> 16));
    ByteValueInjective(LowByte(a >> 24), LowByte(b >> 24));
    FourBytes(a, b);
  }

  lemma OneDigit(i: nat)
    requires i < 10
    ensures |Decimal(i)| == 1
  {}

  /** Whatever its name, the first ten labels of a node differ under CRC-32. */
  lemma DefaultLabelsDiffer(node: string)
    ensures OwnLabelsDiffer(DEFAULT_CONFIG.hash, node, 10)
  {
    hide Checksum, Bytes, Unsigned;
    forall i: nat, j: nat | i < j < 10
      ensures CrcPoint(Label(node, i)) != CrcPoint(Label(node, j))
    {
      OneDigit(i);
      OneDigit(j);
      OwnLabelsNeverCollide(node, i, j);
      if CrcPoint(Label(node, i)) == CrcPoint(Label(node, j)) {
        UnsignedInjective(Checksum(Bytes(Label(node, i))), Checksum(Bytes(Label(node, j))));
      }
    }
  }

  lemma {:induction false} CountPoints(hash: HashFunc, node: string, n: nat)
    requires OwnLabelsDiffer(hash, node, n)
    ensures |Points(hash, node, n)| == n
  {
    if n == 0 {
      assert Points(hash, node, 0) == {};
    } else {
      CountPoints(hash, node, n - 1);
      LaterLabelIsFresh(hash, node, n - 1, n);
      assert Points(hash, node, n) == Points(hash, node, n - 1) + {hash(Label(node, n - 1))};
    }
  }

  /** With the default configuration a node that joins any valid ring owns ten points of it right
    * away, whatever its labels collide with. */
  lemma FreshNodeOwnsTenPoints(r: Ring, node: string)
    requires Valid(r, DEFAULT_CONFIG.hash) && node != "" && node !in r.replicas
    ensures var s := Add(r, DEFAULT_CONFIG, [node]);
            |set p | p in s.owner && s.owner[p] == node| == 10
  {
    hide CrcPoint, Points, LabelPoints, SortPoints, OwnLabelsDiffer, SameDomain, Sorted;
    AddOne(r, DEFAULT_CONFIG, node);
    DefaultLabelsDiffer(node);
    CountPoints(DEFAULT_CONFIG.hash, node, 10);
    var s := Add(r, DEFAULT_CONFIG, [node]);
    assert (set p | p in s.owner && s.owner[p] == node) == Points(DEFAULT_CONFIG.hash, node, 10);
  }

  // ---- Beyond ten labels ----

  lemma AbsorbName(rest: seq<Byte>)
    ensures Serial(ONES, [97, 102, 116, 111, 118, 119, 45] + rest) == Serial(0x8B358D6B, rest)
  {
    hide Serial;
    var r1: seq<Byte> := [45] + rest;
    var r2: seq<Byte> := [119] + r1;
    var r3: seq<Byte> := [118] + r2;
    var r4: seq<Byte> := [111] + r3;
    var r5: seq<Byte> := [116] + r4;
    var r6: seq<Byte> := [102] + r5;
    assert [97, 102, 116, 111, 118, 119, 45] + rest == [97] + r6;
    Absorb(ONES, 97, r6, 0x174841BC);
    Absorb(0x174841BC, 102, r5, 0x6611738B);
    Absorb(0x6611738B, 116, r4, 0x2D64FEFE);
    Absorb(0x2D64FEFE, 111, r3, 0x8725C72C);
    Absorb(0x8725C72C, 118, r2, 0x8B399D2D);
    Absorb(0x8B399D2D, 119, r1, 0x8B358177);
    Absorb(0x8B358177, 45, rest, 0x8B358D6B);
  }

  lemma AbsorbIndices()
    ensures Serial(0x8B358D6B, [53]) == 0x8C58497E
    ensures Serial(0x8B358D6B, [49, 57]) == 0x8C58497E
  {
    hide Serial;
    AbsorbLast(0x8B358D6B, 53, 0x8C58497E);
    var rest: seq<Byte> := [57];
    assert [49] + rest == [49, 57];
    Absorb(0x8B358D6B, 49, rest, 0x8B358D67);
    AbsorbLast(0x8B358D67, 57, 0x8C58497E);
  }

  /** The byte of an ASCII character. */
  lemma ByteOf(c: char, b: Byte)
    requires c as int == b as int
    ensures Bytes([c]) == [b]
  {
    assert (c as int % 256) as Byte == (b as int) as Byte;
  }

  lemma PrependByte(c: char, b: Byte, more: string, rest: seq<Byte>)
    requires c as int == b as int && Bytes(more) == rest
    ensures Bytes([c] + more) == [b] + rest
  {
    hide Bytes;
    ByteOf(c, b);
    BytesAppend([c], more);
  }

  lemma NameBytes(more: string, rest: seq<Byte>)
    requires Bytes(more) == rest
    ensures Bytes("aftovw-" + more) == [97, 102, 116, 111, 118, 119, 45] + rest
  {
    hide Bytes;
    var s1, r1 := ['-'] + more, [45] + rest;
    var s2, r2 := ['w'] + s1, [119] + r1;
    var s3, r3 := ['v'] + s2, [118] + r2;
    var s4, r4 := ['o'] + s3, [111] + r3;
    var s5, r5 := ['t'] + s4, [116] + r4;
    var s6, r6 := ['f'] + s5, [102] + r5;
    PrependByte('-', 45, more, rest);
    PrependByte('w', 119, s1, r1);
    PrependByte('v', 118, s2, r2);
    PrependByte('o', 111, s3, r3);
    PrependByte('t', 116, s4, r4);
    PrependByte('f', 102, s5, r5);
    PrependByte('a', 97, s6, r6);
    assert "aftovw-" + more == ['a'] + s6;
    assert [97, 102, 116, 111, 118, 119, 45] + rest == [97] + r6;
  }

  lemma TwoLabels()
    ensures Bytes(Label("aftovw", 5)) == [97, 102, 116, 111, 118, 119, 45] + [53]
    ensures Bytes(Label("aftovw", 19)) == [97, 102, 116, 111, 118, 119, 45] + [49, 57]
  {
    hide Bytes;
    TwoIndices();
    ByteOf('5', 53);
    ByteOf('9', 57);
    PrependByte('1', 49, "9", [57]);
    assert ['1'] + "9" == "19" && [49] + [57] == [49, 57];
    NameBytes("5", [53]);
    NameBytes("19", [49, 57]);
  }

  lemma TwoIndices()
    ensures Label("aftovw", 5) == "aftovw-" + "5" && Label("aftovw", 19) == "aftovw-" + "19"
  {
    assert Decimal(5) == "5" && Decimal(19) == "19";
    assert "aftovw" + "-" == "aftovw-";
  }

  /** Labels of one node whose indices differ in length can collide: the balancer may raise this
    * node to twenty labels, and two of those share a point. */
  lemma OwnLabelsCanCollide()
    ensures CrcPoint(Label("aftovw", 5)) == CrcPoint(Label("aftovw", 19))
    ensures !OwnLabelsDiffer(DEFAULT_CONFIG.hash, "aftovw", 20)
  {
    hide Serial, Bytes, Label, Unsigned;
    TwoLabels();
    AbsorbName([53]);
    AbsorbName([49, 57]);
    AbsorbIndices();
    assert CrcPoint(Label("aftovw", 5)) == CrcPoint(Label("aftovw", 19));
  }
}
