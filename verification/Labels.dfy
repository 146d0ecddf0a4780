/** The names "node-i" under which virtual nodes are hashed onto the ring. */
module Labels {
  import opened Crc32

  function Digit(d: nat): char
    requires d < 10
  {
    "0123456789"[d]
  }

  predicate IsDigit(c: char) {
    '0' <= c <= '9'
  }

  /** `std::to_string` on a non-negative index. */
  function Decimal(i: nat): (s: string)
    ensures |s| > 0 && forall k | 0 <= k < |s| :: IsDigit(s[k])
  {
    if i < 10 then [Digit(i)] else Decimal(i / 10) + [Digit(i % 10)]
  }

  function Label(node: string, i: nat): string {
    node + "-" + Decimal(i)
  }

  function Parse(s: string): int
    requires forall k | 0 <= k < |s| :: IsDigit(s[k])
  {
    if s == [] then 0 else 10 * Parse(s[..|s| - 1]) + (s[|s| - 1] as int - '0' as int)
  }

  lemma {:induction false} ParseDecimal(i: nat)
    ensures Parse(Decimal(i)) == i
  {
    if i >= 10 {
      var s := Decimal(i);
      assert s[..|s| - 1] == Decimal(i / 10);
      ParseDecimal(i / 10);
    }
  }

  /** The dash before the index is the last one. */
  lemma LastDash(node: string, i: nat)
    ensures Label(node, i)[|node|] == '-'
    ensures forall k | |node| < k < |Label(node, i)| :: IsDigit(Label(node, i)[k])
    ensures Label(node, i)[..|node|] == node && Label(node, i)[|node| + 1..] == Decimal(i)
  {}

  /** A label determines its node and its index, whatever characters the node name holds. */
  lemma LabelInjective(m: string, i: nat, n: string, j: nat)
    requires Label(m, i) == Label(n, j)
    ensures m == n && i == j
  {
    LastDash(m, i);
    LastDash(n, j);
    assert |m| == |n|;
    ParseDecimal(i);
    ParseDecimal(j);
  }

  /** The first digit of a decimal is a zero only in "0". */
  lemma {:induction false} NoLeadingZero(i: nat)
    ensures Decimal(i)[0] == '0' <==> i == 0
  {
    if i >= 10 {
      NoLeadingZero(i / 10);
    }
  }

  /** A label is the node's name, a dash, and the decimal digits of the index without leading zeros. */
  lemma LabelReads(node: string, i: nat)
    ensures var digits := Label(node, i)[|node| + 1..];
            && Label(node, i) == node + "-" + digits
            && digits != [] && (digits[0] == '0' ==> i == 0 && |digits| == 1)
            && (forall k | 0 <= k < |digits| :: '0' <= digits[k] <= '9')
            && Parse(digits) == i
  {
    LastDash(node, i);
    NoLeadingZero(i);
    ParseDecimal(i);
  }

  // ---- Labels under CRC-32 ----

  /** The bytes of a string; `std::string` holds bytes, so only the low eight bits count. */
  function Bytes(s: string): seq<Byte> {
    seq(|s|, k requires 0 <= k < |s| => (s[k] as int % 256) as Byte)
  }

  lemma BytesAppend(a: string, b: string)
    ensures Bytes(a + b) == Bytes(a) + Bytes(b)
  {}

  lemma DigitBytesDiffer(c: char, d: char)
    requires IsDigit(c) && IsDigit(d) && c != d
    ensures (c as int % 256) as Byte != (d as int % 256) as Byte
  {}

  lemma DigitStringsDiffer(x: string, y: string)
    requires |x| == |y| && x != y
    requires forall k | 0 <= k < |x| :: IsDigit(x[k]) && IsDigit(y[k])
    ensures |Bytes(x)| == |x| && |Bytes(y)| == |y| && Bytes(x) != Bytes(y)
  {
    var k :| 0 <= k < |x| && x[k] != y[k];
    DigitBytesDiffer(x[k], y[k]);
    assert Bytes(x)[k] != Bytes(y)[k];
  }

  /** With the default hash, two virtual nodes of one node whose indices have the same number
    * of digits, four at most, always occupy different points of the ring. */
  lemma OwnLabelsNeverCollide(node: string, i: nat, j: nat)
    requires i != j && |Decimal(i)| == |Decimal(j)| <= 4
    ensures Checksum(Bytes(Label(node, i))) != Checksum(Bytes(Label(node, j)))
  {
    ParseDecimal(i);
    ParseDecimal(j);
    var x, y, front := Decimal(i), Decimal(j), node + "-";
    DigitStringsDiffer(x, y);
    BytesAppend(front, x);
    BytesAppend(front, y);
    hide Checksum, Bytes, Decimal, Parse;
    ShortWindowNeverCollides(Bytes(front), Bytes(x), Bytes(y), []);
    assert Bytes(front) + Bytes(x) + [] == Bytes(front) + Bytes(x);
    assert Bytes(front) + Bytes(y) + [] == Bytes(front) + Bytes(y);
  }
}
