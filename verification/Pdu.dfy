/** The protocol data unit of the chat/file application as bytes: a 76-byte header of three
  * little-endian words and 64 parameter bytes, followed by the message. */
module Pdu {

  type Octet = x: int | 0 <= x < 256
  type U32 = x: int | 0 <= x < 0x1_0000_0000

  const HEADER := 76

  const UPLOAD_INIT_REQUEST: U32 := 33
  const UPLOAD_INIT_RESPOND: U32 := 34
  const UPLOAD_DATA_REQUEST: U32 := 35
  const UPLOAD_DATA_RESPOND: U32 := 36

  /** The 64 parameter bytes. */
  type Params = d: seq<Octet> | |d| == 64 witness seq<Octet>(64, _ => 0)

  datatype Pdu = Pdu(pduLen: U32, msgLen: U32, msgType: U32, data: Params, msg: seq<Octet>)

  function LE32(x: U32): (b: seq<Octet>)
    ensures |b| == 4
  {
    var b0: int := x;
    var b1: int := b0 / 256;
    var b2: int := b1 / 256;
    var b3: int := b2 / 256;
    [b0 % 256, b1 % 256, b2 % 256, b3]
  }

  function From32(b: seq<Octet>): U32
    requires |b| == 4
  {
    var b0: int, b1: int, b2: int, b3: int := b[0], b[1], b[2], b[3];
    b0 + 0x100 * b1 + 0x1_0000 * b2 + 0x100_0000 * b3
  }

  /** The lowest byte comes first. */
  lemma LE32Bytes(x: U32)
    ensures LE32(x)[0] == x % 0x100
    ensures LE32(x)[1] == x / 0x100 % 0x100
    ensures LE32(x)[2] == x / 0x1_0000 % 0x100
    ensures LE32(x)[3] == x / 0x100_0000
  {
    ShiftedDown(x);
  }

  lemma ShiftedDown(x: nat)
    ensures x / 0x100 / 0x100 == x / 0x1_0000 && x / 0x100 / 0x100 / 0x100 == x / 0x100_0000
  {}

  lemma RoundTrip32(x: U32)
    ensures From32(LE32(x)) == x
  {}

  /** A `qint64` in memory. */
  function LE64(x: int): (b: seq<Octet>)
    requires -0x8000_0000_0000_0000 <= x < 0x8000_0000_0000_0000
    ensures |b| == 8
  {
    var u := if x < 0 then x + 0x1_0000_0000_0000_0000 else x;
    LE32(u % 0x1_0000_0000) + LE32(u / 0x1_0000_0000)
  }

  function From64(b: seq<Octet>): int
    requires |b| == 8
  {
    var u := From32(b[..4]) + 0x1_0000_0000 * From32(b[4..]);
    if u < 0x8000_0000_0000_0000 then u else u - 0x1_0000_0000_0000_0000
  }

  /** Low word first; a negative number is its two's complement. */
  lemma LE64Words(x: int)
    requires -0x8000_0000_0000_0000 <= x < 0x8000_0000_0000_0000
    ensures LE64(x) == LE32(x % 0x1_0000_0000) + LE32((x / 0x1_0000_0000) % 0x1_0000_0000)
  {
    hide LE32;
  }

  lemma RoundTrip64(x: int)
    requires -0x8000_0000_0000_0000 <= x < 0x8000_0000_0000_0000
    ensures From64(LE64(x)) == x
  {
    var u := if x < 0 then x + 0x1_0000_0000_0000_0000 else x;
    var low, high := LE32(u % 0x1_0000_0000), LE32(u / 0x1_0000_0000);
    assert LE64(x)[..4] == low && LE64(x)[4..] == high;
    RoundTrip32(u % 0x1_0000_0000);
    RoundTrip32(u / 0x1_0000_0000);
  }

  /** The cast of a `uint` to `int`. */
  function ToInt(u: U32): int {
    if u < 0x8000_0000 then u else u - 0x1_0000_0000
  }

  lemma ToIntIsCast(u: U32)
    ensures -0x8000_0000 <= ToInt(u) < 0x8000_0000 && (u - ToInt(u)) % 0x1_0000_0000 == 0
  {}

  function Zeros(n: nat): seq<Octet> {
    seq<Octet>(n, _ => 0)
  }

  /** The units that `mkPDU` builds and the senders fill in: lengths agree and fit an `int`. */
  predicate WellFormed(p: Pdu) {
    |p.msg| == p.msgLen && p.pduLen == HEADER + p.msgLen && p.pduLen < 0x8000_0000
  }

  /** A unit as the sockets transmit it. */
  function Print(p: Pdu): seq<Octet> {
    LE32(p.pduLen) + LE32(p.msgLen) + LE32(p.msgType) + p.data + p.msg
  }

  /** Where a transmitted unit carries what. */
  lemma PrintLayout(p: Pdu)
    ensures var b := Print(p);
            && |b| == 76 + |p.msg|
            && b[0..4] == LE32(p.pduLen) && b[4..8] == LE32(p.msgLen) && b[8..12] == LE32(p.msgType)
            && b[12..76] == p.data && b[76..] == p.msg
  {
    hide LE32;
  }

  /** The length field at the front of a buffer, as the receiver compares it. */
  function Declared(buf: seq<Octet>): int
    requires |buf| >= HEADER
  {
    ToInt(From32(buf[..4]))
  }

  /** A buffer read through a `PDU*`: the message is what the declared length leaves for it. */
  function View(buf: seq<Octet>): Pdu
    requires |buf| >= HEADER
  {
    Pdu(From32(buf[..4]), From32(buf[4..8]), From32(buf[8..12]), buf[12..HEADER],
        if HEADER <= Declared(buf) <= |buf| then buf[HEADER..Declared(buf)] else [])
  }

  /** Reading back what was printed, whatever follows it. */
  lemma ViewOfPrint(p: Pdu, tail: seq<Octet>)
    requires WellFormed(p)
    ensures |Print(p)| == p.pduLen
    ensures Declared(Print(p) + tail) == p.pduLen && View(Print(p) + tail) == p
    ensures (Print(p) + tail)[p.pduLen..] == tail
  {
    var buf := Print(p) + tail;
    RoundTrip32(p.pduLen);
    RoundTrip32(p.msgLen);
    RoundTrip32(p.msgType);
    assert buf[..4] == LE32(p.pduLen);
    assert buf[4..8] == LE32(p.msgLen);
    assert buf[8..12] == LE32(p.msgType);
    assert buf[12..HEADER] == p.data;
    assert buf[HEADER..p.pduLen] == p.msg;
  }

  /** What `mkPDU` returns. */
  function Blank(msgType: U32, msgLen: nat): Pdu
    requires HEADER + msgLen < 0x1_0000_0000
  {
    Pdu(HEADER + msgLen, msgLen, msgType, Zeros(64), Zeros(msgLen))
  }

  /** Stores a `uint` field. */
  method PutU32(a: array<Octet>, at: nat, x: U32)
    requires at + 4 <= a.Length
    modifies a
    ensures a[..] == old(a[..at]) + LE32(x) + old(a[at + 4..])
  {
    var b := LE32(x);
    a[at], a[at + 1], a[at + 2], a[at + 3] := b[0], b[1], b[2], b[3];
  }

  /** The two length fields at the front. */
  method PutLengths(a: array<Octet>, pduLen: U32, msgLen: U32)
    requires a.Length >= 8
    modifies a
    ensures a[..] == LE32(pduLen) + LE32(msgLen) + old(a[8..])
  {
    hide LE32;
    ghost var tail := a[8..];
    PutU32(a, 4, msgLen);
    assert a[4..] == LE32(msgLen) + tail;
    PutU32(a, 0, pduLen);
  }

  /** `mkPDU`: the total length is a `uint`; where it wraps around to less than the three words,
    * the source would write outside its buffer. */
  method MkPdu(msgType: U32, msgLen: U32) returns (pdu: array<Octet>)
    requires (HEADER + msgLen) % 0x1_0000_0000 >= 12
    ensures fresh(pdu)
    ensures var total := (HEADER + msgLen) % 0x1_0000_0000;
            pdu[..] == LE32(total) + LE32(msgLen) + LE32(msgType) + Zeros(total - 12)
    ensures HEADER + msgLen < 0x1_0000_0000 ==> pdu[..] == Print(Blank(msgType, msgLen))
  {
    hide LE32, Zeros, Print, Blank;
    var pduLen: int := (HEADER + msgLen) % 0x1_0000_0000;
    pdu := new Octet[pduLen](_ => 0);
    AllZero(pdu[12..]);
    PutU32(pdu, 8, msgType);
    assert pdu[8..] == LE32(msgType) + Zeros(pduLen - 12);
    PutLengths(pdu, pduLen, msgLen);
    if HEADER + msgLen < 0x1_0000_0000 {
      BlankPrinted(msgType, msgLen);
    }
  }

  lemma BlankPrinted(msgType: U32, msgLen: nat)
    requires HEADER + msgLen < 0x1_0000_0000
    ensures Print(Blank(msgType, msgLen)) ==
            LE32(HEADER + msgLen) + LE32(msgLen) + LE32(msgType) + Zeros(64 + msgLen)
  {
    hide LE32;
    ZerosAppend(64, msgLen);
    hide Zeros;
  }

  lemma AllZero(s: seq<Octet>)
    requires forall i | 0 <= i < |s| :: s[i] == 0
    ensures s == Zeros(|s|)
  {}

  lemma ZerosAppend(m: nat, n: nat)
    ensures Zeros(m + n) == Zeros(m) + Zeros(n)
  {}
}
