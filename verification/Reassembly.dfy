/** `MyTcpSocket::recvMsg`: cutting an arbitrary sequence of TCP fragments back into units. */
module Reassembly {
  import opened Common
  import opened Pdu

  /** The units handled, the bytes kept for later, and whether the loop got stuck. */
  datatype Parsed = Parsed(pdus: seq<Pdu>, rest: seq<Octet>, stalled: bool)

  /** The loop of `recvMsg` on one buffer. A declared length of zero, or one that is negative as
    * an `int`, is never waited for and removes nothing. */
  function Split(buf: seq<Octet>): Parsed
    decreases |buf|
  {
    if |buf| < HEADER || |buf| < Declared(buf) then Parsed([], buf, false)
    else if Declared(buf) <= 0 then Parsed([], buf, true)
    else
      var s := Split(buf[Declared(buf)..]);
      Parsed([View(buf)] + s.pdus, s.rest, s.stalled)
  }

  predicate Incomplete(buf: seq<Octet>) {
    |buf| < HEADER || |buf| < Declared(buf)
  }

  lemma SplitCases(buf: seq<Octet>)
    ensures Incomplete(buf) ==> Split(buf) == Parsed([], buf, false)
    ensures !Incomplete(buf) && Declared(buf) <= 0 ==> Split(buf) == Parsed([], buf, true)
    ensures !Incomplete(buf) && Declared(buf) > 0 ==>
              var s := Split(buf[Declared(buf)..]);
              Split(buf) == Parsed([View(buf)] + s.pdus, s.rest, s.stalled)
  {}

  lemma {:induction false} LeftoverIsIncomplete(buf: seq<Octet>)
    ensures !Split(buf).stalled ==> Incomplete(Split(buf).rest)
    ensures Split(buf).stalled ==> !Incomplete(Split(buf).rest) && Declared(Split(buf).rest) <= 0
    decreases |buf|
  {
    if !Incomplete(buf) && Declared(buf) > 0 {
      LeftoverIsIncomplete(buf[Declared(buf)..]);
    }
  }

  // ---- Well-formed units ----

  function PrintAll(pdus: seq<Pdu>): seq<Octet> {
    if pdus == [] then [] else Print(pdus[0]) + PrintAll(pdus[1..])
  }

  lemma SplitOnePrinted(p: Pdu, more: seq<Octet>)
    requires WellFormed(p)
    ensures var s := Split(more);
            Split(Print(p) + more) == Parsed([p] + s.pdus, s.rest, s.stalled)
  {
    ViewOfPrint(p, more);
    hide Print, View, Split, Declared;
    SplitCases(Print(p) + more);
  }

  lemma PrintAllHead(pdus: seq<Pdu>, tail: seq<Octet>)
    requires pdus != []
    ensures PrintAll(pdus) + tail == Print(pdus[0]) + (PrintAll(pdus[1..]) + tail)
  {
    hide Print;
  }

  /** Units that were printed one after the other come back, all and in order, and whatever
    * incomplete piece follows them is kept. */
  lemma {:induction false} SplitOfPrinted(pdus: seq<Pdu>, tail: seq<Octet>)
    requires forall p | p in pdus :: WellFormed(p)
    requires Incomplete(tail)
    ensures Split(PrintAll(pdus) + tail) == Parsed(pdus, tail, false)
    decreases |pdus|
  {
    if pdus == [] {
      assert PrintAll(pdus) + tail == tail;
    } else {
      hide Print, PrintAll, Split, Incomplete, WellFormed;
      PrintAllHead(pdus, tail);
      SplitOnePrinted(pdus[0], PrintAll(pdus[1..]) + tail);
      SplitOfPrinted(pdus[1..], tail);
      assert pdus == [pdus[0]] + pdus[1..];
    }
  }

  // ---- Independence of the fragmentation ----

  lemma HeadOfAppend(a: seq<Octet>, b: seq<Octet>)
    requires !Incomplete(a)
    ensures !Incomplete(a + b) && Declared(a + b) == Declared(a)
    ensures View(a + b) == View(a)
    ensures Declared(a) > 0 ==> (a + b)[Declared(a)..] == a[Declared(a)..] + b
  {
    assert (a + b)[..4] == a[..4] && (a + b)[4..8] == a[4..8] && (a + b)[8..12] == a[8..12];
    assert (a + b)[12..HEADER] == a[12..HEADER];
    if HEADER <= Declared(a) {
      assert (a + b)[HEADER..Declared(a)] == a[HEADER..Declared(a)];
    }
  }

  /** Handling a first piece and then a second one handles what the whole would, on any bytes. */
  lemma {:induction false} SplitAppend(a: seq<Octet>, b: seq<Octet>)
    ensures Split(a).stalled ==> Split(a + b).stalled && Split(a + b).pdus == Split(a).pdus
    ensures !Split(a).stalled ==>
              var s := Split(Split(a).rest + b);
              Split(a + b) == Parsed(Split(a).pdus + s.pdus, s.rest, s.stalled)
    decreases |a|
  {
    hide View, Split, Declared;
    SplitCases(a);
    if Incomplete(a) {
      assert [] + Split(a + b).pdus == Split(a + b).pdus;
    } else {
      HeadOfAppend(a, b);
      SplitCases(a + b);
      if Declared(a) > 0 {
        var n := Declared(a);
        SplitAppend(a[n..], b);
        var s := Split(Split(a).rest + b);
        assert [View(a)] + (Split(a[n..]).pdus + s.pdus) == [View(a)] + Split(a[n..]).pdus + s.pdus;
      }
    }
  }

  /** `recvMsg` on the outcome of the fragments so far; once stuck, nothing more is handled. */
  function Receive(sofar: Parsed, fragment: seq<Octet>): Parsed {
    if sofar.stalled then sofar
    else
      var s := Split(sofar.rest + fragment);
      Parsed(sofar.pdus + s.pdus, s.rest, s.stalled)
  }

  function ReceiveAll(fragments: seq<seq<Octet>>): Parsed {
    if fragments == [] then Parsed([], [], false)
    else Receive(ReceiveAll(fragments[..|fragments| - 1]), fragments[|fragments| - 1])
  }

  /** Handling fragment by fragment is handling the concatenation at once. */
  lemma {:induction false} FragmentsDoNotMatter(fragments: seq<seq<Octet>>)
    ensures ReceiveAll(fragments).pdus == Split(Concat(fragments)).pdus
    ensures ReceiveAll(fragments).stalled == Split(Concat(fragments)).stalled
    ensures !ReceiveAll(fragments).stalled ==> ReceiveAll(fragments).rest == Split(Concat(fragments)).rest
  {
    hide Split, Concat, ReceiveAll;
    if fragments == [] {
      NothingReceived();
    } else {
      var front, last := fragments[..|fragments| - 1], fragments[|fragments| - 1];
      FragmentsDoNotMatter(front);
      ConcatSnoc(front, last);
      assert fragments == front + [last];
      LastReceived(fragments);
      SplitAppend(Concat(front), last);
    }
  }

  lemma NothingReceived()
    ensures ReceiveAll([]) == Parsed([], [], false) && Concat<Octet>([]) == []
    ensures Split([]) == Parsed([], [], false)
  {}

  lemma LastReceived(fragments: seq<seq<Octet>>)
    requires fragments != []
    ensures ReceiveAll(fragments) == Receive(ReceiveAll(fragments[..|fragments| - 1]), fragments[|fragments| - 1])
  {
    hide Receive;
  }

  /** Once handled stays handled, and once stuck stays stuck. */
  lemma {:induction false} ReceivedStays(fragments: seq<seq<Octet>>, k: nat)
    requires k <= |fragments|
    ensures ReceiveAll(fragments[..k]).pdus <= ReceiveAll(fragments).pdus
    ensures ReceiveAll(fragments[..k]).stalled ==> ReceiveAll(fragments).stalled
  {
    hide Split, ReceiveAll;
    if k == |fragments| {
      assert fragments[..k] == fragments;
    } else {
      var front := fragments[..|fragments| - 1];
      ReceivedStays(front, k);
      assert front[..k] == fragments[..k];
      LastReceived(fragments);
    }
  }

  /** For well-formed units, any fragmentation of their concatenation is handled completely, in
    * order and without getting stuck; of a stream cut short, exactly the whole units are. */
  lemma PrintedUnitsArrive(pdus: seq<Pdu>, tail: seq<Octet>, fragments: seq<seq<Octet>>)
    requires forall p | p in pdus :: WellFormed(p)
    requires Incomplete(tail) && Concat(fragments) == PrintAll(pdus) + tail
    ensures ReceiveAll(fragments) == Parsed(pdus, tail, false)
  {
    FragmentsDoNotMatter(fragments);
    SplitOfPrinted(pdus, tail);
  }

  // ---- Termination ----

  /** The loop condition and the check inside it: there is a unit to handle. */
  predicate Continues(buf: seq<Octet>) {
    !Incomplete(buf)
  }

  /** `buffer.remove(0, n)`: nothing for n <= 0. */
  function RemoveFront(buf: seq<Octet>, n: int): seq<Octet> {
    if n <= 0 then buf else if n >= |buf| then [] else buf[n..]
  }

  function Iterate(buf: seq<Octet>, n: nat): seq<Octet>
    decreases n
  {
    if n == 0 || !Continues(buf) then buf else Iterate(RemoveFront(buf, Declared(buf)), n - 1)
  }

  lemma {:induction false} StuckForever(buf: seq<Octet>, n: nat)
    requires Continues(buf) && Declared(buf) <= 0
    ensures Iterate(buf, n) == buf
    decreases n
  {
    if n > 0 {
      StuckForever(buf, n - 1);
    }
  }

  lemma IterateStep(buf: seq<Octet>, n: nat)
    requires n > 0 && Continues(buf) && Declared(buf) > 0
    ensures Iterate(buf, n) == Iterate(buf[Declared(buf)..], n - 1)
  {
    assert RemoveFront(buf, Declared(buf)) == buf[Declared(buf)..];
    hide Declared;
  }

  lemma IterateStays(buf: seq<Octet>, n: nat)
    requires !Continues(buf)
    ensures Iterate(buf, n) == buf
  {}

  lemma {:induction false} IterateReachesRest(buf: seq<Octet>, n: nat)
    requires |Split(buf).pdus| <= n
    ensures Iterate(buf, n) == Split(buf).rest
    decreases n
  {
    hide Split, View, Declared, Iterate;
    SplitCases(buf);
    if !Continues(buf) {
      IterateStays(buf, n);
    } else if Declared(buf) > 0 {
      IterateStep(buf, n);
      IterateReachesRest(buf[Declared(buf)..], n - 1);
    } else {
      StuckForever(buf, n);
    }
  }

  /** Before it has handled everything, the loop continues, on a unit of positive length. */
  lemma {:induction false} IterateBefore(buf: seq<Octet>, n: nat)
    requires n < |Split(buf).pdus|
    ensures Continues(Iterate(buf, n)) && Declared(Iterate(buf, n)) > 0
    decreases n
  {
    hide Split, View, Declared, Iterate;
    SplitCases(buf);
    if n > 0 {
      IterateStep(buf, n);
      IterateBefore(buf[Declared(buf)..], n - 1);
    } else {
      IterateNone(buf);
    }
  }

  lemma IterateNone(buf: seq<Octet>)
    ensures Iterate(buf, 0) == buf
  {}

  /** At some iteration the loop stands before a unit whose length is zero or negative as an `int`. */
  ghost predicate MeetsBadLength(buf: seq<Octet>) {
    exists n: nat :: Continues(Iterate(buf, n)) && Declared(Iterate(buf, n)) <= 0
  }

  /** The loop comes to an end exactly when it meets no such unit; and that is what `stalled` says. */
  lemma LoopEndsIff(buf: seq<Octet>)
    ensures (exists n: nat :: !Continues(Iterate(buf, n))) <==> !MeetsBadLength(buf)
    ensures Split(buf).stalled <==> MeetsBadLength(buf)
  {
    hide Split, Declared, Iterate;
    LeftoverIsIncomplete(buf);
    var k := |Split(buf).pdus|;
    IterateReachesRest(buf, k);
    forall n: nat
      ensures Split(buf).stalled ==> Continues(Iterate(buf, n))
      ensures !Split(buf).stalled ==> Continues(Iterate(buf, n)) ==> Declared(Iterate(buf, n)) > 0
    {
      if n < k {
        IterateBefore(buf, n);
      } else {
        IterateReachesRest(buf, n);
      }
    }
  }

  /** A header of 76 zero bytes keeps the loop busy for ever. */
  lemma ZeroHeaderNeverEnds(n: nat)
    ensures Continues(Iterate(Zeros(HEADER), n)) && MeetsBadLength(Zeros(HEADER))
  {
    var buf := Zeros(HEADER);
    assert Declared(buf) == 0;
    hide Declared;
    StuckForever(buf, n);
    IterateNone(buf);
  }
}
