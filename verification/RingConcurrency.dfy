/** The ring under its reader/writer lock. A Get holds the lock shared from its lookup to the
  * second of its two separate counter increments, and any number of Gets overlap; Add, Remove
  * and the balancer are single steps that need the lock to themselves. */
module RingConcurrency {
  import opened Common
  import opened HashRing
  import opened Rebalancing
  import opened RingHistory

  type Tid = nat

  datatype Reader =
    | Located(node: string)  // owner found, neither counter raised
    | Counted(node: string)  // node counter raised, total not yet

  /** `discarded` is the sum of the counters that Remove has thrown away since the last reset. */
  datatype Sys = Sys(ring: Ring, readers: map<Tid, Reader>, discarded: nat)

  datatype Step =
    | BeginGet(t: Tid, key: string)
    | BumpNode(t: Tid)
    | BumpTotal(t: Tid)
    | Write(op: Op)

  const INITIAL := Sys(EMPTY_RING, map[], 0)

  ghost predicate Enabled(s: Sys, step: Step) {
    match step
    case BeginGet(t, _) => t !in s.readers
    case BumpNode(t) => t in s.readers && s.readers[t].Located?
    case BumpTotal(t) => t in s.readers && s.readers[t].Counted?
    case Write(op) =>
      && s.readers == map[]
      && !op.GetOp?
      && (op.RebalanceOp? ==> IsOrder(op.order, s.ring.counts.Keys))
  }

  function DiscardedBy(s: Sys, op: Op): nat {
    match op
    case RemoveOp(node) =>
      s.discarded + if node != "" && node in s.ring.replicas then ValueAt(s.ring.counts, node) else 0
    case RebalanceOp(_) => if s.ring.replicas == map[] then s.discarded else 0
    case _ => s.discarded
  }

  ghost function Next(cfg: Config, s: Sys, step: Step): Sys
    requires Enabled(s, step)
  {
    match step
    case BeginGet(t, key) =>
      if key == "" || s.ring.keys == [] then s
      else s.(readers := s.readers[t := Located(Route(s.ring, cfg.hash, key))])
    case BumpNode(t) =>
      var node := s.readers[t].node;
      s.(ring := CountNode(s.ring, node), readers := s.readers[t := Counted(node)])
    case BumpTotal(t) => s.(ring := CountTotal(s.ring), readers := s.readers - {t})
    case Write(op) => s.(ring := Apply(s.ring, cfg, op), discarded := DiscardedBy(s, op))
  }

  ghost predicate IsRun(cfg: Config, states: seq<Sys>, steps: seq<Step>) {
    && |states| == |steps| + 1
    && states[0] == INITIAL
    && forall i | 0 <= i < |steps| :: Enabled(states[i], steps[i]) && states[i + 1] == Next(cfg, states[i], steps[i])
  }

  // ---- Counters ----

  /** The Gets that have raised their node's counter but not yet the total. */
  ghost function BetweenIncrements(s: Sys): set<Tid> {
    set t | t in s.readers && s.readers[t].Counted?
  }

  ghost predicate Conserved(s: Sys) {
    Total(s.ring.counts) + s.discarded == s.ring.total + |BetweenIncrements(s)|
  }

  lemma {:induction false} PlaceAllCounts(r: Ring, hash: HashFunc, nodes: seq<string>, n: int)
    ensures Total(PlaceAll(r, hash, nodes, n).counts) == Total(r.counts)
    ensures PlaceAll(r, hash, nodes, n).total == r.total
    decreases |nodes|
  {
    if nodes != [] {
      hide Points, LabelPoints;
      var q := if nodes[0] == "" then r else Place(r, hash, nodes[0], n);
      TotalUpdate(r.counts, nodes[0], 0);
      PlaceAllCounts(q, hash, nodes[1..], n);
    }
  }

  lemma SettledCounts(q: Ring)
    ensures Total(Settle(q).counts) == 0 && Settle(q).total == 0
  {
    TotalOfZeros(Settle(q).counts);
  }

  lemma WriteConserves(cfg: Config, s: Sys, op: Op)
    requires Conserved(s) && Enabled(s, Write(op))
    ensures Conserved(Next(cfg, s, Write(op)))
  {
    hide PlaceAll, ReplaceAll, SortPoints, Settle, Clear, IsOrder, Total;
    assert BetweenIncrements(s) == {};
    var s' := Next(cfg, s, Write(op));
    assert BetweenIncrements(s') == {};
    match op
    case AddOp(nodes) => PlaceAllCounts(s.ring, cfg.hash, nodes, cfg.replicas);
    case RemoveOp(node) => ClearKeepsCounters(s.ring, cfg.hash, node); TotalWithout(s.ring.counts, node);
    case RebalanceOp(order) => SettledCounts(ReplaceAll(s.ring, s.ring, cfg, order));
  }

  lemma ClearKeepsCounters(r: Ring, hash: HashFunc, node: string)
    ensures forall n :: Clear(r, hash, node, n).counts == r.counts && Clear(r, hash, node, n).total == r.total
  {}

  lemma NodeCounterConserves(cfg: Config, s: Sys, t: Tid)
    requires Conserved(s) && Enabled(s, BumpNode(t))
    ensures Conserved(Next(cfg, s, BumpNode(t)))
  {
    var node := s.readers[t].node;
    var s' := Next(cfg, s, BumpNode(t));
    assert s' == Sys(CountNode(s.ring, node), s.readers[t := Counted(node)], s.discarded);
    hide Next, Total, ValueAt;
    TotalUpdate(s.ring.counts, node, ValueAt(s.ring.counts, node) + 1);
    assert BetweenIncrements(s') == BetweenIncrements(s) + {t};
    assert t !in BetweenIncrements(s);
  }

  lemma TotalCounterConserves(cfg: Config, s: Sys, t: Tid)
    requires Conserved(s) && Enabled(s, BumpTotal(t))
    ensures Conserved(Next(cfg, s, BumpTotal(t)))
  {
    var s' := Next(cfg, s, BumpTotal(t));
    assert s' == Sys(CountTotal(s.ring), s.readers - {t}, s.discarded);
    hide Next, Total;
    assert BetweenIncrements(s') == BetweenIncrements(s) - {t};
    assert t in BetweenIncrements(s);
  }

  lemma BeginConserves(cfg: Config, s: Sys, t: Tid, key: string)
    requires Conserved(s) && Enabled(s, BeginGet(t, key))
    ensures Conserved(Next(cfg, s, BeginGet(t, key)))
  {
    hide Total, Route;
    assert BetweenIncrements(Next(cfg, s, BeginGet(t, key))) == BetweenIncrements(s);
  }

  lemma StepConserves(cfg: Config, s: Sys, step: Step)
    requires Conserved(s) && Enabled(s, step)
    ensures Conserved(Next(cfg, s, step))
  {
    match step
    case BeginGet(t, key) => BeginConserves(cfg, s, t, key);
    case BumpNode(t) => NodeCounterConserves(cfg, s, t);
    case BumpTotal(t) => TotalCounterConserves(cfg, s, t);
    case Write(op) => WriteConserves(cfg, s, op);
  }

  /** In every interleaving the live counters and the discarded ones together account for the
    * total and for the Gets caught between their two increments, of which there are none
    * whenever a writer holds the lock. */
  lemma {:induction false} CountersConserved(cfg: Config, states: seq<Sys>, steps: seq<Step>, i: nat)
    requires IsRun(cfg, states, steps) && i < |states|
    ensures Conserved(states[i])
    ensures i < |steps| && steps[i].Write? ==>
              Total(states[i].ring.counts) + states[i].discarded == states[i].ring.total
  {
    if i == 0 {
      assert BetweenIncrements(INITIAL) == {};
    } else {
      CountersConserved(cfg, states, steps, i - 1);
      assert Enabled(states[i - 1], steps[i - 1]);
      StepConserves(cfg, states[i - 1], steps[i - 1]);
    }
    if i < |steps| && steps[i].Write? {
      assert Enabled(states[i], steps[i]);
      assert BetweenIncrements(states[i]) == {};
    }
  }

  // ---- The ring invariant ----

  /** The condition a caller of Add can check: it never re-adds a node that the balancer has
    * raised above the configured count. */
  predicate Guarded(cfg: Config, s: Sys, step: Step) {
    step.Write? && step.op.AddOp? ==> SafeToPlace(s.ring, step.op.nodes, cfg.replicas)
  }

  /** The ring is valid and every overlapping Get holds a node that has a counter, so the
    * table accesses made under the shared lock find their entry and never insert one. */
  ghost predicate RingOk(cfg: Config, s: Sys) {
    Valid(s.ring, cfg.hash) && forall t | t in s.readers :: s.readers[t].node in s.ring.counts
  }

  lemma StepKeepsRingOk(cfg: Config, s: Sys, step: Step)
    requires RingOk(cfg, s) && Enabled(s, step) && Guarded(cfg, s, step)
    ensures RingOk(cfg, Next(cfg, s, step))
    ensures step.BumpNode? ==> Next(cfg, s, step).ring.counts.Keys == s.ring.counts.Keys
  {
    hide Points, SortPoints, Drop, Serving, PlaceAll, ReplaceAll, Owned, SameDomain;
    match step
    case BeginGet(t, key) => RouteIsRegistered(s.ring, cfg, key);
    case BumpNode(t) => CountingKeepsValid(s.ring, cfg.hash, s.readers[t].node);
    case BumpTotal(t) => CountingKeepsValid(s.ring, cfg.hash, s.readers[t].node);
    case Write(op) =>
      match op
      case AddOp(nodes) => AddKeepsValid(s.ring, cfg, nodes);
      case RemoveOp(node) => RemoveKeepsValid(s.ring, cfg, node);
      case RebalanceOp(order) => RebalanceKeepsValid(s.ring, cfg, order);
  }

  lemma CountingKeepsValid(r: Ring, hash: HashFunc, node: string)
    requires Valid(r, hash) && node in r.counts
    ensures Valid(CountNode(r, node), hash) && Valid(CountTotal(r), hash)
    ensures CountNode(r, node).counts.Keys == r.counts.Keys
  {
    hide Points;
  }

  lemma {:induction false} RingOkThroughout(cfg: Config, states: seq<Sys>, steps: seq<Step>, i: nat)
    requires IsRun(cfg, states, steps) && i < |states|
    requires forall k | 0 <= k < |steps| :: Guarded(cfg, states[k], steps[k])
    ensures RingOk(cfg, states[i])
  {
    if i > 0 {
      RingOkThroughout(cfg, states, steps, i - 1);
      assert Enabled(states[i - 1], steps[i - 1]) && Guarded(cfg, states[i - 1], steps[i - 1]);
      StepKeepsRingOk(cfg, states[i - 1], steps[i - 1]);
    }
  }

  // ---- Statistics ----

  ghost function Sum(m: map<string, real>): real
    decreases |m|
  {
    if m == map[] then 0.0
    else
      var k :| k in m;
      m[k] + Sum(m - {k})
  }

  lemma SumUnfolds(m: map<string, real>) returns (k: string)
    requires m != map[]
    ensures k in m && Sum(m) == m[k] + Sum(m - {k})
  {
    k :| k in m && Sum(m) == m[k] + Sum(m - {k});
  }

  lemma SumOfNone(total: nat)
    requires total > 0
    ensures Sum(map[]) == Total<string>(map[]) as real / total as real
  {}

  lemma {:induction false} SumOfRatios(counts: map<string, nat>, total: nat)
    requires total > 0
    ensures Sum(Ratios(counts, total)) == Total(counts) as real / total as real
    decreases |counts|
  {
    hide Ratios, Sum, Total;
    RatiosKeys(counts, total);
    var m := Ratios(counts, total);
    if counts == map[] {
      assert m == map[];
      SumOfNone(total);
    } else {
      var k := SumUnfolds(m);
      RatiosWithout(counts, total, k);
      SumOfRatios(counts - {k}, total);
      TotalWithout(counts, k);
      SumOfQuotients(counts[k], Total(counts - {k}), total);
    }
  }

  lemma RatiosKeys(counts: map<string, nat>, total: nat)
    requires total > 0
    ensures Ratios(counts, total).Keys == counts.Keys
    ensures counts != map[] ==> Ratios(counts, total) != map[]
  {
    if counts != map[] {
      var k :| k in counts;
      assert k in Ratios(counts, total);
    }
  }

  lemma RatiosWithout(counts: map<string, nat>, total: nat, k: string)
    requires total > 0 && k in counts
    ensures Ratios(counts, total) - {k} == Ratios(counts - {k}, total)
    ensures Ratios(counts, total)[k] == counts[k] as real / total as real
  {}

  lemma SumOfQuotients(a: nat, b: nat, total: nat)
    requires total > 0
    ensures a as real / total as real + b as real / total as real == (a + b) as real / total as real
  {}

  lemma QuotientAtMostOne(a: nat, total: nat)
    requires total > 0
    ensures a as real / total as real <= 1.0 <==> a <= total
  {
    var q := a as real / total as real;
    assert q * total as real == a as real;
    if q <= 1.0 {
      ProductGrows(total as real, q, 1.0);
    } else {
      ProductOrder(1.0, q, total as real);
    }
  }

  /** The load ratios that GetStats reports add up to at most one exactly when the Gets between
    * their increments do not outnumber the discarded counts; so always when no Get is running. */
  lemma StatsSumToAtMostOneIff(cfg: Config, states: seq<Sys>, steps: seq<Step>, i: nat)
    requires IsRun(cfg, states, steps) && i < |states| && states[i].ring.total > 0
    ensures Sum(Ratios(states[i].ring.counts, states[i].ring.total)) <= 1.0
            <==> |BetweenIncrements(states[i])| <= states[i].discarded
    ensures states[i].readers == map[] ==> Sum(Ratios(states[i].ring.counts, states[i].ring.total)) <= 1.0
  {
    var s := states[i];
    CountersConserved(cfg, states, steps, i);
    SumOfRatios(s.ring.counts, s.ring.total);
    QuotientAtMostOne(Total(s.ring.counts), s.ring.total);
    if s.readers == map[] {
      assert BetweenIncrements(s) == {};
    }
  }
}
