/** Whole runs of ring operations on names whose labels keep out of each other's way: the ring is
  * a function of the replica counts, whatever happened before. A node's own labels may collide
  * with one another. */
module RingHistory {
  import opened Labels
  import opened HashRing
  import opened RingMovement
  import opened Rebalancing

  /** No point is shared by labels of two different names, among the first `bound` of each. */
  ghost predicate NamesSeparate(hash: HashFunc, names: set<string>, bound: int) {
    forall a, b, i: nat, j: nat | a in names && b in names && i < bound && j < bound
                                  && hash(Label(a, i)) == hash(Label(b, j)) ::
      a == b
  }

  ghost predicate Within(r: Ring, names: set<string>, bound: int) {
    r.replicas.Keys <= names && forall node | node in r.replicas :: r.replicas[node] <= bound
  }

  lemma PointsDisjoint(hash: HashFunc, names: set<string>, bound: int, a: string, m: int, b: string, n: int)
    requires NamesSeparate(hash, names, bound) && a in names && b in names && a != b && m <= bound && n <= bound
    ensures Points(hash, a, m) !! Points(hash, b, n)
  {}

  /** What `Exact` needs besides the counters. */
  ghost predicate Sound(r: Ring, hash: HashFunc) {
    SameDomain(r) && Owned(r, hash) && Complete(r, hash) && Multiplied(r, hash)
  }

  lemma PlaceComplete(r: Ring, hash: HashFunc, names: set<string>, bound: int, node: string, n: int)
    requires Complete(r, hash) && NamesSeparate(hash, names, bound) && Within(r, names, bound)
    requires node in names && node !in r.replicas && n <= bound
    ensures Complete(Place(r, hash, node, n), hash)
  {
    hide Points, NamesSeparate;
    var s := Place(r, hash, node, n);
    forall m, p | m in s.replicas && p in Points(hash, m, s.replicas[m])
      ensures p in s.owner && s.owner[p] == m
    {
      if m != node {
        PointsDisjoint(hash, names, bound, m, r.replicas[m], node, n);
      }
    }
  }

  lemma PlaceMultiplied(r: Ring, hash: HashFunc, names: set<string>, bound: int, node: string, n: int)
    requires Sound(r, hash) && NamesSeparate(hash, names, bound) && Within(r, names, bound)
    requires node in names && node !in r.replicas && n <= bound
    requires Owned(Place(r, hash, node, n), hash)
    ensures Multiplied(Place(r, hash, node, n), hash)
  {
    hide Points, LabelPoints, NamesSeparate, Times, Complete;
    var s, labels := Place(r, hash, node, n), LabelPoints(hash, node, n);
    forall p | p in s.owner
      ensures Times(s.keys, p) == Times(LabelPoints(hash, s.owner[p], s.replicas[s.owner[p]]), p)
    {
      TimesAppend(r.keys, labels, p);
      LabelPointsElements(hash, node, n, p);
      TimesIn(labels, p);
      TimesIn(r.keys, p);
      if p in r.owner {
        PointsDisjoint(hash, names, bound, r.owner[p], r.replicas[r.owner[p]], node, n);
      }
    }
  }

  lemma PlaceSound(r: Ring, hash: HashFunc, names: set<string>, bound: int, node: string, n: int)
    requires Sound(r, hash) && NamesSeparate(hash, names, bound) && Within(r, names, bound)
    requires node in names && node !in r.replicas && n <= bound
    ensures Sound(Place(r, hash, node, n), hash) && Within(Place(r, hash, node, n), names, bound)
  {
    hide Points, LabelPoints, Times, NamesSeparate, Owned, Complete, SameDomain, Multiplied;
    PlaceDomain(r, hash, node, n);
    PlaceOwned(r, hash, node, n);
    PlaceComplete(r, hash, names, bound, node, n);
    PlaceMultiplied(r, hash, names, bound, node, n);
  }

  lemma SoundFrom(r: Ring, hash: HashFunc)
    requires SameDomain(r) && Owned(r, hash) && Complete(r, hash) && Multiplied(r, hash)
    ensures Sound(r, hash)
  {}

  lemma BareSound(r: Ring, hash: HashFunc, node: string)
    requires Sound(r, hash) && node in r.replicas
    ensures Sound(Bare(r, hash, node), hash)
  {
    hide Points, LabelPoints, Drop, Times;
    BareOwned(r, hash, node);
    var q, gone := Bare(r, hash, node), Points(hash, node, r.replicas[node]);
    forall p | p in q.owner
      ensures Times(q.keys, p) == Times(LabelPoints(hash, q.owner[p], q.replicas[q.owner[p]]), p)
    {
      DropTimes(r.keys, gone, p);
    }
    forall m, p | m in q.replicas && p in Points(hash, m, q.replicas[m])
      ensures p in q.owner && q.owner[p] == m
    {
      assert p in r.owner && r.owner[p] == m;
    }
  }

  lemma ReplaceSound(r: Ring, hash: HashFunc, names: set<string>, bound: int, node: string, was: int, n: int)
    requires Sound(r, hash) && NamesSeparate(hash, names, bound) && Within(r, names, bound)
    requires node in r.replicas && n <= bound
    ensures Sound(Replace(r, hash, node, was, n), hash) && Within(Replace(r, hash, node, was, n), names, bound)
    ensures Replace(r, hash, node, was, n).replicas.Keys == r.replicas.Keys
  {
    hide Sound, NamesSeparate;
    BareSound(r, hash, node);
    PlaceSound(Bare(r, hash, node), hash, names, bound, node, n);
  }

  lemma TargetAtMost(r: Ring, cfg: Config, node: string)
    ensures Target(r, cfg, node) <= cfg.maxReplicas
  {}

  lemma {:induction false} ReplaceAllSound(
    q: Ring, snapshot: Ring, cfg: Config, names: set<string>, bound: int, order: seq<string>)
    requires Sound(q, cfg.hash) && NamesSeparate(cfg.hash, names, bound) && Within(q, names, bound)
    requires cfg.maxReplicas <= bound && forall node | node in order :: node in q.replicas
    ensures Sound(ReplaceAll(q, snapshot, cfg, order), cfg.hash)
    ensures Within(ReplaceAll(q, snapshot, cfg, order), names, bound)
    decreases |order|
  {
    if order != [] {
      hide Sound, NamesSeparate, Within, Replace, Target;
      var node := order[0];
      TargetAtMost(snapshot, cfg, node);
      ReplaceSound(q, cfg.hash, names, bound, node, Replicas(snapshot, node), Target(snapshot, cfg, node));
      ReplaceAllSound(Replace(q, cfg.hash, node, Replicas(snapshot, node), Target(snapshot, cfg, node)),
                      snapshot, cfg, names, bound, order[1..]);
    }
  }

  lemma SortSound(r: Ring, hash: HashFunc)
    requires Sound(r, hash)
    ensures Sound(r.(keys := SortPoints(r.keys)), hash) && Sorted(SortPoints(r.keys))
  {
    hide Times, Points, LabelPoints, SortPoints, SameDomain;
    SortedRing(r);
    var s := r.(keys := SortPoints(r.keys));
    assert Owned(s, hash) && Complete(s, hash);
    forall p | p in s.owner
      ensures Times(s.keys, p) == Times(LabelPoints(hash, s.owner[p], s.replicas[s.owner[p]]), p)
    {
      TimesSorted(r.keys, p);
    }
  }

  // ---- Runs ----

  datatype Op =
    | AddOp(nodes: seq<string>)
    | RemoveOp(node: string)
    | GetOp(key: string)
    | RebalanceOp(order: seq<string>)

  function Apply(r: Ring, cfg: Config, op: Op): Ring {
    match op
    case AddOp(nodes) => Add(r, cfg, nodes)
    case RemoveOp(node) => Remove(r, cfg, node)
    case GetOp(key) => Get(r, cfg, key)
    case RebalanceOp(order) => Rebalance(r, cfg, order)
  }

  /** Nodes are added while absent, each once; the balancer visits every counter once. */
  ghost predicate Allowed(r: Ring, names: set<string>, op: Op) {
    match op
    case AddOp(nodes) =>
      && (forall node | node in nodes :: node in names && node !in r.replicas)
      && (forall i, j | 0 <= i < j < |nodes| :: nodes[i] != nodes[j])
    case RebalanceOp(order) => IsOrder(order, r.counts.Keys)
    case _ => true
  }

  function Run(cfg: Config, ops: seq<Op>): Ring {
    if ops == [] then EMPTY_RING else Apply(Run(cfg, ops[..|ops| - 1]), cfg, ops[|ops| - 1])
  }

  ghost predicate AllowedRun(cfg: Config, names: set<string>, ops: seq<Op>) {
    ops != [] ==>
      AllowedRun(cfg, names, ops[..|ops| - 1]) && Allowed(Run(cfg, ops[..|ops| - 1]), names, ops[|ops| - 1])
  }

  /** The run hypotheses: these names keep separate up to the largest count used. */
  ghost predicate Separated(cfg: Config, names: set<string>, bound: int) {
    NamesSeparate(cfg.hash, names, bound) && cfg.replicas <= bound && cfg.maxReplicas <= bound
  }

  lemma {:induction false} PlaceAllSound(r: Ring, cfg: Config, names: set<string>, bound: int, nodes: seq<string>)
    requires Sound(r, cfg.hash) && Separated(cfg, names, bound) && Within(r, names, bound)
    requires forall node | node in nodes :: node in names && node !in r.replicas
    requires forall i, j | 0 <= i < j < |nodes| :: nodes[i] != nodes[j]
    ensures Sound(PlaceAll(r, cfg.hash, nodes, cfg.replicas), cfg.hash)
    ensures Within(PlaceAll(r, cfg.hash, nodes, cfg.replicas), names, bound)
    decreases |nodes|
  {
    if nodes != [] {
      hide Sound, NamesSeparate, Within;
      var node := nodes[0];
      if node != "" {
        PlaceSound(r, cfg.hash, names, bound, node, cfg.replicas);
      }
      var q := if node == "" then r else Place(r, cfg.hash, node, cfg.replicas);
      forall other | other in nodes[1..]
        ensures other in names && other !in q.replicas
      {
        assert other in nodes;
      }
      PlaceAllSound(q, cfg, names, bound, nodes[1..]);
    }
  }

  /** One operation keeps the ring canonical. */
  lemma StepCanonical(r: Ring, cfg: Config, names: set<string>, bound: int, op: Op)
    requires Canonical(r, cfg.hash) && Within(r, names, bound)
    requires Separated(cfg, names, bound) && Allowed(r, names, op)
    ensures Canonical(Apply(r, cfg, op), cfg.hash) && Within(Apply(r, cfg, op), names, bound)
  {
    hide Valid, Sound, Complete, Multiplied, NamesSeparate, Add, Remove, Rebalance;
    match op
    case AddOp(nodes) => AddCanonical(r, cfg, names, bound, nodes);
    case RemoveOp(node) => RemoveCanonical(r, cfg, names, bound, node);
    case GetOp(key) => GetCanonical(r, cfg, key);
    case RebalanceOp(order) => RebalanceCanonical(r, cfg, names, bound, order);
  }

  lemma GetCanonical(r: Ring, cfg: Config, key: string)
    requires Canonical(r, cfg.hash)
    ensures Canonical(Get(r, cfg, key), cfg.hash) && Get(r, cfg, key).replicas == r.replicas
  {
    hide Valid, Sound, Route;
    GetKeepsValid(r, cfg, key);
    SoundFrom(r, cfg.hash);
    var s := Get(r, cfg, key);
    OtherCountersSound(r, cfg.hash, s.counts, s.total);
    CanonicalFrom(s, cfg.hash);
  }

  lemma OtherCountersSound(r: Ring, hash: HashFunc, counts: map<string, nat>, total: nat)
    requires Sound(r, hash)
    ensures Sound(r.(counts := counts, total := total), hash)
  {
    hide Points, LabelPoints, Times;
  }

  lemma CanonicalFrom(r: Ring, hash: HashFunc)
    requires Valid(r, hash) && Sound(r, hash)
    ensures Canonical(r, hash)
  {}

  lemma AddCanonical(r: Ring, cfg: Config, names: set<string>, bound: int, nodes: seq<string>)
    requires Canonical(r, cfg.hash) && Within(r, names, bound)
    requires Separated(cfg, names, bound) && Allowed(r, names, AddOp(nodes))
    ensures Canonical(Add(r, cfg, nodes), cfg.hash) && Within(Add(r, cfg, nodes), names, bound)
  {
    SoundFrom(r, cfg.hash);
    AddKeepsValid(r, cfg, nodes);
    PlaceAllSound(r, cfg, names, bound, nodes);
    hide Sound, Valid, Canonical, NamesSeparate, PlaceAll;
    if nodes != [] {
      SortSound(PlaceAll(r, cfg.hash, nodes, cfg.replicas), cfg.hash);
    }
    CanonicalFrom(Add(r, cfg, nodes), cfg.hash);
  }

  lemma RemoveCanonical(r: Ring, cfg: Config, names: set<string>, bound: int, node: string)
    requires Canonical(r, cfg.hash) && Within(r, names, bound)
    ensures Canonical(Remove(r, cfg, node), cfg.hash) && Within(Remove(r, cfg, node), names, bound)
  {
    SoundFrom(r, cfg.hash);
    RemoveKeepsValid(r, cfg, node);
    if node != "" && node in r.replicas {
      hide Valid, Sound, Canonical, Points, Drop, Times;
      BareSound(r, cfg.hash, node);
      var s, q := Remove(r, cfg, node), Bare(r, cfg.hash, node);
      assert s == q.(counts := r.counts - {node});
      OtherCountersSound(q, cfg.hash, s.counts, s.total);
      CanonicalFrom(s, cfg.hash);
    }
  }

  lemma RebalanceCanonical(r: Ring, cfg: Config, names: set<string>, bound: int, order: seq<string>)
    requires Canonical(r, cfg.hash) && Within(r, names, bound)
    requires Separated(cfg, names, bound) && IsOrder(order, r.counts.Keys)
    ensures Canonical(Rebalance(r, cfg, order), cfg.hash) && Within(Rebalance(r, cfg, order), names, bound)
  {
    SoundFrom(r, cfg.hash);
    RebalanceKeepsValid(r, cfg, order);
    CountsMatch(r, cfg.hash);
    hide Valid, Canonical, NamesSeparate, Sound, ReplaceAll, Target;
    if r.replicas != map[] {
      forall node | node in order
        ensures node in r.replicas
      {
        assert node in r.counts.Keys;
      }
      ReplaceAllSound(r, r, cfg, names, bound, order);
      var q := ReplaceAll(r, r, cfg, order);
      SortSound(q, cfg.hash);
      SettleSound(q, cfg.hash);
      CanonicalFrom(Rebalance(r, cfg, order), cfg.hash);
    }
  }

  lemma SettleSound(q: Ring, hash: HashFunc)
    requires Sound(q.(keys := SortPoints(q.keys)), hash)
    ensures Sound(Settle(q), hash)
  {
    hide SortPoints, Times, Points;
  }

  lemma {:induction false} RunCanonical(cfg: Config, names: set<string>, bound: int, ops: seq<Op>)
    requires Separated(cfg, names, bound) && AllowedRun(cfg, names, ops)
    ensures Canonical(Run(cfg, ops), cfg.hash) && Within(Run(cfg, ops), names, bound)
  {
    if ops != [] {
      hide Canonical, Within, Separated, Allowed;
      var front := ops[..|ops| - 1];
      RunCanonical(cfg, names, bound, front);
      StepCanonical(Run(cfg, front), cfg, names, bound, ops[|ops| - 1]);
    }
  }

  /** History independence: after any two runs, balancer runs included, equal replica counts
    * mean the same sorted ring and the same route for every key; the ring is strictly sorted
    * exactly when no registered node's own labels collide. */
  lemma HistoryIndependence(cfg: Config, names: set<string>, bound: int, first: seq<Op>, second: seq<Op>)
    requires Separated(cfg, names, bound) && AllowedRun(cfg, names, first) && AllowedRun(cfg, names, second)
    requires Run(cfg, first).replicas == Run(cfg, second).replicas
    ensures Run(cfg, first).keys == Run(cfg, second).keys && Sorted(Run(cfg, first).keys)
    ensures StrictlySorted(Run(cfg, first).keys) <==>
            forall node | node in Run(cfg, first).replicas ::
              OwnLabelsDiffer(cfg.hash, node, Run(cfg, first).replicas[node])
    ensures Run(cfg, first).owner == Run(cfg, second).owner
    ensures forall key :: Route(Run(cfg, first), cfg.hash, key) == Route(Run(cfg, second), cfg.hash, key)
  {
    hide Run, AllowedRun, Separated, Route, StrictlySorted, OwnLabelsDiffer, Multiplied, Complete, Owned, SameDomain;
    RunCanonical(cfg, names, bound, first);
    RunCanonical(cfg, names, bound, second);
    CanonicalDetermined(Run(cfg, first), Run(cfg, second), cfg.hash);
    CanonicalStrictIff(Run(cfg, first), cfg.hash);
  }

  /** The balancer never moves a key from a node at or below average load to an overloaded one. */
  lemma RebalanceMovesKeysOffOverloadedNodes(
    r: Ring, cfg: Config, names: set<string>, bound: int, order: seq<string>, key: string)
    requires Canonical(r, cfg.hash) && Within(r, names, bound) && Separated(cfg, names, bound)
    requires 0 <= cfg.minReplicas <= cfg.maxReplicas && InRange(r, cfg) && IsOrder(order, r.counts.Keys)
    requires key != "" && r.keys != [] && Rebalance(r, cfg, order).keys != []
    ensures var a, b := Route(r, cfg.hash, key), Route(Rebalance(r, cfg, order), cfg.hash, key);
            && a in r.counts && b in r.counts
            && (a == b || r.counts[a] * |r.replicas| > r.total || r.counts[b] * |r.replicas| <= r.total)
  {
    hide Within, Separated, Rebalance, Route, Overloaded, InRange, SameDomain, Owned, Complete, Multiplied, Sorted;
    RebalanceCanonical(r, cfg, names, bound, order);
    var s := Rebalance(r, cfg, order);
    RebalanceArithmetic(r, cfg, order);
    RouteIsRegistered(r, cfg, key);
    RouteIsRegistered(s, cfg, key);
    CountsMatch(r, cfg.hash);
    OverloadedIff(r, Route(r, cfg.hash, key));
    OverloadedIff(r, Route(s, cfg.hash, key));
    KeysMoveOnlyWithReplicas(r, s, cfg.hash, key);
  }
}
