/** Adding a node that is already on the ring. `AddNode` overwrites the number of labels the ring
  * remembers; if the balancer had raised it, labels are forgotten while their points stay. */
module ReAdding {
  import opened Labels
  import opened HashRing
  import opened RingMovement
  import opened Rebalancing
  import opened RingHistory
  import opened ConsistentHash

  /** Every point the node owns lies under one of the labels that `Add` places. */
  ghost predicate CoveredByAdd(r: Ring, cfg: Config, node: string) {
    forall p | p in r.owner && r.owner[p] == node :: p in Points(cfg.hash, node, cfg.replicas)
  }

  lemma AddOne(r: Ring, cfg: Config, node: string)
    requires node != ""
    ensures var s, q := Add(r, cfg, [node]), Place(r, cfg.hash, node, cfg.replicas);
            s == q.(keys := SortPoints(q.keys))
  {
    hide Place, SortPoints;
    var q := Place(r, cfg.hash, node, cfg.replicas);
    assert PlaceAll(q, cfg.hash, [node][1..], cfg.replicas) == q;
  }

  lemma AddOneDomain(r: Ring, cfg: Config, node: string)
    requires node != "" && SameDomain(r)
    ensures SameDomain(Add(r, cfg, [node])) && Sorted(Add(r, cfg, [node]).keys)
  {
    hide Place, SameDomain, Sorted;
    AddOne(r, cfg, node);
    PlaceDomain(r, cfg.hash, node, cfg.replicas);
    SortedRing(Place(r, cfg.hash, node, cfg.replicas));
  }

  /** Adding a present node again keeps the ring invariant exactly when each of its points lies
    * under a label that `Add` places; for a complete node whose labels differ, when the ring does
    * not remember more labels than that. */
  lemma ReAddKeepsValidIff(r: Ring, cfg: Config, node: string)
    requires Valid(r, cfg.hash) && node in r.replicas
    ensures Valid(Add(r, cfg, [node]), cfg.hash) <==> CoveredByAdd(r, cfg, node)
    ensures Complete(r, cfg.hash) && cfg.replicas >= 0 && OwnLabelsDiffer(cfg.hash, node, r.replicas[node]) ==>
              (Valid(Add(r, cfg, [node]), cfg.hash) <==> r.replicas[node] <= cfg.replicas)
  {
    hide Points, LabelPoints, SortPoints, SameDomain, Sorted, Add, Complete, OwnLabelsDiffer;
    AddOne(r, cfg, node);
    AddOneDomain(r, cfg, node);
    var n := cfg.replicas;
    if r.replicas[node] <= n {
      PointsGrow(cfg.hash, node, r.replicas[node], n);
    } else if Complete(r, cfg.hash) && n >= 0 && OwnLabelsDiffer(cfg.hash, node, r.replicas[node]) {
      UncoveredLabel(r, cfg, node);
    }
  }

  lemma UncoveredLabel(r: Ring, cfg: Config, node: string)
    requires Complete(r, cfg.hash) && node in r.replicas && 0 <= cfg.replicas < r.replicas[node]
    requires OwnLabelsDiffer(cfg.hash, node, r.replicas[node])
    ensures var p := cfg.hash(Label(node, cfg.replicas));
            p in r.owner && r.owner[p] == node && p !in Points(cfg.hash, node, cfg.replicas)
  {
    LaterLabelIsFresh(cfg.hash, node, cfg.replicas, r.replicas[node]);
    assert cfg.hash(Label(node, cfg.replicas)) in Points(cfg.hash, node, r.replicas[node]);
  }

  /** Otherwise a point is left over: even after `Remove` has taken the node off, that point
    * belongs to it and every key that hashes there is routed to it. */
  lemma OrphanStays(r: Ring, cfg: Config, node: string, p: Point)
    requires Valid(r, cfg.hash) && node in r.replicas
    requires p in r.owner && r.owner[p] == node && p !in Points(cfg.hash, node, cfg.replicas)
    ensures var s := Remove(Add(r, cfg, [node]), cfg, node);
            && node !in s.replicas
            && p in s.owner && s.owner[p] == node
            && forall key | key != "" && cfg.hash(key) == p :: Route(s, cfg.hash, key) == node
  {
    hide Points, LabelPoints, SortPoints, Sorted, Add, Drop, Serving;
    AddOne(r, cfg, node);
    AddOneDomain(r, cfg, node);
    var q := Add(r, cfg, [node]);
    ClearDomain(q, cfg.hash, node, cfg.replicas);
    PointServesItself(Remove(q, cfg, node), p);
  }

  // ---- A run in which it happens ----

  /** "a" owns point 3, "b" the points 5 and, with a second label, 7; keys are served by "a", except
    * those that begin with a 'b'. */
  function TwoNodeHash(s: string): Point {
    if |s| > 0 && s[0] == 'b' then (if s[|s| - 1] == '0' then 5 else 7) else 3
  }

  const TWO_NODES := Config(1, 1, 2, TwoNodeHash, 0.25)

  lemma LabelEnds(node: string, i: nat)
    requires node != ""
    ensures |Label(node, i)| > 0 && Label(node, i)[0] == node[0]
    ensures i < 10 ==> Label(node, i)[|Label(node, i)| - 1] == Digit(i)
  {}

  lemma PointOf(node: string, i: nat)
    requires node == "a" || node == "b"
    ensures TwoNodeHash(Label(node, i)) == 3 <==> node == "a"
    ensures node == "b" && i < 2 ==> TwoNodeHash(Label(node, i)) == if i == 0 then 5 else 7
  {
    LabelEnds(node, i);
    hide Label;
  }

  lemma TwoNodesSeparate()
    ensures Separated(TWO_NODES, {"a", "b"}, 2)
    ensures Points(TwoNodeHash, "b", 1) == {5}
    ensures 3 in Points(TwoNodeHash, "a", 1) && 7 in Points(TwoNodeHash, "b", 2)
  {
    hide TwoNodeHash, Label;
    forall node, i: nat | node == "a" || node == "b"
      ensures TwoNodeHash(Label(node, i)) == 3 <==> node == "a"
    {
      PointOf(node, i);
    }
    PointOf("b", 0);
    PointOf("b", 1);
    assert TwoNodeHash(Label("a", 0)) in Points(TwoNodeHash, "a", 1);
    assert TwoNodeHash(Label("b", 0)) in Points(TwoNodeHash, "b", 1);
    assert TwoNodeHash(Label("b", 1)) in Points(TwoNodeHash, "b", 2);
  }

  /** Both nodes added, then this many requests, all for a key that "a" serves. */
  function Burst(n: nat): seq<Op> {
    [AddOp(["a", "b"])] + seq(n, _ => GetOp("key"))
  }

  lemma BurstSnoc(n: nat)
    ensures Burst(n + 1) == Burst(n) + [GetOp("key")]
    ensures Burst(0) == [AddOp(["a", "b"])]
  {}

  lemma LastOp(cfg: Config, names: set<string>, front: seq<Op>, op: Op)
    requires AllowedRun(cfg, names, front) && Allowed(Run(cfg, front), names, op)
    ensures AllowedRun(cfg, names, front + [op])
    ensures Run(cfg, front + [op]) == Apply(Run(cfg, front), cfg, op)
  {
    var ops := front + [op];
    assert ops[..|ops| - 1] == front && ops[|ops| - 1] == op;
    hide Allowed, Apply;
  }

  lemma TwoAdded()
    ensures AllowedRun(TWO_NODES, {"a", "b"}, Burst(0))
    ensures Run(TWO_NODES, Burst(0)).replicas == map["a" := 1, "b" := 1]
    ensures Run(TWO_NODES, Burst(0)).counts == map["a" := 0, "b" := 0]
    ensures Run(TWO_NODES, Burst(0)).total == 0
  {
    hide SortPoints, LabelPoints, Points;
    BurstSnoc(0);
    var a, b := "a", "b";
    var r1 := Place(EMPTY_RING, TwoNodeHash, a, 1);
    var r2 := Place(r1, TwoNodeHash, b, 1);
    assert [AddOp([a, b])][..0] == [];
    assert Run(TWO_NODES, []) == EMPTY_RING;
    assert [a, b][1..] == [b] && [b][1..] == [];
    assert PlaceAll(r2, TwoNodeHash, [], 1) == r2;
    assert PlaceAll(r1, TwoNodeHash, [b], 1) == r2;
    assert PlaceAll(EMPTY_RING, TwoNodeHash, [a, b], 1) == r2;
  }

  lemma RoutedToA(r: Ring)
    requires Canonical(r, TwoNodeHash) && "a" in r.replicas && r.replicas["a"] == 1
    ensures r.keys != [] && Route(r, TwoNodeHash, "key") == "a"
  {
    hide Points, Times, LabelPoints, Serving;
    TwoNodesSeparate();
    PointServesItself(r, 3);
  }

  lemma {:induction false} AfterBurst(n: nat)
    ensures AllowedRun(TWO_NODES, {"a", "b"}, Burst(n))
    ensures Run(TWO_NODES, Burst(n)).replicas == map["a" := 1, "b" := 1]
    ensures Run(TWO_NODES, Burst(n)).counts == map["a" := n, "b" := 0]
    ensures Run(TWO_NODES, Burst(n)).total == n
  {
    hide Burst, Run, AllowedRun, Canonical, Route, Separated;
    if n == 0 {
      TwoAdded();
    } else {
      var r := Run(TWO_NODES, Burst(n - 1));
      AfterBurst(n - 1);
      BurstSnoc(n - 1);
      LastOp(TWO_NODES, {"a", "b"}, Burst(n - 1), GetOp("key"));
      TwoNodesSeparate();
      RunCanonical(TWO_NODES, {"a", "b"}, 2, Burst(n - 1));
      RoutedToA(r);
      assert r.counts["a" := n] == map["a" := n, "b" := 0];
    }
  }

  /** A thousand requests to "a" make the balancer act, and it doubles "b". */
  lemma BalancerDoublesB(r: Ring)
    requires r.replicas == map["a" := 1, "b" := 1] && r.counts == map["a" := 1000, "b" := 0] && r.total == 1000
    ensures Imbalanced(r, TWO_NODES)
    ensures Target(r, TWO_NODES, "b") == 2
  {
    assert |r.replicas| == 2;
    assert AverageLoad(r) == 500.0;
    assert Deviation(r, "a") == 1.0;
    assert Load(r, "b") == 0.0;
    assert Stretched(1, 0.0) == 2.0;
    assert Round(2.0) == 2 by {
      RoundBetween(2.0, 2);
    }
    assert Target(r, TWO_NODES, "b") == NewReplicas(TWO_NODES, 1, 0.0);
  }

  /** Two nodes, a thousand requests for a key of the first, one balancer run, and the second
    * node added again: the invariant is lost, and once the node has been removed it is still
    * routed to. */
  lemma RaisedNodeReAdded() returns (ops: seq<Op>)
    ensures ops == Burst(1000) + [RebalanceOp(["a", "b"])]
    ensures Imbalanced(Run(TWO_NODES, Burst(1000)), TWO_NODES)
    ensures var r := Run(TWO_NODES, ops);
            var s := Remove(Add(r, TWO_NODES, ["b"]), TWO_NODES, "b");
            && Valid(r, TwoNodeHash) && r.replicas["b" := 2] == r.replicas
            && !Valid(Add(r, TWO_NODES, ["b"]), TwoNodeHash)
            && "b" !in s.replicas && Route(s, TwoNodeHash, "bird") == "b"
  {
    hide Run, AllowedRun, Allowed, Apply, Separated, Canonical, Within, Target, Imbalanced, Burst, Points;
    hide Valid, Add, Remove, Route;
    var names := {"a", "b"};
    var burst, order := Burst(1000), ["a", "b"];
    ops := burst + [RebalanceOp(order)];
    AfterBurst(1000);
    TwoNodesSeparate();
    var r0 := Run(TWO_NODES, burst);
    BalancerDoublesB(r0);
    RunCanonical(TWO_NODES, names, 2, burst);
    BothVisited(r0);
    LastOp(TWO_NODES, names, burst, RebalanceOp(order));
    RunCanonical(TWO_NODES, names, 2, ops);
    var r := Run(TWO_NODES, ops);
    Rebalanced(r0, r, TWO_NODES, order, "b");
    SevenIsOrphan(r);
  }

  lemma BothVisited(r: Ring)
    requires r.counts == map["a" := 1000, "b" := 0]
    ensures Allowed(r, {"a", "b"}, RebalanceOp(["a", "b"]))
  {
    assert r.counts.Keys == {"a", "b"};
  }

  lemma Rebalanced(r: Ring, s: Ring, cfg: Config, order: seq<string>, node: string)
    requires Canonical(r, cfg.hash) && node in r.replicas && Target(r, cfg, node) == 2
    requires Allowed(r, {"a", "b"}, RebalanceOp(order)) && s == Apply(r, cfg, RebalanceOp(order))
    ensures node in s.replicas && s.replicas[node] == 2
  {
    hide Rebalance, Target, SameDomain, Owned, Complete, Multiplied, Sorted;
    RebalanceKeepsValid(r, cfg, order);
  }

  lemma SevenIsOrphan(r: Ring)
    requires Canonical(r, TwoNodeHash) && "b" in r.replicas && r.replicas["b"] == 2
    requires Points(TwoNodeHash, "b", 1) == {5} && 7 in Points(TwoNodeHash, "b", 2)
    ensures var s := Remove(Add(r, TWO_NODES, ["b"]), TWO_NODES, "b");
            && Valid(r, TwoNodeHash) && r.replicas["b" := 2] == r.replicas
            && !Valid(Add(r, TWO_NODES, ["b"]), TwoNodeHash)
            && "b" !in s.replicas && Route(s, TwoNodeHash, "bird") == "b"
  {
    hide Points, Add, Remove, Route, SameDomain, Owned, Sorted, Multiplied;
    assert 7 in r.owner && r.owner[7] == "b";
    ReAddKeepsValidIff(r, TWO_NODES, "b");
    OrphanStays(r, TWO_NODES, "b", 7);
  }
}
