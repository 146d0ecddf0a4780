/** `ConsistentHashMap` as the source has it: methods that update the four structures in place,
  * each proved to do to the ring exactly what the ring operations say. */
module ConsistentHash {
  import opened Common
  import opened Labels
  import opened HashRing
  import opened RingMovement
  import opened Rebalancing

  // ---- Loop steps ----

  lemma PointsStep(hash: HashFunc, node: string, i: nat)
    ensures Points(hash, node, i + 1) == Points(hash, node, i) + {hash(Label(node, i))}
    ensures LabelPoints(hash, node, i + 1) == LabelPoints(hash, node, i) + [hash(Label(node, i))]
  {}

  lemma NoPoints(hash: HashFunc, node: string, n: int)
    requires n <= 0
    ensures Points(hash, node, n) == {} && LabelPoints(hash, node, n) == []
  {}

  lemma {:induction false} DropNothing(s: seq<Point>)
    ensures Drop(s, {}) == s
  {
    if s != [] {
      DropNothing(s[1..]);
    }
  }

  lemma {:induction false} DropTwice(s: seq<Point>, a: set<Point>, b: set<Point>)
    ensures Drop(Drop(s, a), b) == Drop(s, a + b)
  {
    if s != [] {
      DropTwice(s[1..], a, b);
      if s[0] !in a {
        assert Drop(s, a)[1..] == Drop(s[1..], a);
      }
    }
  }

  lemma {:induction false} ReplaceAllSnoc(q: Ring, snapshot: Ring, cfg: Config, order: seq<string>, node: string)
    ensures ReplaceAll(q, snapshot, cfg, order + [node])
            == Replace(ReplaceAll(q, snapshot, cfg, order), cfg.hash, node,
                       Replicas(snapshot, node), Target(snapshot, cfg, node))
    decreases |order|
  {
    hide Replace, Target, Replicas;
    if order == [] {
      assert [] + [node] == [node] && [node][1..] == [];
      var r := Replace(q, cfg.hash, node, Replicas(snapshot, node), Target(snapshot, cfg, node));
      assert ReplaceAll(r, snapshot, cfg, []) == r;
    } else {
      assert (order + [node])[1..] == order[1..] + [node];
      ReplaceAllSnoc(
        Replace(q, cfg.hash, order[0], Replicas(snapshot, order[0]), Target(snapshot, cfg, order[0])),
        snapshot, cfg, order[1..], node);
    }
  }

  lemma ReplaceDomain(r: Ring, hash: HashFunc, node: string, was: int, n: int)
    requires SameDomain(r)
    ensures SameDomain(Replace(r, hash, node, was, n))
  {
    ClearDomain(r, hash, node, Replicas(r, node));
    PlaceDomain(Bare(r, hash, node), hash, node, n);
  }

  lemma EmptyOrder()
    ensures IsOrder([], {})
  {}

  lemma OrderSnoc(order: seq<string>, done: set<string>, node: string)
    requires IsOrder(order, done) && node !in done
    ensures IsOrder(order + [node], done + {node})
  {}

  lemma ReplaceAllNone(r: Ring, cfg: Config)
    ensures ReplaceAll(r, r, cfg, []) == r
  {}

  lemma SettleDomain(q: Ring)
    requires SameDomain(q)
    ensures SameDomain(Settle(q)) && Sorted(Settle(q).keys)
  {
    SortedRing(q);
  }

  // ---- The balancer's trigger ----

  /** How far a node's count is from the average, as a fraction of the average. */
  function Deviation(r: Ring, node: string): real {
    var average, count := AverageLoad(r), ValueAt(r.counts, node) as real;
    var diff := if count >= average then count - average else average - count;
    if average > 0.0 then diff / average else if diff > 0.0 then 1.0 else 0.0
  }

  ghost predicate Imbalanced(r: Ring, cfg: Config) {
    && r.total >= 1000
    && r.replicas != map[]
    && (cfg.threshold < 0.0 || exists node :: node in r.counts && Deviation(r, node) > cfg.threshold)
  }

  /** A count's distance from the average, times the number of nodes. */
  function Gap(count: nat, nodes: nat, total: nat): nat {
    if count * nodes >= total then count * nodes - total else total - count * nodes
  }

  lemma AboveAverage(count: real, average: real, nodes: real, total: real)
    requires nodes > 0.0 && average * nodes == total
    ensures (count - average) * nodes == count * nodes - total
    ensures (average - count) * nodes == total - count * nodes
    ensures count >= average <==> count * nodes >= total
  {
    if count >= average {
      ProductGrows(nodes, average, count);
    } else {
      ProductOrder(count, average, nodes);
    }
  }

  lemma DeviationInCounts(r: Ring, node: string)
    requires r.total > 0 && r.replicas != map[] && node in r.counts
    ensures Deviation(r, node) * r.total as real == Gap(r.counts[node], |r.replicas|, r.total) as real
  {
    var c, n, total := r.counts[node], |r.replicas|, r.total;
    var average, d := AverageLoad(r), Deviation(r, node);
    AverageTimesNodes(r);
    var diff := if c as real >= average then c as real - average else average - c as real;
    assert d * average == diff;
    hide Deviation, AverageLoad;
    Regroup(d, average, n as real);
    AboveAverage(c as real, average, n as real, total as real);
    assert (c * n) as real == c as real * n as real;
  }

  lemma AverageTimesNodes(r: Ring)
    requires r.total > 0 && r.replicas != map[]
    ensures |r.replicas| > 0 && AverageLoad(r) * |r.replicas| as real == r.total as real && AverageLoad(r) > 0.0
  {
    var average := AverageLoad(r);
    assert average * |r.replicas| as real == r.total as real;
    hide AverageLoad;
    if average <= 0.0 {
      ProductGrows(|r.replicas| as real, average, 0.0);
    }
  }

  /** The balancer acts exactly when there are a thousand requests and some node, and some count's
    * gap exceeds the threshold's share of the total. */
  lemma ImbalancedIff(r: Ring, cfg: Config)
    ensures Imbalanced(r, cfg) <==>
            && r.total >= 1000 && r.replicas != map[]
            && (cfg.threshold < 0.0
                || exists node :: node in r.counts
                                  && Gap(r.counts[node], |r.replicas|, r.total) as real > cfg.threshold * r.total as real)
  {
    hide Deviation, Gap;
    if r.total >= 1000 && r.replicas != map[] {
      forall node | node in r.counts
        ensures Deviation(r, node) > cfg.threshold
                <==> Gap(r.counts[node], |r.replicas|, r.total) as real > cfg.threshold * r.total as real
      {
        DeviationInCounts(r, node);
        if Deviation(r, node) > cfg.threshold {
          ProductOrder(cfg.threshold, Deviation(r, node), r.total as real);
        } else {
          ProductGrows(r.total as real, Deviation(r, node), cfg.threshold);
        }
      }
    }
  }

  class ConsistentHashMap {
    const config: Config
    var keys: seq<Point>
    var hashMap: map<Point, string>
    var nodeReplicas: map<string, int>
    var nodeCounts: map<string, nat>
    var totalRequests: nat

    ghost function State(): Ring
      reads this
    {
      Ring(keys, hashMap, nodeReplicas, nodeCounts, totalRequests)
    }

    /** What every sequence of calls keeps, with no condition on the arguments. */
    ghost predicate Consistent()
      reads this
    {
      Sorted(keys) && SameDomain(State())
    }

    constructor (cfg: Config)
      ensures config == cfg && State() == EMPTY_RING && Consistent()
    {
      config := cfg;
      keys, hashMap, nodeReplicas, nodeCounts, totalRequests := [], map[], map[], map[], 0;
    }

    method AddNode(node: string, replicas: int)
      modifies this
      ensures State() == Place(old(State()), config.hash, node, replicas)
    {
      hide Points, LabelPoints;
      var i := 0;
      NoPoints(config.hash, node, 0);
      while i < replicas
        invariant 0 <= i && (i <= replicas || i == 0)
        invariant keys == old(keys) + LabelPoints(config.hash, node, i)
        invariant hashMap == old(hashMap) + (map p | p in Points(config.hash, node, i) :: node)
        invariant nodeReplicas == old(nodeReplicas) && nodeCounts == old(nodeCounts)
        invariant totalRequests == old(totalRequests)
      {
        var hash := config.hash(Label(node, i));
        keys := keys + [hash];
        hashMap := hashMap[hash := node];
        PointsStep(config.hash, node, i);
        i := i + 1;
      }
      if replicas < 0 {
        NoPoints(config.hash, node, replicas);
      }
      nodeReplicas := nodeReplicas[node := replicas];
      if node !in nodeCounts {
        nodeCounts := nodeCounts[node := 0];
      }
    }

    method Add(nodes: seq<string>) returns (ok: bool)
      requires Consistent()
      modifies this
      ensures Consistent()
      ensures ok == (nodes != [])
      ensures State() == HashRing.Add(old(State()), config, nodes)
    {
      hide Place, SortPoints, SameDomain;
      if nodes == [] {
        return false;
      }
      for k := 0 to |nodes|
        invariant PlaceAll(State(), config.hash, nodes[k..], config.replicas)
                  == PlaceAll(old(State()), config.hash, nodes, config.replicas)
      {
        assert nodes[k..][0] == nodes[k] && nodes[k..][1..] == nodes[k + 1..];
        if nodes[k] != "" {
          AddNode(nodes[k], config.replicas);
        }
      }
      PlaceAllOwners(old(State()), config.hash, nodes, config.replicas);
      SortedRing(State());
      keys := SortPoints(keys);
      return true;
    }

    /** The loop that takes n labels of a node off the ring. */
    method DropLabels(node: string, n: int)
      modifies this
      ensures State() == Clear(old(State()), config.hash, node, n)
    {
      hide Points, Drop;
      var i := 0;
      NoPoints(config.hash, node, 0);
      DropNothing(keys);
      while i < n
        invariant 0 <= i && (i <= n || i == 0)
        invariant keys == Drop(old(keys), Points(config.hash, node, i))
        invariant hashMap == old(hashMap) - Points(config.hash, node, i)
        invariant nodeReplicas == old(nodeReplicas) && nodeCounts == old(nodeCounts)
        invariant totalRequests == old(totalRequests)
      {
        var hash := config.hash(Label(node, i));
        hashMap := hashMap - {hash};
        DropTwice(old(keys), Points(config.hash, node, i), {hash});
        keys := Drop(keys, {hash});
        PointsStep(config.hash, node, i);
        i := i + 1;
      }
      if n < 0 {
        NoPoints(config.hash, node, n);
      }
    }

    method Remove(node: string) returns (ok: bool)
      requires Consistent()
      modifies this
      ensures Consistent()
      ensures ok == (node != "" && node in old(nodeReplicas))
      ensures State() == HashRing.Remove(old(State()), config, node)
    {
      hide Points, Drop;
      if node == "" {
        return false;
      }
      if node !in nodeReplicas {
        return false;
      }
      ClearDomain(State(), config.hash, node, nodeReplicas[node]);
      DropLabels(node, nodeReplicas[node]);
      nodeReplicas := nodeReplicas - {node};
      nodeCounts := nodeCounts - {node};
      return true;
    }

    method Get(key: string) returns (node: string)
      requires Consistent()
      modifies this
      ensures Consistent()
      ensures node == Route(old(State()), config.hash, key)
      ensures State() == HashRing.Get(old(State()), config, key)
      ensures key == "" || keys == [] ==> node == "" && State() == old(State())
      ensures key != "" && keys != [] ==>
                && keys == old(keys) && hashMap == old(hashMap) && nodeReplicas == old(nodeReplicas)
                && nodeCounts == old(nodeCounts)[node := (if node in old(nodeCounts) then old(nodeCounts)[node] else 0) + 1]
                && totalRequests == old(totalRequests) + 1
    {
      if key == "" {
        return "";
      }
      if keys == [] {
        return "";
      }
      var hash := config.hash(key);
      var it := LowerBound(keys, hash);
      if it == |keys| {
        it := 0;
      }
      assert keys[it] in keys;
      node := hashMap[keys[it]];
      nodeCounts := nodeCounts[node := ValueAt(nodeCounts, node) + 1];
      totalRequests := totalRequests + 1;
    }

    method GetStats() returns (stats: map<string, real>)
      ensures totalRequests == 0 ==> stats == map[]
      ensures totalRequests > 0 ==> stats == Ratios(nodeCounts, totalRequests)
    {
      stats := map[];
      var total := totalRequests;
      if total == 0 {
        return;
      }
      var todo := nodeCounts.Keys;
      while todo != {}
        invariant todo <= nodeCounts.Keys
        invariant stats == map node | node in nodeCounts && node !in todo ::
                             nodeCounts[node] as real / total as real
        decreases todo
      {
        var node :| node in todo;
        stats := stats[node := nodeCounts[node] as real / total as real];
        todo := todo - {node};
      }
    }

    /** The part of the balancer loop that turns a node's load into a number of labels. */
    method ChooseReplicas(was: int, count: nat, average: real) returns (newReplicas: int)
      ensures newReplicas == NewReplicas(config, was, LoadRatio(count, average))
    {
      hide Round, Shrunk, Stretched;
      var loadRatio := 0.0;
      if average > 0.0 {
        loadRatio := count as real / average;
      } else if count > 0 {
        loadRatio := 2.0;
      } else {
        loadRatio := 1.0;
      }
      if loadRatio > 1.0 {
        newReplicas := Round(Shrunk(was, loadRatio));
      } else {
        newReplicas := Round(Stretched(was, loadRatio));
      }
      if newReplicas < config.minReplicas {
        newReplicas := config.minReplicas;
      }
      if newReplicas > config.maxReplicas {
        newReplicas := config.maxReplicas;
      }
    }

    /** The part of the balancer loop that swaps one node's labels for the new number of them. */
    method SetReplicas(node: string, was: int, newReplicas: int)
      modifies this
      ensures State() == Replace(old(State()), config.hash, node, was, newReplicas)
    {
      hide Place, Clear;
      if newReplicas != was {
        DropLabels(node, if node in nodeReplicas then nodeReplicas[node] else 0);
        nodeReplicas := nodeReplicas - {node};
        AddNode(node, newReplicas);
      }
    }

    method RebalanceNodes() returns (ghost order: seq<string>)
      requires Consistent()
      modifies this
      ensures Consistent()
      ensures IsOrder(order, old(nodeCounts).Keys)
      ensures State() == Rebalance(old(State()), config, order)
    {
      hide SortPoints, SameDomain, Replace, ReplaceAll, NewReplicas, LoadRatio, IsOrder, Clear, Place;
      if nodeReplicas == map[] {
        order := AnyOrder(nodeCounts.Keys);
        return;
      }
      ghost var r := State();
      var average := totalRequests as real / |nodeReplicas| as real;
      var currReplicas, currCounts := nodeReplicas, nodeCounts;
      order := [];
      EmptyOrder();
      assert currCounts.Keys - currCounts.Keys == {};
      assert ReplaceAll(r, r, config, order) == r by {
        ReplaceAllNone(r, config);
      }
      var todo := currCounts.Keys;
      while todo != {}
        invariant todo <= currCounts.Keys
        invariant IsOrder(order, currCounts.Keys - todo)
        invariant State() == ReplaceAll(r, r, config, order)
        invariant SameDomain(State())
        decreases todo
      {
        var node :| node in todo;
        var was := if node in currReplicas then currReplicas[node] else 0;
        var newReplicas := ChooseReplicas(was, currCounts[node], average);
        assert was == Replicas(r, node) && newReplicas == Target(r, config, node);
        ReplaceAllSnoc(r, r, config, order, node);
        ReplaceDomain(State(), config.hash, node, was, newReplicas);
        SetReplicas(node, was, newReplicas);
        OrderSnoc(order, currCounts.Keys - todo, node);
        order := order + [node];
        assert currCounts.Keys - todo + {node} == currCounts.Keys - (todo - {node});
        todo := todo - {node};
      }
      assert currCounts.Keys - todo == currCounts.Keys;
      assert ReplaceAll(r, r, config, order) == State();
      SettleDomain(State());
      nodeCounts := map node | node in nodeCounts :: 0;
      totalRequests := 0;
      keys := SortPoints(keys);
    }

    /** The balancer's periodic check, with no other call between its check and its action. */
    method CheckAndRebalance() returns (ghost order: seq<string>)
      requires Consistent()
      modifies this
      ensures Consistent()
      ensures IsOrder(order, old(nodeCounts).Keys)
      ensures State() == if Imbalanced(old(State()), config)
                         then Rebalance(old(State()), config, order)
                         else old(State())
    {
      order := AnyOrder(nodeCounts.Keys);
      if totalRequests < 1000 {
        return;
      }
      if nodeReplicas == map[] {
        return;
      }
      var average := totalRequests as real / |nodeReplicas| as real;
      var maxDiff := 0.0;
      var todo := nodeCounts.Keys;
      while todo != {}
        invariant todo <= nodeCounts.Keys
        invariant maxDiff >= 0.0
        invariant forall node | node in nodeCounts && node !in todo :: Deviation(State(), node) <= maxDiff
        invariant maxDiff == 0.0 || exists node :: node in nodeCounts && Deviation(State(), node) == maxDiff
        decreases todo
      {
        var node :| node in todo;
        var count := nodeCounts[node] as real;
        var diff := if count >= average then count - average else average - count;
        if average > 0.0 {
          if diff / average > maxDiff {
            maxDiff := diff / average;
          }
        } else if diff > 0.0 {
          maxDiff := 1.0;
        }
        assert Deviation(State(), node) <= maxDiff;
        todo := todo - {node};
      }
      if maxDiff > config.threshold {
        order := RebalanceNodes();
      }
    }
  }

  ghost function AnyOrder(nodes: set<string>): (order: seq<string>)
    ensures IsOrder(order, nodes)
  {
    if nodes == {} then []
    else
      var node :| node in nodes;
      AnyOrder(nodes - {node}) + [node]
  }
}
