/** What the ring operations do to each of the four structures, said node by node and point by
  * point, and how the sequential Get relates to the steps of an overlapped one. */
module RingEffects {
  import opened Common
  import opened Labels
  import opened HashRing
  import opened RingMovement
  import RC = RingConcurrency

  /** One of the first n labels of the node, "node-0", "node-1" and so on, hashes to the point. */
  ghost predicate HasLabel(hash: HashFunc, node: string, n: int, p: Point) {
    exists i: nat :: i < n && hash(node + "-" + Decimal(i)) == p
  }

  lemma PointsAreLabels(hash: HashFunc, node: string, n: int, p: Point)
    ensures p in Points(hash, node, n) <==> HasLabel(hash, node, n, p)
  {
    if HasLabel(hash, node, n, p) {
      var i: nat :| i < n && hash(node + "-" + Decimal(i)) == p;
      assert hash(Label(node, i)) in Points(hash, node, n);
    }
    if p in Points(hash, node, n) {
      var i: nat :| i < n && p == hash(Label(node, i));
      assert hash(node + "-" + Decimal(i)) == p;
    }
  }

  // ---- Add ----

  lemma {:induction false} PlaceAllNodes(r: Ring, hash: HashFunc, nodes: seq<string>, n: int, node: string)
    ensures var s := PlaceAll(r, hash, nodes, n);
            var added := node in nodes && node != "";
            && (node in s.replicas <==> node in r.replicas || added)
            && (node in s.replicas ==> s.replicas[node] == if added then n else r.replicas[node])
            && (node in s.counts <==> node in r.counts || added)
            && (node in s.counts ==> s.counts[node] == if node in r.counts then r.counts[node] else 0)
            && s.total == r.total
    decreases |nodes|
  {
    if nodes != [] {
      hide Points, LabelPoints;
      PlaceAllNodes(if nodes[0] == "" then r else Place(r, hash, nodes[0], n), hash, nodes[1..], n, node);
    }
  }

  /** What `Add` registers: the listed nodes but the empty name, each with the configured number of
    * labels; a node that was there keeps its counter, a new one starts at zero. */
  lemma AddRegisters(r: Ring, cfg: Config, nodes: seq<string>, node: string)
    ensures var s := Add(r, cfg, nodes);
            var added := node in nodes && node != "";
            && (node in s.replicas <==> node in r.replicas || added)
            && (node in s.replicas ==> s.replicas[node] == if added then cfg.replicas else r.replicas[node])
            && (node in s.counts <==> node in r.counts || added)
            && (node in s.counts ==> s.counts[node] == if node in r.counts then r.counts[node] else 0)
            && s.total == r.total
  {
    hide PlaceAll, SortPoints;
    if nodes != [] {
      PlaceAllNodes(r, cfg.hash, nodes, cfg.replicas, node);
    }
  }

  /** The k-th listed node has a label at the point. */
  ghost predicate LabelledAt(hash: HashFunc, nodes: seq<string>, n: int, p: Point, k: nat) {
    k < |nodes| && nodes[k] != "" && HasLabel(hash, nodes[k], n, p)
  }

  lemma PlaceOne(r: Ring, hash: HashFunc, node: string, n: int, p: Point)
    ensures var s := Place(r, hash, node, n);
            && (p in s.owner <==> p in r.owner || HasLabel(hash, node, n, p))
            && (p in s.owner ==> s.owner[p] == if HasLabel(hash, node, n, p) then node else r.owner[p])
  {
    hide Points, LabelPoints, HasLabel;
    PointsAreLabels(hash, node, n, p);
  }

  lemma {:induction false} PlaceAllPoints(r: Ring, hash: HashFunc, nodes: seq<string>, n: int, p: Point)
    ensures var s := PlaceAll(r, hash, nodes, n);
            && (p in s.owner <==> p in r.owner || exists k: nat :: LabelledAt(hash, nodes, n, p, k))
            && (p in s.owner && (forall k: nat :: !LabelledAt(hash, nodes, n, p, k)) ==> s.owner[p] == r.owner[p])
            && (forall k: nat | LabelledAt(hash, nodes, n, p, k)
                                && forall j: nat | j > k :: !LabelledAt(hash, nodes, n, p, j) ::
                  s.owner[p] == nodes[k])
    decreases |nodes|
  {
    hide HasLabel, Place;
    if nodes != [] {
      var q := if nodes[0] == "" then r else Place(r, hash, nodes[0], n);
      var rest := nodes[1..];
      if nodes[0] != "" {
        PlaceOne(r, hash, nodes[0], n, p);
      }
      PlaceAllPoints(q, hash, rest, n, p);
      forall k: nat
        ensures LabelledAt(hash, nodes, n, p, k + 1) <==> LabelledAt(hash, rest, n, p, k)
      {}
      hide LabelledAt;
      ShiftedLabels(hash, nodes, n, p);
    }
  }

  lemma ShiftedLabels(hash: HashFunc, nodes: seq<string>, n: int, p: Point)
    requires nodes != []
    ensures (exists k: nat :: LabelledAt(hash, nodes, n, p, k))
            <==> LabelledAt(hash, nodes, n, p, 0) || exists k: nat :: LabelledAt(hash, nodes[1..], n, p, k)
  {
    hide HasLabel;
    if k: nat :| LabelledAt(hash, nodes[1..], n, p, k) {
      assert LabelledAt(hash, nodes, n, p, k + 1);
    }
    if k: nat :| LabelledAt(hash, nodes, n, p, k) {
      if k > 0 {
        assert LabelledAt(hash, nodes[1..], n, p, k - 1);
      }
    }
  }

  /** Where `Add` puts points: under every label of a listed node, owned by the last listed node
    * with a label there; every other point stays as it was. */
  lemma AddPlaces(r: Ring, cfg: Config, nodes: seq<string>, p: Point)
    requires SameDomain(r) && Sorted(r.keys)
    ensures var s := Add(r, cfg, nodes);
            && Sorted(s.keys) && (p in s.keys <==> p in s.owner)
            && (p in s.owner <==> p in r.owner || exists k: nat :: LabelledAt(cfg.hash, nodes, cfg.replicas, p, k))
            && (p in s.owner && (forall k: nat :: !LabelledAt(cfg.hash, nodes, cfg.replicas, p, k)) ==>
                  s.owner[p] == r.owner[p])
            && (forall k: nat | LabelledAt(cfg.hash, nodes, cfg.replicas, p, k)
                                && forall j: nat | j > k :: !LabelledAt(cfg.hash, nodes, cfg.replicas, p, j) ::
                  s.owner[p] == nodes[k])
  {
    hide PlaceAll, SortPoints, HasLabel;
    if nodes != [] {
      var q := PlaceAll(r, cfg.hash, nodes, cfg.replicas);
      PlaceAllOwners(r, cfg.hash, nodes, cfg.replicas);
      PlaceAllPoints(r, cfg.hash, nodes, cfg.replicas, p);
      SortedRing(q);
    }
  }

  // ---- Remove ----

  /** What `Remove` takes off: the node, its counter, and every point under one of the labels it was
    * remembered with; all else stays as it was. */
  lemma RemoveTakes(r: Ring, cfg: Config, node: string, p: Point)
    requires node != "" && node in r.replicas
    ensures var s := Remove(r, cfg, node);
            && s.replicas == r.replicas - {node} && s.counts == r.counts - {node} && s.total == r.total
            && (HasLabel(cfg.hash, node, r.replicas[node], p) ==> p !in s.owner && p !in s.keys)
            && (!HasLabel(cfg.hash, node, r.replicas[node], p) ==>
                  && (p in s.owner <==> p in r.owner)
                  && (p in r.owner ==> s.owner[p] == r.owner[p])
                  && Times(s.keys, p) == Times(r.keys, p))
            && (Sorted(r.keys) ==> Sorted(s.keys))
  {
    hide Points, HasLabel, Times, Drop;
    var gone := Points(cfg.hash, node, r.replicas[node]);
    PointsAreLabels(cfg.hash, node, r.replicas[node], p);
    DropTimes(r.keys, gone, p);
    DropElements(r.keys, gone, p);
    DropSorted(r.keys, gone);
  }

  // ---- Get ----

  /** A lookup on a valid ring raises the counter of the node it answers, and the total, by one, and
    * changes nothing else; without an answer it changes nothing. */
  lemma GetCountsItsNode(r: Ring, cfg: Config, key: string)
    requires Valid(r, cfg.hash)
    ensures var node := Route(r, cfg.hash, key);
            && (node == "" ==> Get(r, cfg, key) == r)
            && (node != "" ==>
                  && node in r.counts
                  && Get(r, cfg, key) ==
                     Ring(r.keys, r.owner, r.replicas, r.counts[node := r.counts[node] + 1], r.total + 1))
  {
    hide Route;
    RouteIsRegistered(r, cfg, key);
  }

  /** One reader taking its three steps without interruption does what the sequential Get does. */
  lemma UninterruptedGet(cfg: Config, s: RC.Sys, t: RC.Tid, key: string)
    requires t !in s.readers
    ensures RC.Enabled(s, RC.BeginGet(t, key))
    ensures key == "" || s.ring.keys == [] ==>
              RC.Next(cfg, s, RC.BeginGet(t, key)) == s && Get(s.ring, cfg, key) == s.ring
    ensures key != "" && s.ring.keys != [] ==>
              var s1 := RC.Next(cfg, s, RC.BeginGet(t, key));
              && RC.Enabled(s1, RC.BumpNode(t))
              && var s2 := RC.Next(cfg, s1, RC.BumpNode(t));
              && RC.Enabled(s2, RC.BumpTotal(t))
              && RC.Next(cfg, s2, RC.BumpTotal(t)) == s.(ring := Get(s.ring, cfg, key))
  {
    hide Route;
    if key != "" && s.ring.keys != [] {
      var node := Route(s.ring, cfg.hash, key);
      assert s.readers[t := RC.Located(node)][t := RC.Counted(node)] - {t} == s.readers;
    }
  }

  // ---- Statistics ----

  /** The reported ratio of a node, times the total, is its count. */
  lemma RatiosAreShares(counts: map<string, nat>, total: nat, node: string)
    requires total > 0
    ensures node in Ratios(counts, total) <==> node in counts
    ensures node in counts ==> Ratios(counts, total)[node] * total as real == counts[node] as real
  {}
}
