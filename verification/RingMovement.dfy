/** Which keys change owner when the ring changes, and when the ring is determined by the
  * replica counts alone. Every statement says what it needs to know about collisions. */
module RingMovement {
  import opened Labels
  import opened HashRing

  lemma SuccessorUnique(points: set<Point>, h: Point, p: Point, q: Point)
    requires IsSuccessor(points, h, p) && IsSuccessor(points, h, q)
    ensures p == q
  {
    assert Distance(h, p) == Distance(h, q);
  }

  /** The serving point of a ring, with what is known about it. */
  lemma ServingPoint(r: Ring, h: Point) returns (p: Point)
    requires SameDomain(r) && Sorted(r.keys) && r.keys != []
    ensures p == Serving(r.keys, h) && p in r.owner && IsSuccessor(r.owner.Keys, h, p)
  {
    p := Serving(r.keys, h);
    ServingIsSuccessor(r.keys, r.owner.Keys, h);
  }

  // ---- Adding nodes ----

  lemma {:induction false} PlaceAllOwners(r: Ring, hash: HashFunc, nodes: seq<string>, n: int)
    requires SameDomain(r)
    ensures SameDomain(PlaceAll(r, hash, nodes, n))
    ensures r.owner.Keys <= PlaceAll(r, hash, nodes, n).owner.Keys
    ensures forall p | p in PlaceAll(r, hash, nodes, n).owner ::
              || PlaceAll(r, hash, nodes, n).owner[p] in nodes
              || (p in r.owner && PlaceAll(r, hash, nodes, n).owner[p] == r.owner[p])
    decreases |nodes|
  {
    if nodes != [] {
      PlaceDomain(r, hash, nodes[0], n);
      var q := if nodes[0] == "" then r else Place(r, hash, nodes[0], n);
      PlaceAllOwners(q, hash, nodes[1..], n);
    }
  }

  lemma SortedRing(r: Ring)
    requires SameDomain(r)
    ensures SameDomain(r.(keys := SortPoints(r.keys))) && Sorted(SortPoints(r.keys))
  {
    forall p: Point
      ensures p in SortPoints(r.keys) <==> p in r.keys
    {
      SortKeepsElements(r.keys, p);
    }
  }

  /** Minimal movement on `Add`: every key stays with its owner or moves to an added node,
    * whatever collides with whatever. */
  lemma AddMovesKeysOnlyToAddedNodes(r: Ring, cfg: Config, nodes: seq<string>, key: string)
    requires SameDomain(r) && Sorted(r.keys) && r.keys != [] && key != ""
    ensures var moved := Route(Add(r, cfg, nodes), cfg.hash, key);
            moved == Route(r, cfg.hash, key) || moved in nodes
  {
    hide PlaceAll, SortPoints, Serving;
    if nodes != [] {
      var h := cfg.hash(key);
      var q := PlaceAll(r, cfg.hash, nodes, cfg.replicas);
      PlaceAllOwners(r, cfg.hash, nodes, cfg.replicas);
      SortedRing(q);
      var s := Add(r, cfg, nodes);
      var p := ServingPoint(r, h);
      assert p in s.keys;
      var p' := ServingPoint(s, h);
      if s.owner[p'] !in nodes {
        assert Distance(h, p') == Distance(h, p);
      }
    }
  }

  // ---- Removing a node ----

  /** Every virtual node placed under a label of `node` still belongs to `node`. */
  ghost predicate KeepsItsPoints(r: Ring, hash: HashFunc, node: string)
    requires node in r.replicas
  {
    forall p | p in Points(hash, node, r.replicas[node]) && p in r.owner :: r.owner[p] == node
  }

  /** Of these points of `node`, each that another node owns would be served, without them, by that
    * same other node. */
  ghost predicate TakenPointsFallBack(r: Ring, gone: set<Point>, node: string) {
    forall p | p in gone && p in r.owner && r.owner[p] != node ::
      exists q :: q in r.owner && IsSuccessor(r.owner.Keys - gone, p, q) && r.owner[q] == r.owner[p]
  }

  /** From every hash not served by `node`, the same virtual node serves before and after. */
  ghost predicate OthersKeepServing(before: Ring, after: Ring, node: string)
    requires before.keys != []
  {
    forall h: Point | OwnerAt(before, Serving(before.keys, h)) != node ::
      after.keys != [] && Serving(after.keys, h) == Serving(before.keys, h)
  }

  lemma SmallerSetSameSuccessor(r: Ring, s: Ring, h: Point)
    requires SameDomain(r) && Sorted(r.keys) && r.keys != []
    requires SameDomain(s) && Sorted(s.keys) && s.owner.Keys <= r.owner.Keys
    requires Serving(r.keys, h) in s.owner
    ensures s.keys != [] && Serving(s.keys, h) == Serving(r.keys, h)
  {
    hide Serving;
    var p := ServingPoint(r, h);
    assert p in s.keys;
    var q := ServingPoint(s, h);
    SuccessorUnique(s.owner.Keys, h, p, q);
  }

  lemma PointServesItself(r: Ring, p: Point)
    requires SameDomain(r) && Sorted(r.keys) && p in r.owner
    ensures r.keys != [] && Serving(r.keys, p) == p
  {
    hide Serving;
    assert p in r.keys;
    var q := ServingPoint(r, p);
    assert Distance(p, q) <= Distance(p, p);
  }

  /** Removing a node leaves every other virtual node serving what it served exactly when no other
    * node has taken over one of its points. */
  lemma RemoveDisturbsOnlyOwnKeysIff(r: Ring, cfg: Config, node: string)
    requires Valid(r, cfg.hash) && node in r.replicas && r.keys != []
    ensures OthersKeepServing(r, Remove(r, cfg, node), node) <==> KeepsItsPoints(r, cfg.hash, node)
    ensures KeepsItsPoints(r, cfg.hash, node) ==>
              TakenPointsFallBack(r, Points(cfg.hash, node, r.replicas[node]), node)
  {
    hide Points, Drop, Serving;
    var s := Remove(r, cfg, node);
    ClearDomain(r, cfg.hash, node, r.replicas[node]);
    assert s.owner.Keys == r.owner.Keys - Points(cfg.hash, node, r.replicas[node]);
    hide Remove;
    if KeepsItsPoints(r, cfg.hash, node) {
      forall h: Point | OwnerAt(r, Serving(r.keys, h)) != node
        ensures s.keys != [] && Serving(s.keys, h) == Serving(r.keys, h)
      {
        var p := ServingPoint(r, h);
        SmallerSetSameSuccessor(r, s, h);
      }
    } else {
      var p :| p in Points(cfg.hash, node, r.replicas[node]) && p in r.owner && r.owner[p] != node;
      PointServesItself(r, p);
      if s.keys != [] {
        var q := ServingPoint(s, p);
      }
    }
  }

  /** The owner that serves a hash; none on a ring without points. */
  function OwnerOf(r: Ring, h: Point): string {
    if r.keys == [] then "" else OwnerAt(r, Serving(r.keys, h))
  }

  /** From every hash that `node` does not own, the owner is the same before and after. */
  ghost predicate OthersKeepOwner(before: Ring, after: Ring, node: string) {
    forall h: Point | OwnerOf(before, h) != node :: OwnerOf(after, h) == OwnerOf(before, h)
  }

  /** Skipping the first point met from h leads to the first one met from there. */
  lemma NextSuccessor(points: set<Point>, kept: set<Point>, h: Point, p: Point, q: Point)
    requires IsSuccessor(points, h, p) && kept <= points && IsSuccessor(kept, p, q)
    ensures IsSuccessor(kept, h, q)
  {
    forall x | x in kept
      ensures Distance(h, q) <= Distance(h, x)
    {
      DistanceSplits(h, p, q);
      DistanceSplits(h, p, x);
    }
  }

  lemma DistanceSplits(h: Point, p: Point, x: Point)
    requires Distance(h, p) <= Distance(h, x)
    ensures Distance(h, x) == Distance(h, p) + Distance(p, x)
  {}

  lemma ServingFallsBack(r: Ring, s: Ring, h: Point, q: Point)
    requires SameDomain(r) && Sorted(r.keys) && r.keys != []
    requires SameDomain(s) && Sorted(s.keys) && s.owner.Keys <= r.owner.Keys
    requires IsSuccessor(s.owner.Keys, Serving(r.keys, h), q)
    ensures s.keys != [] && Serving(s.keys, h) == q
  {
    hide Serving;
    assert q in s.keys;
    var p := ServingPoint(r, h);
    var p' := ServingPoint(s, h);
    NextSuccessor(r.owner.Keys, s.owner.Keys, h, p, q);
    SuccessorUnique(s.owner.Keys, h, p', q);
  }

  lemma RemoveLeaves(r: Ring, cfg: Config, node: string)
    requires Valid(r, cfg.hash) && node in r.replicas
    ensures var s := Remove(r, cfg, node);
            && SameDomain(s) && Sorted(s.keys)
            && s.owner.Keys == r.owner.Keys - Points(cfg.hash, node, r.replicas[node])
            && forall p | p in s.owner :: s.owner[p] == r.owner[p]
  {
    hide Points, Drop;
    ClearDomain(r, cfg.hash, node, r.replicas[node]);
  }

  lemma FewerPointsKeepOwnersIff(r: Ring, s: Ring, hash: HashFunc, gone: set<Point>, node: string)
    requires Valid(r, hash) && SameDomain(s) && Sorted(s.keys) && s.owner == r.owner - gone
    ensures OthersKeepOwner(r, s, node) <==> TakenPointsFallBack(r, gone, node)
  {
    hide Points, Serving, IsSuccessor;
    assert s.owner.Keys == r.owner.Keys - gone;
    if TakenPointsFallBack(r, gone, node) {
      NoneFromNone(r, s);
      forall h: Point | OwnerOf(r, h) != node
        ensures OwnerOf(s, h) == OwnerOf(r, h)
      {
        if r.keys != [] {
          var p := ServingPoint(r, h);
          if p in gone {
            var q :| q in r.owner && IsSuccessor(s.owner.Keys, p, q) && r.owner[q] == r.owner[p];
            ServingFallsBack(r, s, h, q);
            SuccessorIn(s.owner.Keys, p, q);
          } else {
            SmallerSetSameSuccessor(r, s, h);
          }
        }
      }
    } else {
      var p :| p in gone && p in r.owner && r.owner[p] != node
               && forall q | q in r.owner && IsSuccessor(s.owner.Keys, p, q) :: r.owner[q] != r.owner[p];
      PointServesItself(r, p);
      assert OwnerOf(r, p) == r.owner[p] != "";
      if s.keys != [] {
        var q := ServingPoint(s, p);
      }
    }
  }

  lemma NoneFromNone(r: Ring, s: Ring)
    requires SameDomain(r) && SameDomain(s) && s.owner.Keys <= r.owner.Keys
    ensures r.keys == [] ==> s.keys == []
  {
    if s.keys != [] {
      assert s.keys[0] in s.owner;
    }
  }

  /** Removing a node changes the owner of nothing it did not own exactly when every point that
    * another node took from it falls back to that other node. */
  lemma RemoveKeepsOtherOwnersIff(r: Ring, cfg: Config, node: string)
    requires Valid(r, cfg.hash) && node in r.replicas
    ensures OthersKeepOwner(r, Remove(r, cfg, node), node)
            <==> TakenPointsFallBack(r, Points(cfg.hash, node, r.replicas[node]), node)
  {
    var s, gone := Remove(r, cfg, node), Points(cfg.hash, node, r.replicas[node]);
    RemoveLeaves(r, cfg, node);
    hide Points, Drop;
    assert s.owner == r.owner - gone;
    hide *;
    FewerPointsKeepOwnersIff(r, s, cfg.hash, gone, node);
  }

  lemma SuccessorIn(points: set<Point>, h: Point, p: Point)
    requires IsSuccessor(points, h, p)
    ensures p in points
  {}

  /** So under that condition, and without collisions in any case, only the removed node's keys
    * move. */
  lemma RemoveMovesOnlyOwnKeys(r: Ring, cfg: Config, node: string, key: string)
    requires Valid(r, cfg.hash) && node in r.replicas && key != "" && r.keys != []
    requires TakenPointsFallBack(r, Points(cfg.hash, node, r.replicas[node]), node)
    ensures Route(r, cfg.hash, key) == node
            || Route(Remove(r, cfg, node), cfg.hash, key) == Route(r, cfg.hash, key)
  {
    hide Points, Remove, Serving, IsSuccessor;
    RemoveKeepsOtherOwnersIff(r, cfg, node);
    assert OwnerOf(r, cfg.hash(key)) == Route(r, cfg.hash, key);
  }

  /** A hash under which the labels of "a" and "b" collide. */
  function CollidingHash(s: string): Point {
    if |s| > 0 && s[0] == 'c' then 9 else 5
  }

  lemma OneLabel(r: Ring, node: string)
    requires |node| > 0
    ensures Points(CollidingHash, node, 1) == {if node[0] == 'c' then 9 else 5}
    ensures Place(r, CollidingHash, node, 1).owner == r.owner[if node[0] == 'c' then 9 else 5 := node]
  {
    assert Label(node, 0)[0] == node[0];
    assert CollidingHash(Label(node, 0)) in Points(CollidingHash, node, 1);
  }

  lemma ThreeNodes(cfg: Config)
    requires cfg == Config(1, 1, 10, CollidingHash, 0.25)
    ensures Add(EMPTY_RING, cfg, ["a", "b", "c"]).owner == map[5 := "b", 9 := "c"]
    ensures Add(EMPTY_RING, cfg, ["a", "b", "c"]).replicas == map["a" := 1, "b" := 1, "c" := 1]
    ensures Points(cfg.hash, "a", 1) == {5}
  {
    hide Points, SortPoints, LabelPoints, CollidingHash;
    var a, b, c := "a", "b", "c";
    var r1 := Place(EMPTY_RING, cfg.hash, a, 1);
    var r2 := Place(r1, cfg.hash, b, 1);
    var r3 := Place(r2, cfg.hash, c, 1);
    OneLabel(EMPTY_RING, a);
    OneLabel(r1, b);
    OneLabel(r2, c);
    assert PlaceAll(EMPTY_RING, cfg.hash, [a, b, c], 1) == r3 by {
      assert [a, b, c][1..] == [b, c] && [b, c][1..] == [c] && [c][1..] == [];
      assert PlaceAll(r3, cfg.hash, [], 1) == r3;
      assert PlaceAll(r2, cfg.hash, [c], 1) == r3;
      assert PlaceAll(r1, cfg.hash, [b, c], 1) == r3;
    }
    hide PlaceAll;
  }

  lemma OwnerOfFive(r: Ring, cfg: Config, p: Point)
    requires cfg.hash == CollidingHash && Valid(r, cfg.hash) && IsSuccessor(r.owner.Keys, 5, p)
    ensures Route(r, cfg.hash, "key") == r.owner[p]
  {
    hide Valid, IsSuccessor, Route;
    RouteIsSuccessorOwner(r, cfg, "key", p);
  }

  lemma RemoveA(r: Ring, cfg: Config)
    requires r.owner == map[5 := "b", 9 := "c"] && "a" in r.replicas && r.replicas["a"] == 1
    requires Points(cfg.hash, "a", 1) == {5}
    ensures Remove(r, cfg, "a").owner == map[9 := "c"]
  {
    hide Points, Drop;
  }

  /** With that hash, removing "a" takes away a key that "b" was serving. */
  lemma RemoveCanDisturbAnotherNode()
    ensures var cfg := Config(1, 1, 10, CollidingHash, 0.25);
            var r := Add(EMPTY_RING, cfg, ["a", "b", "c"]);
            && Valid(r, cfg.hash)
            && Route(r, cfg.hash, "key") == "b"
            && Route(Remove(r, cfg, "a"), cfg.hash, "key") == "c"
  {
    hide *;
    var cfg := Config(1, 1, 10, CollidingHash, 0.25);
    var r := Add(EMPTY_RING, cfg, ["a", "b", "c"]);
    ThreeNodesValid(cfg);
    ThreeNodes(cfg);
    RemoveA(r, cfg);
    RemoveKeepsValid(r, cfg, "a");
    FiveIsServedBy(r);
    FiveIsServedBy(Remove(r, cfg, "a"));
    OwnerOfFive(r, cfg, 5);
    OwnerOfFive(Remove(r, cfg, "a"), cfg, 9);
  }

  lemma ThreeNodesValid(cfg: Config)
    ensures Valid(Add(EMPTY_RING, cfg, ["a", "b", "c"]), cfg.hash)
  {
    AddKeepsValid(EMPTY_RING, cfg, ["a", "b", "c"]);
  }

  lemma FiveIsServedBy(r: Ring)
    ensures r.owner == map[5 := "b", 9 := "c"] ==> IsSuccessor(r.owner.Keys, 5, 5)
    ensures r.owner == map[9 := "c"] ==> IsSuccessor(r.owner.Keys, 5, 9)
  {}

  // ---- Sequences with the same points ----

  ghost function Times(s: seq<Point>, p: Point): nat {
    var m: multiset<Point> := multiset(s);
    m[p]
  }

  lemma TimesIn(s: seq<Point>, p: Point)
    ensures p in s <==> Times(s, p) > 0
  {}

  lemma TimesHead(s: seq<Point>, p: Point)
    requires s != []
    ensures Times(s, p) == Times(s[1..], p) + if s[0] == p then 1 else 0
  {
    assert s == [s[0]] + s[1..];
  }

  lemma TimesAppend(s: seq<Point>, t: seq<Point>, p: Point)
    ensures Times(s + t, p) == Times(s, p) + Times(t, p)
  {}

  lemma TimesSorted(s: seq<Point>, p: Point)
    ensures Times(SortPoints(s), p) == Times(s, p)
  {}

  lemma SameLeast(a: seq<Point>, b: seq<Point>)
    requires Sorted(a) && Sorted(b) && forall p: Point :: Times(a, p) == Times(b, p)
    ensures a == [] <==> b == []
    ensures a != [] ==> a[0] == b[0]
  {
    hide Times;
    if a != [] {
      TimesIn(a, a[0]);
      TimesIn(b, a[0]);
    }
    if b != [] {
      TimesIn(a, b[0]);
      TimesIn(b, b[0]);
    }
  }

  lemma SameTail(a: seq<Point>, b: seq<Point>, p: Point)
    requires a != [] && b != [] && a[0] == b[0] && Times(a, p) == Times(b, p)
    ensures Times(a[1..], p) == Times(b[1..], p)
  {
    hide Times;
    TimesHead(a, p);
    TimesHead(b, p);
  }

  lemma {:induction false} SortedUnique(a: seq<Point>, b: seq<Point>)
    requires Sorted(a) && Sorted(b) && forall p: Point :: Times(a, p) == Times(b, p)
    ensures a == b
  {
    hide Times;
    SameLeast(a, b);
    if a != [] {
      forall p: Point
        ensures Times(a[1..], p) == Times(b[1..], p)
      {
        SameTail(a, b, p);
      }
      SortedUnique(a[1..], b[1..]);
      assert a == [a[0]] + a[1..] && b == [b[0]] + b[1..];
    }
  }

  lemma {:induction false} DropTimes(s: seq<Point>, gone: set<Point>, p: Point)
    ensures Times(Drop(s, gone), p) == if p in gone then 0 else Times(s, p)
  {
    if s != [] {
      TimesHead(s, p);
      DropTimes(s[1..], gone, p);
      if s[0] !in gone {
        var r := Drop(s, gone);
        assert r[1..] == Drop(s[1..], gone);
        TimesHead(r, p);
      }
    }
  }

  lemma LabelsAllDropped(hash: HashFunc, node: string, n: int, keys: seq<Point>)
    requires Sorted(keys) && forall p | p in keys :: p !in Points(hash, node, n)
    ensures Drop(SortPoints(keys + LabelPoints(hash, node, n)), Points(hash, node, n)) == keys
  {
    hide Drop, SortPoints, Times, LabelPoints, Points;
    var gone, labels := Points(hash, node, n), LabelPoints(hash, node, n);
    var all := SortPoints(keys + labels);
    DropSorted(all, gone);
    forall p: Point
      ensures Times(Drop(all, gone), p) == Times(keys, p)
    {
      DropTimes(all, gone, p);
      TimesSorted(keys + labels, p);
      TimesAppend(keys, labels, p);
      TimesIn(keys, p);
      TimesIn(labels, p);
      LabelPointsElements(hash, node, n, p);
    }
    SortedUnique(Drop(all, gone), keys);
  }

  lemma AddThenRemove(r: Ring, cfg: Config, node: string)
    requires node != "" && node !in r.replicas && r.counts.Keys == r.replicas.Keys
    ensures var gone := Points(cfg.hash, node, cfg.replicas);
            Remove(Add(r, cfg, [node]), cfg, node) ==
            r.(keys := Drop(SortPoints(r.keys + LabelPoints(cfg.hash, node, cfg.replicas)), gone),
               owner := r.owner - gone)
  {
    hide Drop, SortPoints, LabelPoints, Points;
    var q := Place(r, cfg.hash, node, cfg.replicas);
    assert PlaceAll(q, cfg.hash, [node][1..], cfg.replicas) == q;
    assert Add(r, cfg, [node]) == q.(keys := SortPoints(q.keys));
    assert q.replicas - {node} == r.replicas && q.counts - {node} == r.counts;
    assert q.owner - Points(cfg.hash, node, cfg.replicas) == r.owner - Points(cfg.hash, node, cfg.replicas);
  }

  /** `Remove` undoes `Add` of a fresh node exactly when none of its points was taken. */
  lemma RemoveUndoesAddIff(r: Ring, cfg: Config, node: string)
    requires Valid(r, cfg.hash) && node != "" && node !in r.replicas
    ensures Remove(Add(r, cfg, [node]), cfg, node) == r
            <==> Points(cfg.hash, node, cfg.replicas) !! r.owner.Keys
  {
    hide Drop, SortPoints, LabelPoints, Points, Owned;
    var n := cfg.replicas;
    var gone := Points(cfg.hash, node, n);
    var s := Remove(Add(r, cfg, [node]), cfg, node);
    AddThenRemove(r, cfg, node);
    hide Add, Remove;
    if gone !! r.owner.Keys {
      LabelsAllDropped(cfg.hash, node, n, r.keys);
      assert r.owner - gone == r.owner;
    } else {
      var p :| p in gone && p in r.owner;
      assert p !in s.owner;
    }
  }

  lemma OwnsNothing(r: Ring, s: Ring, hash: HashFunc, node: string)
    requires Valid(r, hash) && node != "" && node !in r.replicas
    ensures OthersKeepOwner(r, s, node) <==> forall h: Point :: OwnerOf(s, h) == OwnerOf(r, h)
  {
    forall h: Point
      ensures OwnerOf(r, h) != node
    {
      if r.keys != [] {
        var p := ServingPoint(r, h);
      }
    }
    hide OwnerOf;
  }

  /** `Remove` after `Add` of a fresh node restores the owner of every hash exactly when each point
    * that the node took falls back to the node it was taken from. */
  lemma RemoveRestoresOwnersIff(r: Ring, cfg: Config, node: string)
    requires Valid(r, cfg.hash) && node != "" && node !in r.replicas
    ensures (forall h: Point :: OwnerOf(Remove(Add(r, cfg, [node]), cfg, node), h) == OwnerOf(r, h))
            <==> TakenPointsFallBack(r, Points(cfg.hash, node, cfg.replicas), node)
  {
    hide Points, Add, Remove, Drop, SortPoints, LabelPoints, OthersKeepOwner, OwnerOf, TakenPointsFallBack;
    hide SameDomain, Sorted, Owned;
    var s := Remove(Add(r, cfg, [node]), cfg, node);
    AddThenRemove(r, cfg, node);
    AddThenRemoveValid(r, cfg, node);
    FewerPointsKeepOwnersIff(r, s, cfg.hash, Points(cfg.hash, node, cfg.replicas), node);
    OwnsNothing(r, s, cfg.hash, node);
  }

  lemma AddThenRemoveValid(r: Ring, cfg: Config, node: string)
    requires Valid(r, cfg.hash) && node != "" && node !in r.replicas
    ensures Valid(Remove(Add(r, cfg, [node]), cfg, node), cfg.hash)
  {
    hide Add, Remove, Valid;
    AddKeepsValid(r, cfg, [node]);
    RemoveKeepsValid(Add(r, cfg, [node]), cfg, node);
  }

  lemma TwoNodes(cfg: Config)
    requires cfg == Config(1, 1, 10, CollidingHash, 0.25)
    ensures Add(EMPTY_RING, cfg, ["b", "c"]).owner == map[5 := "b", 9 := "c"]
    ensures Add(EMPTY_RING, cfg, ["b", "c"]).replicas == map["b" := 1, "c" := 1]
    ensures Points(cfg.hash, "a", 1) == {5}
  {
    hide Points, SortPoints, LabelPoints, CollidingHash;
    var a, b, c := "a", "b", "c";
    var r1 := Place(EMPTY_RING, cfg.hash, b, 1);
    var r2 := Place(r1, cfg.hash, c, 1);
    OneLabel(EMPTY_RING, a);
    OneLabel(EMPTY_RING, b);
    OneLabel(r1, c);
    assert PlaceAll(EMPTY_RING, cfg.hash, [b, c], 1) == r2 by {
      assert [b, c][1..] == [c] && [c][1..] == [];
      assert PlaceAll(r2, cfg.hash, [], 1) == r2;
      assert PlaceAll(r1, cfg.hash, [c], 1) == r2;
    }
    hide PlaceAll;
  }

  lemma AddAndRemoveA(r: Ring, cfg: Config)
    requires Valid(r, cfg.hash) && r.owner == map[5 := "b", 9 := "c"] && "a" !in r.replicas
    requires cfg.replicas == 1 && Points(cfg.hash, "a", 1) == {5}
    ensures Valid(Remove(Add(r, cfg, ["a"]), cfg, "a"), cfg.hash)
    ensures Remove(Add(r, cfg, ["a"]), cfg, "a").owner == map[9 := "c"]
  {
    hide SameDomain, Owned, Sorted, Points, Add, Remove, Drop, SortPoints, LabelPoints;
    AddThenRemoveValid(r, cfg, "a");
    AddThenRemove(r, cfg, "a");
  }

  /** With the same hash, adding "a" to a ring of "b" and "c" and removing it again leaves a key of
    * "b" with "c". */
  lemma AddAndRemoveCanMoveAKey()
    ensures var cfg := Config(1, 1, 10, CollidingHash, 0.25);
            var r := Add(EMPTY_RING, cfg, ["b", "c"]);
            && Valid(r, cfg.hash) && "a" !in r.replicas
            && Route(r, cfg.hash, "key") == "b"
            && Route(Remove(Add(r, cfg, ["a"]), cfg, "a"), cfg.hash, "key") == "c"
  {
    hide *;
    var cfg := Config(1, 1, 10, CollidingHash, 0.25);
    var r := Add(EMPTY_RING, cfg, ["b", "c"]);
    assert Valid(r, cfg.hash) by {
      TwoNodesValid(cfg);
    }
    TwoNodes(cfg);
    AddAndRemoveA(r, cfg);
    FiveIsServedBy(r);
    FiveIsServedBy(Remove(Add(r, cfg, ["a"]), cfg, "a"));
    OwnerOfFive(r, cfg, 5);
    OwnerOfFive(Remove(Add(r, cfg, ["a"]), cfg, "a"), cfg, 9);
  }

  lemma TwoNodesValid(cfg: Config)
    ensures Valid(Add(EMPTY_RING, cfg, ["b", "c"]), cfg.hash)
  {
    AddKeepsValid(EMPTY_RING, cfg, ["b", "c"]);
  }

  // ---- Rings determined by their replica counts ----

  /** Every label a registered node is due occupies a point that the node owns. */
  ghost predicate Complete(r: Ring, hash: HashFunc) {
    forall node, p | node in r.replicas && p in Points(hash, node, r.replicas[node]) ::
      p in r.owner && r.owner[p] == node
  }

  /** A point stands on the ring as often as its owner has a label for it. */
  ghost predicate Multiplied(r: Ring, hash: HashFunc)
    requires Owned(r, hash)
  {
    forall p | p in r.owner ::
      Times(r.keys, p) == Times(LabelPoints(hash, r.owner[p], r.replicas[r.owner[p]]), p)
  }

  /** Nothing lost and nothing placed twice; order aside, what the replica counts call for. */
  ghost predicate Exact(r: Ring, hash: HashFunc) {
    Coherent(r, hash) && Complete(r, hash) && Multiplied(r, hash)
  }

  ghost predicate Canonical(r: Ring, hash: HashFunc) {
    Exact(r, hash) && Sorted(r.keys)
  }

  /** No two of the node's first n labels share a point. */
  ghost predicate OwnLabelsDiffer(hash: HashFunc, node: string, n: int) {
    forall i: nat, j: nat | i < j < n :: hash(Label(node, i)) != hash(Label(node, j))
  }

  lemma LaterLabelIsFresh(hash: HashFunc, node: string, m: nat, n: int)
    requires OwnLabelsDiffer(hash, node, n) && m < n
    ensures hash(Label(node, m)) !in Points(hash, node, m)
  {}

  lemma {:induction false} LabelPointsOnce(hash: HashFunc, node: string, n: int, p: Point)
    requires OwnLabelsDiffer(hash, node, n)
    ensures Times(LabelPoints(hash, node, n), p) <= 1
    decreases n
  {
    hide Times, LabelPoints, Points;
    if n > 0 {
      var front, last := LabelPoints(hash, node, n - 1), hash(Label(node, n - 1));
      LaterLabelIsFresh(hash, node, n - 1, n);
      LabelPointsOnce(hash, node, n - 1, p);
      LabelPointsElements(hash, node, n - 1, p);
      TimesIn(front, p);
      LabelPointsSnoc(hash, node, n - 1);
      TimesAppend(front, [last], p);
      TimesOne(last, p);
    } else {
      NoLabels(hash, node, n, p);
    }
  }

  lemma LabelPointsSnoc(hash: HashFunc, node: string, n: nat)
    ensures LabelPoints(hash, node, n + 1) == LabelPoints(hash, node, n) + [hash(Label(node, n))]
  {}

  lemma NoLabels(hash: HashFunc, node: string, n: int, p: Point)
    requires n <= 0
    ensures Times(LabelPoints(hash, node, n), p) == 0
  {}

  lemma TimesOne(last: Point, p: Point)
    ensures Times([last], p) == if p == last then 1 else 0
  {}

  lemma TwoPlaces(s: seq<Point>, i: nat, j: nat)
    requires i < j < |s| && s[i] == s[j]
    ensures Times(s, s[i]) >= 2
  {
    hide Times;
    assert s == s[..j] + s[j..];
    TimesAppend(s[..j], s[j..], s[i]);
    assert s[..j][i] == s[i] && s[j..][0] == s[j];
    TimesIn(s[..j], s[i]);
    TimesIn(s[j..], s[i]);
  }

  lemma StrictlySortedOnce(s: seq<Point>, p: Point)
    requires StrictlySorted(s)
    ensures Times(s, p) <= 1
    decreases |s|
  {
    if s != [] {
      hide Times;
      TimesHead(s, p);
      StrictlySortedOnce(s[1..], p);
      TimesIn(s[1..], p);
    } else {
      TimesIn(s, p);
    }
  }

  /** A canonical ring is strictly sorted exactly when no node's own labels collide. */
  lemma CanonicalStrictIff(r: Ring, hash: HashFunc)
    requires Canonical(r, hash)
    ensures StrictlySorted(r.keys)
            <==> forall node | node in r.replicas :: OwnLabelsDiffer(hash, node, r.replicas[node])
  {
    hide Points, LabelPoints, Times, OwnLabelsDiffer;
    if forall node | node in r.replicas :: OwnLabelsDiffer(hash, node, r.replicas[node]) {
      forall i, j | 0 <= i < j < |r.keys|
        ensures r.keys[i] < r.keys[j]
      {
        var p := r.keys[i];
        assert p in r.owner;
        LabelPointsOnce(hash, r.owner[p], r.replicas[r.owner[p]], p);
        if p == r.keys[j] {
          TwoPlaces(r.keys, i, j);
        }
      }
    } else {
      var node :| node in r.replicas && !OwnLabelsDiffer(hash, node, r.replicas[node]);
      var i, j := CollidingLabels(hash, node, r.replicas[node]);
      var p := hash(Label(node, i));
      TwoPlaces(LabelPoints(hash, node, r.replicas[node]), i, j);
      LabelPointsElements(hash, node, r.replicas[node], p);
      assert p in r.owner && r.owner[p] == node;
      if StrictlySorted(r.keys) {
        StrictlySortedOnce(r.keys, p);
      }
    }
  }

  lemma CollidingLabels(hash: HashFunc, node: string, n: int) returns (i: nat, j: nat)
    requires !OwnLabelsDiffer(hash, node, n)
    ensures i < j < n == |LabelPoints(hash, node, n)|
    ensures LabelPoints(hash, node, n)[i] == LabelPoints(hash, node, n)[j] == hash(Label(node, i))
  {
    i, j :| i < j < n && hash(Label(node, i)) == hash(Label(node, j));
  }

  lemma SameOwners(r: Ring, s: Ring, hash: HashFunc)
    requires Owned(r, hash) && Complete(r, hash) && Owned(s, hash) && Complete(s, hash)
    requires r.replicas == s.replicas
    ensures r.owner == s.owner
  {
    hide Points;
    forall p | p in r.owner
      ensures p in s.owner && s.owner[p] == r.owner[p]
    {}
    forall p | p in s.owner
      ensures p in r.owner
    {}
  }

  lemma SameOwnersRouteAlike(r: Ring, s: Ring, hash: HashFunc, key: string)
    requires SameDomain(r) && Sorted(r.keys) && SameDomain(s) && Sorted(s.keys) && r.owner == s.owner
    ensures Route(r, hash, key) == Route(s, hash, key)
  {
    hide Serving;
    PointsTogether(r, s);
    PointsTogether(s, r);
    if r.keys != [] {
      var p := ServingPoint(r, hash(key));
      var q := ServingPoint(s, hash(key));
      SuccessorUnique(r.owner.Keys, hash(key), p, q);
    }
  }

  lemma PointsTogether(r: Ring, s: Ring)
    requires SameDomain(r) && SameDomain(s) && r.owner == s.owner
    ensures r.keys != [] ==> s.keys != []
  {
    if r.keys != [] {
      assert r.keys[0] in s.keys;
    }
  }

  /** Two complete rings with equal replica counts have the same owners and routes, even if a
    * node's own labels collide; canonical ones have the same points, repetitions included. */
  lemma CanonicalDetermined(r: Ring, s: Ring, hash: HashFunc)
    requires Valid(r, hash) && Complete(r, hash) && Valid(s, hash) && Complete(s, hash)
    requires r.replicas == s.replicas
    ensures r.owner == s.owner
    ensures forall key :: Route(r, hash, key) == Route(s, hash, key)
    ensures Multiplied(r, hash) && Multiplied(s, hash) ==> r.keys == s.keys
  {
    hide Times, Points, Complete, Route;
    SameOwners(r, s, hash);
    forall key
      ensures Route(r, hash, key) == Route(s, hash, key)
    {
      SameOwnersRouteAlike(r, s, hash, key);
    }
    if Multiplied(r, hash) && Multiplied(s, hash) {
      forall p: Point
        ensures Times(r.keys, p) == Times(s.keys, p)
      {
        assert p in r.keys <==> p in s.keys;
        TimesIn(r.keys, p);
        TimesIn(s.keys, p);
      }
      SortedUnique(r.keys, s.keys);
    }
  }

  ghost predicate Shrank(before: Ring, after: Ring, node: string) {
    node in before.replicas
    && (node in after.replicas ==> after.replicas[node] < before.replicas[node])
  }

  ghost predicate Grew(before: Ring, after: Ring, node: string) {
    Shrank(after, before, node)
  }

  lemma PointStaysUnlessShrank(r: Ring, s: Ring, hash: HashFunc, p: Point)
    requires Owned(r, hash) && Complete(s, hash) && p in r.owner && !Shrank(r, s, r.owner[p])
    ensures p in s.owner && s.owner[p] == r.owner[p]
  {
    var a := r.owner[p];
    PointsGrow(hash, a, r.replicas[a], s.replicas[a]);
  }

  /** Between any two complete rings, a key changes owner only if its old owner lost virtual
    * nodes or its new owner gained some. */
  lemma KeysMoveOnlyWithReplicas(r: Ring, s: Ring, hash: HashFunc, key: string)
    requires Valid(r, hash) && Complete(r, hash) && Valid(s, hash) && Complete(s, hash)
    requires key != "" && r.keys != [] && s.keys != []
    ensures var a, b := Route(r, hash, key), Route(s, hash, key);
            a == b || Shrank(r, s, a) || Grew(r, s, b)
  {
    hide Points, Serving, Complete, Owned;
    var h := hash(key);
    var p := ServingPoint(r, h);
    var q := ServingPoint(s, h);
    if !Shrank(r, s, r.owner[p]) && !Grew(r, s, s.owner[q]) {
      PointStaysUnlessShrank(r, s, hash, p);
      PointStaysUnlessShrank(s, r, hash, q);
      assert Distance(h, p) == Distance(h, q);
    }
  }
}
