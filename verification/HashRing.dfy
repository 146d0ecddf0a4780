/** The consistent-hash ring as a value: what each operation of `ConsistentHashMap` does to
  * its four coupled structures, the invariant that ties them together, and the meaning of a
  * lookup. The hash function is an arbitrary parameter; nothing here assumes that two labels
  * hash to different points. */
module HashRing {
  import opened Common
  import opened Labels

  type Point = x: int | 0 <= x < 0x1_0000_0000
  type HashFunc = string -> Point

  datatype Config = Config(replicas: int, minReplicas: int, maxReplicas: int, hash: HashFunc, threshold: real)

  datatype Ring = Ring(
    keys: seq<Point>,
    owner: map<Point, string>,
    replicas: map<string, int>,
    counts: map<string, nat>,
    total: nat)

  const EMPTY_RING := Ring([], map[], map[], map[], 0)

  // ---- Virtual nodes ----

  /** The points of the first n labels of a node, in placing order. */
  function LabelPoints(hash: HashFunc, node: string, n: int): seq<Point> {
    seq<Point>(if n > 0 then n else 0, i requires 0 <= i => hash(Label(node, i)))
  }

  function Points(hash: HashFunc, node: string, n: int): set<Point> {
    set i: nat | i < n :: hash(Label(node, i))
  }

  lemma LabelPointsElements(hash: HashFunc, node: string, n: int, p: Point)
    ensures p in LabelPoints(hash, node, n) <==> p in Points(hash, node, n)
  {
    if p in LabelPoints(hash, node, n) {
      var i :| 0 <= i < |LabelPoints(hash, node, n)| && LabelPoints(hash, node, n)[i] == p;
    }
    if p in Points(hash, node, n) {
      var i: nat :| i < n && p == hash(Label(node, i));
      assert LabelPoints(hash, node, n)[i] == p;
    }
  }

  lemma PointsGrow(hash: HashFunc, node: string, m: int, n: int)
    requires m <= n
    ensures Points(hash, node, m) <= Points(hash, node, n)
  {}

  // ---- Sorted point sequences ----

  ghost predicate Sorted(s: seq<Point>) {
    forall i, j | 0 <= i < j < |s| :: s[i] <= s[j]
  }

  ghost predicate StrictlySorted(s: seq<Point>) {
    forall i, j | 0 <= i < j < |s| :: s[i] < s[j]
  }

  /** `std::lower_bound`: the number of leading points below h. */
  function LowerBound(keys: seq<Point>, h: Point): (i: nat)
    ensures i <= |keys|
    ensures forall j | 0 <= j < i :: keys[j] < h
    ensures i < |keys| ==> h <= keys[i]
  {
    if keys == [] || h <= keys[0] then 0 else 1 + LowerBound(keys[1..], h)
  }

  function Insert(p: Point, s: seq<Point>): seq<Point> {
    var i := LowerBound(s, p);
    s[..i] + [p] + s[i..]
  }

  lemma InsertSorted(p: Point, s: seq<Point>)
    requires Sorted(s)
    ensures Sorted(Insert(p, s))
  {
    hide LowerBound;
    var i, r := LowerBound(s, p), Insert(p, s);
    assert forall k | 0 <= k < |r| :: r[k] == if k < i then s[k] else if k == i then p else s[k - 1];
  }

  lemma InsertKeepsPoints(p: Point, s: seq<Point>)
    ensures multiset(Insert(p, s)) == multiset(s) + multiset{p}
  {
    var i := LowerBound(s, p);
    assert s == s[..i] + s[i..];
  }

  /** `std::sort` on the ring. */
  function SortPoints(s: seq<Point>): (r: seq<Point>)
    ensures Sorted(r) && multiset(r) == multiset(s)
  {
    if s == [] then []
    else
      var rest := SortPoints(s[1..]);
      assert s == [s[0]] + s[1..];
      InsertSorted(s[0], rest);
      InsertKeepsPoints(s[0], rest);
      Insert(s[0], rest)
  }

  lemma SortKeepsElements(s: seq<Point>, p: Point)
    ensures p in SortPoints(s) <==> p in s
  {
    assert p in SortPoints(s) <==> p in multiset(SortPoints(s));
    assert p in s <==> p in multiset(s);
  }

  /** `std::remove` followed by `erase`, for every point of a set. */
  function Drop(s: seq<Point>, gone: set<Point>): seq<Point> {
    if s == [] then []
    else if s[0] in gone then Drop(s[1..], gone)
    else [s[0]] + Drop(s[1..], gone)
  }

  lemma {:induction false} DropElements(s: seq<Point>, gone: set<Point>, p: Point)
    ensures p in Drop(s, gone) <==> p in s && p !in gone
  {
    if s != [] {
      DropElements(s[1..], gone, p);
    }
  }

  lemma {:induction false} DropSorted(s: seq<Point>, gone: set<Point>)
    ensures Sorted(s) ==> Sorted(Drop(s, gone))
    ensures StrictlySorted(s) ==> StrictlySorted(Drop(s, gone))
  {
    if s != [] {
      var rest := Drop(s[1..], gone);
      DropSorted(s[1..], gone);
      forall k | 0 <= k < |rest|
        ensures exists j :: 1 <= j < |s| && s[j] == rest[k]
      {
        assert rest[k] in rest;
        DropElements(s[1..], gone, rest[k]);
        var j :| 0 <= j < |s[1..]| && s[1..][j] == rest[k];
        assert s[j + 1] == rest[k];
      }
    }
  }

  // ---- Operations ----

  /** `AddNode`. */
  function Place(r: Ring, hash: HashFunc, node: string, n: int): Ring {
    r.(keys := r.keys + LabelPoints(hash, node, n),
       owner := r.owner + (map p | p in Points(hash, node, n) :: node),
       replicas := r.replicas[node := n],
       counts := if node in r.counts then r.counts else r.counts[node := 0])
  }

  function PlaceAll(r: Ring, hash: HashFunc, nodes: seq<string>, n: int): Ring
    decreases |nodes|
  {
    if nodes == [] then r
    else PlaceAll(if nodes[0] == "" then r else Place(r, hash, nodes[0], n), hash, nodes[1..], n)
  }

  function Add(r: Ring, cfg: Config, nodes: seq<string>): Ring {
    if nodes == [] then r
    else
      var q := PlaceAll(r, cfg.hash, nodes, cfg.replicas);
      q.(keys := SortPoints(q.keys))
  }

  /** The inner loop of `Remove`: n labels of a node leave the ring. */
  function Clear(r: Ring, hash: HashFunc, node: string, n: int): Ring {
    r.(keys := Drop(r.keys, Points(hash, node, n)),
       owner := r.owner - Points(hash, node, n))
  }

  function Remove(r: Ring, cfg: Config, node: string): Ring {
    if node == "" || node !in r.replicas then r
    else
      Clear(r, cfg.hash, node, r.replicas[node])
        .(replicas := r.replicas - {node}, counts := r.counts - {node})
  }

  /** The point that serves a hash: the lower bound, wrapping to the front. */
  function Serving(keys: seq<Point>, h: Point): Point
    requires keys != []
  {
    var i := LowerBound(keys, h);
    keys[if i == |keys| then 0 else i]
  }

  /** `hash_map_[p]`, where a missing entry would read as the empty string. */
  function OwnerAt(r: Ring, p: Point): string {
    if p in r.owner then r.owner[p] else ""
  }

  function Route(r: Ring, hash: HashFunc, key: string): string {
    if key == "" || r.keys == [] then "" else OwnerAt(r, Serving(r.keys, hash(key)))
  }

  function CountNode(r: Ring, node: string): Ring {
    r.(counts := r.counts[node := ValueAt(r.counts, node) + 1])
  }

  function CountTotal(r: Ring): Ring {
    r.(total := r.total + 1)
  }

  function Get(r: Ring, cfg: Config, key: string): Ring {
    if key == "" || r.keys == [] then r
    else CountTotal(CountNode(r, Route(r, cfg.hash, key)))
  }

  /** The load shares that `GetStats` reports. */
  function Ratios(counts: map<string, nat>, total: nat): map<string, real>
    requires total > 0
  {
    map node | node in counts :: counts[node] as real / total as real
  }

  // ---- The invariant ----

  ghost predicate SameDomain(r: Ring) {
    forall p: Point :: p in r.keys <==> p in r.owner
  }

  /** Every point belongs to a registered node, as one of the labels the ring remembers. */
  ghost predicate Owned(r: Ring, hash: HashFunc) {
    forall p | p in r.owner ::
      r.owner[p] in r.replicas && p in Points(hash, r.owner[p], r.replicas[r.owner[p]])
  }

  ghost predicate Coherent(r: Ring, hash: HashFunc) {
    && SameDomain(r)
    && Owned(r, hash)
    && r.counts.Keys == r.replicas.Keys
    && "" !in r.replicas
  }

  ghost predicate Valid(r: Ring, hash: HashFunc) {
    Coherent(r, hash) && Sorted(r.keys)
  }

  /** The condition under which placing nodes keeps the ring coherent: no listed node is
    * currently remembered with more labels than are about to be placed. */
  predicate SafeToPlace(r: Ring, nodes: seq<string>, n: int) {
    forall node | node in nodes && node in r.replicas :: r.replicas[node] <= n
  }

  lemma PlaceDomain(r: Ring, hash: HashFunc, node: string, n: int)
    requires SameDomain(r)
    ensures SameDomain(Place(r, hash, node, n))
  {
    forall p: Point
      ensures p in LabelPoints(hash, node, n) <==> p in Points(hash, node, n)
    {
      LabelPointsElements(hash, node, n, p);
    }
  }

  lemma PlaceOwned(r: Ring, hash: HashFunc, node: string, n: int)
    requires Owned(r, hash) && (node in r.replicas ==> r.replicas[node] <= n)
    ensures Owned(Place(r, hash, node, n), hash)
  {
    if node in r.replicas {
      PointsGrow(hash, node, r.replicas[node], n);
    }
  }

  lemma PlaceCoherent(r: Ring, hash: HashFunc, node: string, n: int)
    requires Coherent(r, hash) && node != ""
    requires node in r.replicas ==> r.replicas[node] <= n
    ensures Coherent(Place(r, hash, node, n), hash)
  {
    PlaceDomain(r, hash, node, n);
    PlaceOwned(r, hash, node, n);
  }

  lemma {:induction false} PlaceAllCoherent(r: Ring, hash: HashFunc, nodes: seq<string>, n: int)
    requires Coherent(r, hash) && SafeToPlace(r, nodes, n)
    ensures Coherent(PlaceAll(r, hash, nodes, n), hash)
    decreases |nodes|
  {
    if nodes != [] {
      var q := if nodes[0] == "" then r else Place(r, hash, nodes[0], n);
      if nodes[0] != "" {
        PlaceCoherent(r, hash, nodes[0], n);
      }
      PlaceAllCoherent(q, hash, nodes[1..], n);
    }
  }

  lemma SortedRingCoherent(r: Ring, hash: HashFunc)
    requires Coherent(r, hash)
    ensures Valid(r.(keys := SortPoints(r.keys)), hash)
  {
    forall p: Point
      ensures p in SortPoints(r.keys) <==> p in r.keys
    {
      SortKeepsElements(r.keys, p);
    }
  }

  lemma AddKeepsValid(r: Ring, cfg: Config, nodes: seq<string>)
    requires Valid(r, cfg.hash) && SafeToPlace(r, nodes, cfg.replicas)
    ensures Valid(Add(r, cfg, nodes), cfg.hash)
  {
    PlaceAllCoherent(r, cfg.hash, nodes, cfg.replicas);
    if nodes != [] {
      SortedRingCoherent(PlaceAll(r, cfg.hash, nodes, cfg.replicas), cfg.hash);
    }
  }

  lemma ClearDomain(r: Ring, hash: HashFunc, node: string, n: int)
    requires SameDomain(r)
    ensures SameDomain(Clear(r, hash, node, n))
    ensures Sorted(r.keys) ==> Sorted(Clear(r, hash, node, n).keys)
  {
    var gone := Points(hash, node, n);
    forall p: Point
      ensures p in Drop(r.keys, gone) <==> p in r.keys && p !in gone
    {
      DropElements(r.keys, gone, p);
    }
    DropSorted(r.keys, gone);
  }

  /** Removing a node keeps the invariant whether or not its labels collide with others. */
  lemma RemoveKeepsValid(r: Ring, cfg: Config, node: string)
    requires Valid(r, cfg.hash)
    ensures Valid(Remove(r, cfg, node), cfg.hash)
  {
    if node in r.replicas {
      ClearDomain(r, cfg.hash, node, r.replicas[node]);
    }
  }

  // ---- What a lookup means ----

  /** How far p lies clockwise from h. */
  function Distance(h: Point, p: Point): nat {
    if h <= p then p - h else p - h + 0x1_0000_0000
  }

  /** p is the first of the points met going clockwise from h. */
  ghost predicate IsSuccessor(points: set<Point>, h: Point, p: Point) {
    p in points && forall q | q in points :: Distance(h, p) <= Distance(h, q)
  }

  lemma SuccessorIsLeastNotBelowElseLeast(points: set<Point>, h: Point, p: Point)
    ensures IsSuccessor(points, h, p) <==>
            p in points &&
            if exists q :: q in points && h <= q
            then h <= p && forall q | q in points && h <= q :: p <= q
            else forall q | q in points :: p <= q
  {
    if p in points && IsSuccessor(points, h, p) {
      forall q | q in points
        ensures Distance(h, p) <= Distance(h, q)
      {}
    }
  }

  lemma ServingIsSuccessor(keys: seq<Point>, points: set<Point>, h: Point)
    requires keys != [] && Sorted(keys)
    requires forall p: Point :: p in keys <==> p in points
    ensures IsSuccessor(points, h, Serving(keys, h))
  {
    var i := LowerBound(keys, h);
    forall q | q in points
      ensures Distance(h, Serving(keys, h)) <= Distance(h, q)
    {
      var j :| 0 <= j < |keys| && keys[j] == q;
      assert keys[0] <= q;
      if i < |keys| && i < j {
        assert keys[i] <= keys[j];
      }
    }
  }

  /** A lookup on any valid ring returns the owner of the clockwise successor of the key. */
  lemma RouteIsSuccessorOwner(r: Ring, cfg: Config, key: string, p: Point)
    requires Valid(r, cfg.hash) && key != "" && IsSuccessor(r.owner.Keys, cfg.hash(key), p)
    ensures Route(r, cfg.hash, key) == r.owner[p]
    ensures r.owner[p] in r.replicas
  {
    assert p in r.keys;
    ServingIsSuccessor(r.keys, r.owner.Keys, cfg.hash(key));
  }

  /** A lookup answers the empty string only for an empty key or a ring without points, and a
    * registered node otherwise, so counting it never creates a counter. */
  lemma RouteIsRegistered(r: Ring, cfg: Config, key: string)
    requires Valid(r, cfg.hash)
    ensures Route(r, cfg.hash, key) == "" <==> key == "" || r.keys == []
    ensures Route(r, cfg.hash, key) != "" ==> Route(r, cfg.hash, key) in r.replicas
    ensures Get(r, cfg, key).counts.Keys == r.counts.Keys
  {
    if key != "" && r.keys != [] {
      assert Serving(r.keys, cfg.hash(key)) in r.keys;
    }
  }

  lemma GetKeepsValid(r: Ring, cfg: Config, key: string)
    requires Valid(r, cfg.hash)
    ensures Valid(Get(r, cfg, key), cfg.hash)
  {
    RouteIsRegistered(r, cfg, key);
  }
}
