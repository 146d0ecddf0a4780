/** The balancer: how many virtual nodes each node gets, and what replacing them does to the
  * ring. Loads are exact reals. */
module Rebalancing {
  import opened Common
  import opened HashRing

  // ---- Arithmetic ----

  /** `std::round`: to the nearest integer, halves away from zero. */
  function Round(x: real): int {
    if x >= 0.0 then (x + 0.5).Floor else -((-x + 0.5).Floor)
  }

  function Clamp(x: int, lo: int, hi: int): int {
    var y := if x < lo then lo else x;
    if y > hi then hi else y
  }

  function LoadRatio(count: nat, average: real): real {
    if average > 0.0 then count as real / average
    else if count > 0 then 2.0
    else 1.0
  }

  function Shrunk(was: int, ratio: real): real
    requires ratio > 1.0
  {
    was as real / ratio
  }

  function Stretched(was: int, ratio: real): real {
    was as real * (2.0 - ratio)
  }

  function NewReplicas(cfg: Config, was: int, ratio: real): int {
    Clamp(if ratio > 1.0 then Round(Shrunk(was, ratio)) else Round(Stretched(was, ratio)),
          cfg.minReplicas, cfg.maxReplicas)
  }

  lemma RoundBetween(x: real, n: int)
    ensures x <= n as real ==> Round(x) <= n
    ensures n as real <= x ==> n <= Round(x)
  {}

  lemma RoundMonotone(x: real, y: real)
    requires x <= y
    ensures Round(x) <= Round(y)
  {}

  lemma ProductOrder(x: real, y: real, f: real)
    requires x < y && f > 0.0
    ensures x * f < y * f
  {}

  lemma ProductGrows(x: real, f: real, g: real)
    requires x >= 0.0 && f <= g
    ensures x * f <= x * g
  {}

  lemma ShrunkBounds(was: int, ratio: real)
    requires was >= 0 && ratio > 1.0
    ensures 0.0 <= Shrunk(was, ratio) <= was as real
    ensures Shrunk(was, ratio) * ratio == was as real
  {
    var q := Shrunk(was, ratio);
    if q < 0.0 {
      ProductOrder(q, 0.0, ratio);
    }
    ProductGrows(q, 1.0, ratio);
  }

  lemma ShrunkAntitone(was: int, a: real, b: real)
    requires was >= 0 && 1.0 < a <= b
    ensures Shrunk(was, a) >= Shrunk(was, b)
  {
    hide Shrunk;
    var p, q := Shrunk(was, a), Shrunk(was, b);
    ShrunkBounds(was, a);
    ShrunkBounds(was, b);
    ProductGrows(q, a, b);
    if p < q {
      ProductOrder(p, q, a);
    }
  }

  lemma StretchedBounds(was: int, ratio: real)
    requires was >= 0 && 0.0 <= ratio <= 1.0
    ensures was as real <= Stretched(was, ratio) <= (2 * was) as real
  {
    ProductGrows(was as real, 1.0, 2.0 - ratio);
    ProductGrows(was as real, 2.0 - ratio, 2.0);
  }

  lemma StretchedAntitone(was: int, a: real, b: real)
    requires was >= 0 && a <= b
    ensures Stretched(was, a) >= Stretched(was, b)
  {
    ProductGrows(was as real, 2.0 - b, 2.0 - a);
  }

  /** An overloaded node never gains, any other never loses; a count at most doubles and
    * stays within the limits. */
  lemma NewReplicasDirection(cfg: Config, was: int, ratio: real)
    requires 0 <= cfg.minReplicas <= was <= cfg.maxReplicas && ratio >= 0.0
    ensures cfg.minReplicas <= NewReplicas(cfg, was, ratio) <= cfg.maxReplicas
    ensures ratio > 1.0 ==> NewReplicas(cfg, was, ratio) <= was
    ensures ratio <= 1.0 ==> was <= NewReplicas(cfg, was, ratio) <= 2 * was
  {
    hide Shrunk, Stretched, Round;
    if ratio > 1.0 {
      ShrunkBounds(was, ratio);
      RoundBetween(Shrunk(was, ratio), was);
    } else {
      StretchedBounds(was, ratio);
      RoundBetween(Stretched(was, ratio), was);
      RoundBetween(Stretched(was, ratio), 2 * was);
    }
  }

  lemma ClampMonotone(x: int, y: int, lo: int, hi: int)
    requires x <= y
    ensures Clamp(x, lo, hi) <= Clamp(y, lo, hi)
  {}

  /** Of two nodes with equal counts, the busier one gets no more virtual nodes. */
  lemma NewReplicasAntitone(cfg: Config, was: int, a: real, b: real)
    requires was >= 0 && 0.0 <= a <= b
    ensures NewReplicas(cfg, was, a) >= NewReplicas(cfg, was, b)
  {
    hide Shrunk, Stretched, Round, Clamp;
    var x := if a > 1.0 then Shrunk(was, a) else Stretched(was, a);
    var y := if b > 1.0 then Shrunk(was, b) else Stretched(was, b);
    if a > 1.0 {
      ShrunkAntitone(was, a, b);
    } else if b <= 1.0 {
      StretchedAntitone(was, a, b);
    } else {
      StretchedBounds(was, a);
      ShrunkBounds(was, b);
    }
    RoundMonotone(y, x);
    ClampMonotone(Round(y), Round(x), cfg.minReplicas, cfg.maxReplicas);
  }

  lemma LoadRatioMonotone(m: nat, n: nat, average: real)
    requires m <= n && average >= 0.0
    ensures 0.0 <= LoadRatio(m, average) <= LoadRatio(n, average)
  {
    if average > 0.0 {
      var p, q := m as real / average, n as real / average;
      assert p * average == m as real && q * average == n as real;
      if q < p {
        ProductOrder(q, p, average);
      }
      if p < 0.0 {
        ProductOrder(p, 0.0, average);
      }
    }
  }

  // ---- The ring ----

  function AverageLoad(r: Ring): real {
    if r.replicas == map[] then 0.0 else r.total as real / |r.replicas| as real
  }

  function Load(r: Ring, node: string): real {
    LoadRatio(ValueAt(r.counts, node), AverageLoad(r))
  }

  /** `curr_replicas[node]`, where a missing entry reads as 0. */
  function Replicas(r: Ring, node: string): int {
    if node in r.replicas then r.replicas[node] else 0
  }

  function Target(r: Ring, cfg: Config, node: string): int {
    NewReplicas(cfg, Replicas(r, node), Load(r, node))
  }

  /** The ring between dropping a node's labels and placing the new ones. */
  function Bare(r: Ring, hash: HashFunc, node: string): Ring {
    var q := Clear(r, hash, node, Replicas(r, node));
    q.(replicas := q.replicas - {node})
  }

  function Replace(r: Ring, hash: HashFunc, node: string, was: int, n: int): Ring {
    if n == was then r else Place(Bare(r, hash, node), hash, node, n)
  }

  /** The loop over a snapshot of the counters, in the order in which the table yields them. */
  function ReplaceAll(q: Ring, snapshot: Ring, cfg: Config, order: seq<string>): Ring
    decreases |order|
  {
    if order == [] then q
    else
      ReplaceAll(Replace(q, cfg.hash, order[0], Replicas(snapshot, order[0]), Target(snapshot, cfg, order[0])),
                 snapshot, cfg, order[1..])
  }

  function Settle(q: Ring): Ring {
    Ring(SortPoints(q.keys), q.owner, q.replicas, map node | node in q.counts :: 0, 0)
  }

  /** `RebalanceNodes`, for one order of the counter table. */
  function Rebalance(r: Ring, cfg: Config, order: seq<string>): Ring {
    if r.replicas == map[] then r else Settle(ReplaceAll(r, r, cfg, order))
  }

  ghost predicate IsOrder(order: seq<string>, nodes: set<string>) {
    && (forall node :: node in order <==> node in nodes)
    && (forall i, j | 0 <= i < j < |order| :: order[i] != order[j])
  }

  lemma BareOwned(r: Ring, hash: HashFunc, node: string)
    requires SameDomain(r) && Owned(r, hash) && node in r.replicas
    ensures SameDomain(Bare(r, hash, node)) && Owned(Bare(r, hash, node), hash)
  {
    ClearDomain(r, hash, node, r.replicas[node]);
  }

  lemma ReplaceCoherent(r: Ring, hash: HashFunc, node: string, was: int, n: int)
    requires Coherent(r, hash) && node in r.replicas
    ensures Coherent(Replace(r, hash, node, was, n), hash)
    ensures Replace(r, hash, node, was, n).counts == r.counts
    ensures Replace(r, hash, node, was, n).replicas == if n == was then r.replicas else r.replicas[node := n]
  {
    hide Owned, SameDomain, Points, LabelPoints, Drop;
    var q := Bare(r, hash, node);
    BareOwned(r, hash, node);
    PlaceDomain(q, hash, node, n);
    PlaceOwned(q, hash, node, n);
    assert q.replicas[node := n] == r.replicas[node := n];
  }

  /** What the loop has done to the replica counts, and what it keeps, collisions or not. */
  lemma {:induction false} ReplaceAllCoherent(q: Ring, snapshot: Ring, cfg: Config, order: seq<string>)
    requires Coherent(q, cfg.hash)
    requires forall node | node in order ::
               node in q.replicas && node in snapshot.replicas && q.replicas[node] == snapshot.replicas[node]
    requires forall i, j | 0 <= i < j < |order| :: order[i] != order[j]
    ensures var s := ReplaceAll(q, snapshot, cfg, order);
            && Coherent(s, cfg.hash)
            && s.counts == q.counts
            && s.replicas.Keys == q.replicas.Keys
            && forall node | node in s.replicas ::
                 s.replicas[node] == if node in order then Target(snapshot, cfg, node) else q.replicas[node]
    decreases |order|
  {
    if order != [] {
      hide Coherent;
      var node := order[0];
      var n := Target(snapshot, cfg, node);
      ReplaceCoherent(q, cfg.hash, node, Replicas(snapshot, node), n);
      var q' := Replace(q, cfg.hash, node, Replicas(snapshot, node), n);
      hide Replace, Target;
      forall other | other in order[1..]
        ensures other in q'.replicas && other in snapshot.replicas
        ensures other != node && q'.replicas[other] == snapshot.replicas[other]
      {
        assert other in order;
      }
      ReplaceAllCoherent(q', snapshot, cfg, order[1..]);
    }
  }

  lemma RebalanceKeepsValid(r: Ring, cfg: Config, order: seq<string>)
    requires Valid(r, cfg.hash) && IsOrder(order, r.counts.Keys)
    ensures var s := Rebalance(r, cfg, order);
            && Valid(s, cfg.hash)
            && s.replicas.Keys == r.replicas.Keys
            && (forall node | node in r.replicas :: s.replicas[node] == Target(r, cfg, node))
            && (r.replicas != map[] ==> s.total == 0 && forall node | node in s.counts :: s.counts[node] == 0)
  {
    if r.replicas != map[] {
      hide Target, ReplaceAll, Owned, SameDomain, SortPoints;
      forall node
        ensures node in order <==> node in r.replicas
      {
        assert node in r.counts.Keys <==> node in r.replicas.Keys;
      }
      ReplaceAllCoherent(r, r, cfg, order);
      var q := ReplaceAll(r, r, cfg, order);
      SortedRingCoherent(q, cfg.hash);
      SettleCoherent(q, cfg.hash);
    }
  }

  lemma SettleCoherent(q: Ring, hash: HashFunc)
    requires Valid(q.(keys := SortPoints(q.keys)), hash)
    ensures Valid(Settle(q), hash)
  {
    hide SortPoints;
    assert Settle(q).counts.Keys == q.counts.Keys;
  }

  lemma CountsMatch(r: Ring, hash: HashFunc)
    requires Valid(r, hash)
    ensures r.counts.Keys == r.replicas.Keys
  {}

  ghost predicate InRange(r: Ring, cfg: Config) {
    forall node | node in r.replicas :: cfg.minReplicas <= r.replicas[node] <= cfg.maxReplicas
  }

  predicate Overloaded(r: Ring, node: string) {
    Load(r, node) > 1.0
  }

  /** What one run of the balancer does to the counts: the node set stays, every count stays in
    * range, overloaded nodes never gain and the others never lose, nothing more than doubles,
    * and of two nodes with equal counts the busier one ends up with no more. */
  lemma RebalanceArithmetic(r: Ring, cfg: Config, order: seq<string>)
    requires Valid(r, cfg.hash) && IsOrder(order, r.counts.Keys)
    requires 0 <= cfg.minReplicas <= cfg.maxReplicas && InRange(r, cfg)
    ensures var s := Rebalance(r, cfg, order);
            && s.replicas.Keys == r.replicas.Keys && InRange(s, cfg)
            && (forall node | node in r.replicas && Overloaded(r, node) :: s.replicas[node] <= r.replicas[node])
            && (forall node | node in r.replicas && !Overloaded(r, node) ::
                  r.replicas[node] <= s.replicas[node] <= 2 * r.replicas[node])
            && (forall a, b | a in r.replicas && b in r.replicas
                              && r.replicas[a] == r.replicas[b] && r.counts[a] <= r.counts[b] ::
                  s.replicas[b] <= s.replicas[a])
  {
    hide NewReplicas, Rebalance, Valid;
    RebalanceKeepsValid(r, cfg, order);
    assert r.counts.Keys == r.replicas.Keys by {
      CountsMatch(r, cfg.hash);
    }
    assert AverageLoad(r) >= 0.0;
    forall node | node in r.replicas
      ensures Load(r, node) >= 0.0
      ensures cfg.minReplicas <= Target(r, cfg, node) <= cfg.maxReplicas
      ensures Overloaded(r, node) ==> Target(r, cfg, node) <= r.replicas[node]
      ensures !Overloaded(r, node) ==> r.replicas[node] <= Target(r, cfg, node) <= 2 * r.replicas[node]
    {
      LoadRatioMonotone(0, r.counts[node], AverageLoad(r));
      NewReplicasDirection(cfg, r.replicas[node], Load(r, node));
    }
    forall a, b | a in r.replicas && b in r.replicas
                  && r.replicas[a] == r.replicas[b] && r.counts[a] <= r.counts[b]
      ensures Target(r, cfg, b) <= Target(r, cfg, a)
    {
      LoadRatioMonotone(r.counts[a], r.counts[b], AverageLoad(r));
      NewReplicasAntitone(cfg, r.replicas[a], Load(r, a), Load(r, b));
    }
  }

  // ---- The same in counts, without any division ----

  /** m is the integer nearest to num / den, the larger one if two are. */
  ghost predicate IsNearest(m: int, num: int, den: int) {
    (2 * m - 1) * den <= 2 * num < (2 * m + 1) * den
  }

  lemma Regroup(x: real, y: real, z: real)
    ensures x * (y * z) == (x * y) * z
  {}

  lemma ScaledBounds(y: real, a: real, b: real, d: real, n: real)
    requires a <= y < b && d > 0.0 && y * d == n
    ensures a * d <= n < b * d
  {
    ProductGrows(d, a, y);
    ProductOrder(y, b, d);
  }

  lemma DoubleProduct(x: real, d: real, n: real) returns (y: real)
    requires x * d == n
    ensures y == 2.0 * x && y * d == 2.0 * n
  {
    y := x + x;
  }

  lemma CastProduct(a: int, b: int)
    ensures a as real * b as real == (a * b) as real
  {}

  lemma RoundIsNearest(x: real, num: int, den: int)
    requires x >= 0.0 && den > 0 && x * den as real == num as real
    ensures IsNearest(Round(x), num, den)
  {
    var m := Round(x);
    assert m as real <= x + 0.5 < m as real + 1.0;
    hide Round;
    var y := DoubleProduct(x, den as real, num as real);
    ScaledBounds(y, (2 * m - 1) as real, (2 * m + 1) as real, den as real, 2.0 * num as real);
    CastProduct(2 * m - 1, den);
    CastProduct(2 * m + 1, den);
  }

  /** A node's load ratio, times the total, is its count times the number of nodes. */
  lemma RatioInCounts(count: nat, total: nat, nodes: nat)
    requires total > 0 && nodes > 0
    ensures var ratio := LoadRatio(count, total as real / nodes as real);
            ratio >= 0.0 && ratio * total as real == (count * nodes) as real
  {
    var average := total as real / nodes as real;
    assert average * nodes as real == total as real;
    assert average > 0.0 by {
      if average <= 0.0 {
        ProductGrows(nodes as real, average, 0.0);
      }
    }
    var ratio := LoadRatio(count, average);
    assert ratio * average == count as real;
    if ratio < 0.0 {
      ProductOrder(ratio, 0.0, average);
    }
    Regroup(ratio, average, nodes as real);
  }

  lemma RatioAboveOneIff(ratio: real, total: nat, load: nat)
    requires total > 0 && ratio * total as real == load as real
    ensures ratio > 1.0 <==> load > total
  {
    if ratio > 1.0 {
      ProductOrder(1.0, ratio, total as real);
    } else {
      ProductGrows(total as real, ratio, 1.0);
    }
  }

  /** A node is overloaded exactly when its count, times the number of nodes, exceeds the total. */
  lemma OverloadedIff(r: Ring, node: string)
    requires node in r.replicas && node in r.counts
    ensures Overloaded(r, node) <==> r.counts[node] * |r.replicas| > r.total
  {
    var c, n, total := r.counts[node], |r.replicas|, r.total;
    if total > 0 {
      hide LoadRatio;
      RatioInCounts(c, total, n);
      RatioAboveOneIff(Load(r, node), total, c * n);
    } else {
      assert AverageLoad(r) == 0.0;
      if c > 0 {
        assert c * n > 0;
      }
    }
  }

  /** The quotient that the balancer rounds for a node, as a fraction of whole numbers. */
  ghost predicate WantsNearest(m: int, was: int, count: nat, nodes: nat, total: nat) {
    if total == 0 then
      if count > 0 then IsNearest(m, was, 2) else m == was
    else if count * nodes > total then IsNearest(m, was * total, count * nodes)
    else IsNearest(m, was * (2 * total - count * nodes), total)
  }

  lemma ShrunkInCounts(was: int, ratio: real, total: nat, load: nat)
    requires was >= 0 && ratio > 1.0 && load > 0 && ratio * total as real == load as real
    ensures IsNearest(Round(Shrunk(was, ratio)), was * total, load)
  {
    ShrunkBounds(was, ratio);
    var q := Shrunk(was, ratio);
    hide Shrunk, Round;
    Regroup(q, ratio, total as real);
    assert q * load as real == (was * total) as real;
    RoundIsNearest(q, was * total, load);
  }

  lemma StretchedInCounts(was: int, ratio: real, total: nat, load: nat)
    requires was >= 0 && 0.0 <= ratio <= 1.0 && total > 0 && ratio * total as real == load as real
    ensures IsNearest(Round(Stretched(was, ratio)), was * (2 * total - load), total)
  {
    StretchedBounds(was, ratio);
    Regroup(was as real, 2.0 - ratio, total as real);
    assert (2.0 - ratio) * total as real == (2 * total - load) as real;
    assert was as real * (2 * total - load) as real == (was * (2 * total - load)) as real;
    var x := Stretched(was, ratio);
    assert x * total as real == (was * (2 * total - load)) as real;
    hide Stretched, Round;
    RoundIsNearest(x, was * (2 * total - load), total);
  }

  /** The count the balancer chooses is that nearest integer, held within the limits. */
  lemma TargetInCounts(r: Ring, cfg: Config, node: string) returns (m: int)
    requires node in r.replicas && node in r.counts && r.replicas[node] >= 0 && cfg.minReplicas <= cfg.maxReplicas
    ensures WantsNearest(m, r.replicas[node], r.counts[node], |r.replicas|, r.total)
    ensures Target(r, cfg, node) ==
            if m < cfg.minReplicas then cfg.minReplicas else if m > cfg.maxReplicas then cfg.maxReplicas else m
  {
    var was, c, n, total := r.replicas[node], r.counts[node], |r.replicas|, r.total;
    var ratio := Load(r, node);
    m := if ratio > 1.0 then Round(Shrunk(was, ratio)) else Round(Stretched(was, ratio));
    if total > 0 {
      hide LoadRatio, Shrunk, Stretched, Round;
      RatioInCounts(c, total, n);
      RatioAboveOneIff(ratio, total, c * n);
      if c * n > total {
        ShrunkInCounts(was, ratio, total, c * n);
      } else {
        StretchedInCounts(was, ratio, total, c * n);
      }
    } else {
      assert AverageLoad(r) == 0.0;
      hide Round;
      if c > 0 {
        assert Shrunk(was, 2.0) * 2.0 == was as real;
        RoundIsNearest(Shrunk(was, 2.0), was, 2);
      } else {
        RoundBetween(was as real, was);
      }
    }
  }

  /** One run of the balancer in terms of the counters: a node whose count times the number of nodes
    * exceeds the total never gains a label, any other never loses one and at most doubles, and each
    * ends up with the nearest integer to its quotient within the limits. */
  lemma RebalanceInCounts(r: Ring, cfg: Config, order: seq<string>, node: string) returns (m: int)
    requires Valid(r, cfg.hash) && IsOrder(order, r.counts.Keys) && node in r.replicas
    requires 0 <= cfg.minReplicas <= cfg.maxReplicas && InRange(r, cfg)
    ensures node in r.counts && node in Rebalance(r, cfg, order).replicas
    ensures var was, now := r.replicas[node], Rebalance(r, cfg, order).replicas[node];
            && (if r.counts[node] * |r.replicas| > r.total then now <= was else was <= now <= 2 * was)
            && WantsNearest(m, was, r.counts[node], |r.replicas|, r.total)
            && now == if m < cfg.minReplicas then cfg.minReplicas
                      else if m > cfg.maxReplicas then cfg.maxReplicas
                      else m
  {
    CountsMatch(r, cfg.hash);
    hide Valid, Rebalance, IsOrder, Target, Overloaded, WantsNearest;
    RebalanceArithmetic(r, cfg, order);
    RebalanceKeepsValid(r, cfg, order);
    OverloadedIff(r, node);
    m := TargetInCounts(r, cfg, node);
  }
}
