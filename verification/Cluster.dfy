/** The cache servers as the client sees them: each address serves named groups, each group one
  * LRU list. A remote call may fail before or after it has taken effect. */
module Cluster {
  import opened Common
  import opened HashRing
  import opened RingMovement
  import opened Lru
  import LI = LruInclusion

  datatype Shard = Shard(cap: int, list: seq<Entry>, closed: bool)

  type Servers = map<string, map<string, Shard>>

  predicate Serves(servers: Servers, addr: string, group: string) {
    addr in servers && group in servers[addr]
  }

  /** The group exists there, is open, and does not refuse the key. */
  predicate Accepts(servers: Servers, addr: string, group: string, key: string) {
    Serves(servers, addr, group) && !servers[addr][group].closed && key != ""
  }

  predicate Cached(servers: Servers, addr: string, group: string, key: string) {
    Serves(servers, addr, group) && Holds(servers[addr][group].list, key)
  }

  function WithList(servers: Servers, addr: string, group: string, list: seq<Entry>): Servers
    requires Serves(servers, addr, group)
  {
    servers[addr := servers[addr][group := servers[addr][group].(list := list)]]
  }

  /** One operation of `KCacheServer`; `loaded` is what the getter answers if a Get misses. */
  function Serve(servers: Servers, addr: string, group: string, op: LI.Op, loaded: Option<string>): Servers {
    if Accepts(servers, addr, group, op.key) then
      var shard := servers[addr][group];
      WithList(servers, addr, group, LI.Apply(LI.Group(shard.list, 0), shard.cap, k => loaded, op).list)
    else servers
  }

  function ServeSet(servers: Servers, addr: string, group: string, key: string, value: string): Servers {
    Serve(servers, addr, group, LI.Set(key, value), None)
  }

  /** Delete and Invalidate do the same. */
  function ServeDrop(servers: Servers, addr: string, group: string, key: string): Servers {
    Serve(servers, addr, group, LI.Delete(key), None)
  }

  function ServeGet(servers: Servers, addr: string, group: string, key: string, loaded: Option<string>): Servers {
    Serve(servers, addr, group, LI.Get(key), loaded)
  }

  lemma PutHolds(list: seq<Entry>, cap: int, key: string, value: string, k: string)
    ensures Holds(Put(list, cap, key, value), k) ==> k == key || Holds(list, k)
    ensures Find(Put(list, cap, key, value), key) in {None, Some(value)}
  {
    var all := [Entry(key, value)] + Without(list, key);
    var kept := Put(list, cap, key, value);
    FitIsPrefix(all, cap);
    assert forall e | e in kept :: e in all;
    if Find(kept, key).Some? {
      var e := Entry(key, Find(kept, key).value);
      assert e in all;
      assert e == Entry(key, value) || e in Without(list, key);
    }
  }

  lemma TouchHolds(list: seq<Entry>, key: string, k: string)
    ensures Holds(Touch(list, key), k) ==> Holds(list, k)
  {
    if Holds(Touch(list, key), k) && Find(list, key).Some? {
      var e :| e in Touch(list, key) && e.key == k;
      assert e in list || e in Without(list, key);
    }
  }

  lemma WithoutHolds(list: seq<Entry>, key: string, k: string)
    ensures Holds(Without(list, key), k) ==> k != key && Holds(list, k)
  {}

  lemma ApplyHolds(g: LI.Group, cap: int, getter: LI.Getter, op: LI.Op, k: string)
    ensures Holds(LI.Apply(g, cap, getter, op).list, k) ==> Holds(g.list, k) || (k == op.key && !op.Delete? && k != "")
    ensures op.Delete? && op.key != "" ==> !Holds(LI.Apply(g, cap, getter, op).list, op.key)
  {
    hide Put, Touch, Without, Holds, Find;
    TouchHolds(g.list, op.key, k);
    WithoutHolds(g.list, op.key, k);
    WithoutHolds(g.list, op.key, op.key);
    if op.Set? {
      PutHolds(g.list, cap, op.key, op.value, k);
    }
    if getter(op.key).Some? {
      PutHolds(g.list, cap, op.key, getter(op.key).value, k);
    }
  }

  /** What one served operation can add to the caches: at most its own key, at its own address. */
  lemma ServedAddsOnlyItsKey(servers: Servers, addr: string, group: string, op: LI.Op, loaded: Option<string>,
                             a: string, g: string, k: string)
    ensures Cached(Serve(servers, addr, group, op, loaded), a, g, k) ==>
              Cached(servers, a, g, k) || (a == addr && k == op.key && k != "" && !op.Delete?)
  {
    hide Holds, LI.Apply;
    if Accepts(servers, addr, group, op.key) {
      var shard := servers[addr][group];
      ApplyHolds(LI.Group(shard.list, 0), shard.cap, k => loaded, op, k);
    }
  }

  /** Whether a server accepts calls about a key does not depend on what it has cached. */
  lemma ServingKeepsAcceptance(servers: Servers, addr: string, group: string, op: LI.Op, loaded: Option<string>,
                               a: string, g: string, k: string)
    ensures Accepts(Serve(servers, addr, group, op, loaded), a, g, k) == Accepts(servers, a, g, k)
    ensures !Accepts(servers, addr, group, op.key) ==> Serve(servers, addr, group, op, loaded) == servers
  {}

  /** A Get that a server accepts is answered with the cached entry, or else by its getter, whose
    * answer is then cached if it fits; a Get right after an accepted Set of a fitting entry is
    * answered with the value set. */
  lemma ServedAnswer(servers: Servers, addr: string, group: string, key: string, loaded: Option<string>)
    requires Accepts(servers, addr, group, key) && DistinctKeys(servers[addr][group].list)
    ensures var list, answer := servers[addr][group].list, ReadAnswer(servers, addr, group, key, loaded);
            && (forall v | Entry(key, v) in list :: answer == Some(v))
            && ((forall e | e in list :: e.key != key) ==>
                  && answer == loaded
                  && (loaded.Some? && Fits(servers[addr][group].cap, key, loaded.value) ==>
                        Entry(key, loaded.value) in ServeGet(servers, addr, group, key, loaded)[addr][group].list))
    ensures forall value | Fits(servers[addr][group].cap, key, value) ::
              ReadAnswer(ServeSet(servers, addr, group, key, value), addr, group, key, loaded) == Some(value)
  {
    hide Put;
    var shard := servers[addr][group];
    LI.GetEffect(LI.Group(shard.list, 0), shard.cap, k => loaded, key);
    if loaded.Some? {
      PutHoldsIff(shard.list, shard.cap, key, loaded.value);
    }
    forall v | Entry(key, v) in shard.list
      ensures ReadAnswer(servers, addr, group, key, loaded) == Some(v)
    {
      var i :| 0 <= i < |shard.list| && shard.list[i] == Entry(key, v);
    }
    forall value | Fits(shard.cap, key, value)
      ensures ReadAnswer(ServeSet(servers, addr, group, key, value), addr, group, key, loaded) == Some(value)
    {
      PutHoldsIff(shard.list, shard.cap, key, value);
    }
  }

  /** What a Get is answered where it is accepted. */
  function ReadAnswer(servers: Servers, addr: string, group: string, key: string, loaded: Option<string>): Option<string>
    requires Serves(servers, addr, group)
  {
    LI.Answer(LI.Group(servers[addr][group].list, 0), k => loaded, key)
  }

  /** Remote calls in place: each may be lost on the way there or on the way back, unless the network
    * is lossless. */
  class Network {
    const lossless: bool
    var servers: Servers

    constructor (lossless: bool, servers: Servers)
      ensures this.lossless == lossless && this.servers == servers
    {
      this.lossless, this.servers := lossless, servers;
    }

    /** Whether a call arrives, and whether its answer does. */
    method Fate() returns (delivered: bool, answered: bool)
      ensures lossless ==> delivered && answered
    {
      delivered, answered := *, *;
      if lossless {
        delivered, answered := true, true;
      }
    }

    method Set(addr: string, group: string, key: string, value: string) returns (ok: bool)
      modifies this
      ensures servers == old(servers) || servers == ServeSet(old(servers), addr, group, key, value)
      ensures ok ==> Accepts(old(servers), addr, group, key)
                     && servers == ServeSet(old(servers), addr, group, key, value)
      ensures lossless ==> ok == Accepts(old(servers), addr, group, key)
    {
      var delivered, answered := Fate();
      ok := false;
      if delivered {
        ok := answered && Accepts(servers, addr, group, key);
        servers := ServeSet(servers, addr, group, key, value);
      }
    }

    /** `loaded` is what the server's getter would answer, whatever that is just now. */
    method Get(addr: string, group: string, key: string)
      returns (value: Option<string>, ghost loaded: Option<string>)
      modifies this
      ensures servers == old(servers) || servers == ServeGet(old(servers), addr, group, key, loaded)
      ensures value.Some? ==>
                && Accepts(old(servers), addr, group, key)
                && servers == ServeGet(old(servers), addr, group, key, loaded)
                && value == ReadAnswer(old(servers), addr, group, key, loaded)
      ensures lossless && Accepts(old(servers), addr, group, key) ==>
                value == ReadAnswer(old(servers), addr, group, key, loaded)
    {
      var delivered, answered := Fate();
      var data: Option<string> := *;
      loaded := data;
      value := None;
      if delivered {
        if answered && Accepts(servers, addr, group, key) {
          value := ReadAnswer(servers, addr, group, key, data);
        }
        servers := ServeGet(servers, addr, group, key, data);
      }
    }

    method Drop(addr: string, group: string, key: string) returns (ok: bool)
      modifies this
      ensures servers == old(servers) || servers == ServeDrop(old(servers), addr, group, key)
      ensures ok ==> Accepts(old(servers), addr, group, key)
                     && servers == ServeDrop(old(servers), addr, group, key)
      ensures lossless ==> ok == Accepts(old(servers), addr, group, key)
      ensures lossless ==> servers == ServeDrop(old(servers), addr, group, key)
    {
      var delivered, answered := Fate();
      ok := false;
      if delivered {
        ok := answered && Accepts(servers, addr, group, key);
        servers := ServeDrop(servers, addr, group, key);
      }
    }
  }

  // ---- Placement with agreed rings ----

  datatype ClientCall =
    | CallGet(group: string, key: string, loaded: Option<string>)
    | CallSet(group: string, key: string, value: string, invalidated: seq<string>)
    | CallDelete(group: string, key: string, reached: seq<string>)

  function DropAt(servers: Servers, addrs: seq<string>, group: string, key: string): Servers
    decreases |addrs|
  {
    if addrs == [] then servers
    else DropAt(ServeDrop(servers, addrs[0], group, key), addrs[1..], group, key)
  }

  lemma {:induction false} DropAtOneMore(servers: Servers, addrs: seq<string>, addr: string, group: string, key: string)
    ensures DropAt(servers, addrs + [addr], group, key) == ServeDrop(DropAt(servers, addrs, group, key), addr, group, key)
    decreases |addrs|
  {
    hide ServeDrop;
    if addrs == [] {
      assert [] + [addr] == [addr] && [addr][1..] == [];
      assert DropAt(ServeDrop(servers, addr, group, key), [], group, key) == ServeDrop(servers, addr, group, key);
    } else {
      assert (addrs + [addr])[1..] == addrs[1..] + [addr];
      DropAtOneMore(ServeDrop(servers, addrs[0], group, key), addrs[1..], addr, group, key);
    }
  }

  /** The effect of a call by a client with this ring, when the calls to the listed servers
    * arrived. An empty key is refused wherever it goes. */
  function AfterCall(servers: Servers, hash: HashFunc, ring: Ring, call: ClientCall): Servers {
    var target := Route(ring, hash, call.key);
    match call
    case CallGet(group, key, loaded) => ServeGet(servers, target, group, key, loaded)
    case CallSet(group, key, value, invalidated) =>
      DropAt(ServeSet(servers, target, group, key, value), invalidated, group, key)
    case CallDelete(group, key, reached) => DropAt(servers, reached, group, key)
  }

  /** All clients route every key to the same address. */
  ghost predicate Agreed(hash: HashFunc, rings: map<nat, Ring>) {
    forall c, d, key | c in rings && d in rings :: Route(rings[c], hash, key) == Route(rings[d], hash, key)
  }

  /** Clients whose rings are complete and have equal replica counts agree. */
  lemma EqualReplicasAgree(hash: HashFunc, rings: map<nat, Ring>)
    requires forall c | c in rings :: Valid(rings[c], hash) && Complete(rings[c], hash)
    requires forall c, d | c in rings && d in rings :: rings[c].replicas == rings[d].replicas
    ensures Agreed(hash, rings)
  {
    hide Valid, Complete, Route;
    forall c, d, key | c in rings && d in rings
      ensures Route(rings[c], hash, key) == Route(rings[d], hash, key)
    {
      CanonicalDetermined(rings[c], rings[d], hash);
    }
  }

  ghost predicate OnlyAtOwner(servers: Servers, hash: HashFunc, rings: map<nat, Ring>) {
    forall a, g, k, c | Cached(servers, a, g, k) && c in rings :: a == Route(rings[c], hash, k)
  }

  lemma {:induction false} DropsAddNothing(servers: Servers, addrs: seq<string>, group: string, key: string,
                                           a: string, g: string, k: string)
    ensures Cached(DropAt(servers, addrs, group, key), a, g, k) ==> Cached(servers, a, g, k)
    decreases |addrs|
  {
    if addrs != [] {
      hide Cached, Serve;
      ServedAddsOnlyItsKey(servers, addrs[0], group, LI.Delete(key), None, a, g, k);
      DropsAddNothing(ServeDrop(servers, addrs[0], group, key), addrs[1..], group, key, a, g, k);
    }
  }

  lemma CallKeepsOwnership(servers: Servers, hash: HashFunc, rings: map<nat, Ring>, client: nat, call: ClientCall)
    requires Agreed(hash, rings) && client in rings && OnlyAtOwner(servers, hash, rings)
    ensures OnlyAtOwner(AfterCall(servers, hash, rings[client], call), hash, rings)
  {
    hide Cached, Serve, Route;
    var target := Route(rings[client], hash, call.key);
    var after := AfterCall(servers, hash, rings[client], call);
    forall a, g, k, c | Cached(after, a, g, k) && c in rings
      ensures a == Route(rings[c], hash, k)
    {
      match call
      case CallGet(group, key, loaded) =>
        ServedAddsOnlyItsKey(servers, target, group, LI.Get(key), loaded, a, g, k);
      case CallSet(group, key, value, invalidated) =>
        DropsAddNothing(ServeSet(servers, target, group, key, value), invalidated, group, key, a, g, k);
        ServedAddsOnlyItsKey(servers, target, group, LI.Set(key, value), None, a, g, k);
      case CallDelete(group, key, reached) =>
        DropsAddNothing(servers, reached, group, key, a, g, k);
    }
  }

  /** What each call in turn, made by the client of that number, leaves in the caches. */
  function AfterCalls(servers: Servers, hash: HashFunc, rings: map<nat, Ring>, calls: seq<(nat, ClientCall)>): Servers
    requires forall c | c in calls :: c.0 in rings
  {
    if calls == [] then servers
    else
      var last := calls[|calls| - 1];
      AfterCall(AfterCalls(servers, hash, rings, calls[..|calls| - 1]), hash, rings[last.0], last.1)
  }

  /** With fixed membership and rings grown by whatever histories to equal replica counts, a key
    * is only ever cached at the one address that every client routes it to. */
  lemma {:induction false} KeysOnlyCachedAtOwner(
    servers: Servers, hash: HashFunc, rings: map<nat, Ring>, calls: seq<(nat, ClientCall)>)
    requires forall c | c in rings :: Valid(rings[c], hash) && Complete(rings[c], hash) && rings[c].keys != []
    requires forall c, d | c in rings && d in rings :: rings[c].replicas == rings[d].replicas
    requires forall c | c in calls :: c.0 in rings
    requires forall a, g, k :: !Cached(servers, a, g, k)
    ensures OnlyAtOwner(AfterCalls(servers, hash, rings, calls), hash, rings)
  {
    hide Valid, Complete, Cached;
    EqualReplicasAgree(hash, rings);
    if calls != [] {
      var front, last := calls[..|calls| - 1], calls[|calls| - 1];
      KeysOnlyCachedAtOwner(servers, hash, rings, front);
      CallKeepsOwnership(AfterCalls(servers, hash, rings, front), hash, rings, last.0, last.1);
    }
  }
}
