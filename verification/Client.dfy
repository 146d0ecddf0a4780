/** `KCacheClient`: membership from discovery events, routing, and the write and delete
  * broadcasts. The balancer of its ring may run between any two of its ring operations. */
module Client {
  import opened Common
  import opened HashRing
  import opened Rebalancing
  import opened ConsistentHash
  import opened Lru
  import opened Cluster
  import LI = LruInclusion

  // ---- Membership as a function of the events ----

  function Prefix(service: string): string {
    "/services/" + service + "/"
  }

  function ParseAddr(service: string, key: string): string {
    if Prefix(service) <= key then key[|Prefix(service)|..] else ""
  }

  /** The registry key of an address is "/services/", the service, a slash and the address; any
    * other key yields nothing. */
  lemma ParseAddrIff(service: string, key: string, addr: string)
    ensures ParseAddr(service, "/services/" + service + "/" + addr) == addr
    ensures addr != "" ==> (ParseAddr(service, key) == addr <==> key == "/services/" + service + "/" + addr)
    ensures (forall a :: key != "/services/" + service + "/" + a) ==> ParseAddr(service, key) == ""
  {
    var prefix := "/services/" + service + "/";
    assert Prefix(service) == prefix;
    assert prefix <= prefix + addr && (prefix + addr)[|prefix|..] == addr;
    if prefix <= key {
      assert key == prefix + key[|prefix|..];
    }
  }

  lemma ParseAddrInjective(service: string, k: string, m: string)
    requires ParseAddr(service, k) == ParseAddr(service, m) != ""
    ensures k == m
  {
    ParseAddrIff(service, k, ParseAddr(service, k));
    ParseAddrIff(service, m, ParseAddr(service, k));
  }

  datatype EventKind = PutEvent | DeleteEvent | OtherEvent
  datatype Event = Event(kind: EventKind, key: string)

  function AfterEvent(nodes: set<string>, service: string, event: Event): set<string> {
    var addr := ParseAddr(service, event.key);
    if addr == "" then nodes
    else
      match event.kind
      case PutEvent => nodes + {addr}
      case DeleteEvent => nodes - {addr}
      case OtherEvent => nodes
  }

  function AfterEvents(nodes: set<string>, service: string, events: seq<Event>): set<string> {
    if events == [] then nodes
    else AfterEvent(AfterEvents(nodes, service, events[..|events| - 1]), service, events[|events| - 1])
  }

  /** Event i is the last PUT or DELETE of this key. */
  ghost predicate LastWord(events: seq<Event>, i: nat, key: string) {
    && i < |events|
    && events[i].key == key && events[i].kind != OtherEvent
    && forall j | i < j < |events| :: events[j].key == key ==> events[j].kind == OtherEvent
  }

  /** An address is a member exactly when the last event about its registry key was a PUT, or there
    * was none and it was one already. */
  lemma {:induction false} MembershipIsLastWord(nodes: set<string>, service: string, events: seq<Event>, addr: string)
    requires addr != ""
    ensures var key := "/services/" + service + "/" + addr;
            addr in AfterEvents(nodes, service, events) <==>
            if exists i: nat :: LastWord(events, i, key)
            then exists i: nat :: LastWord(events, i, key) && events[i].kind == PutEvent
            else addr in nodes
  {
    hide ParseAddr;
    var key := "/services/" + service + "/" + addr;
    if events != [] {
      var n := |events| - 1;
      var front, event := events[..n], events[n];
      MembershipIsLastWord(nodes, service, front, addr);
      ParseAddrIff(service, event.key, addr);
      if event.key == key && event.kind != OtherEvent {
        assert LastWord(events, n, key);
        assert forall i: nat | LastWord(events, i, key) :: i == n;
      } else {
        forall i: nat
          ensures LastWord(events, i, key) <==> LastWord(front, i, key)
        {
          if LastWord(front, i, key) {
            assert forall j | i < j < n :: front[j] == events[j];
          }
          if LastWord(events, i, key) {
            assert i < n;
          }
        }
      }
    }
  }

  // ---- The client ----

  class KCacheClient {
    const serviceName: string
    const ring: ConsistentHashMap
    var cacheNodes: set<string>

    /** The members are exactly the nodes of the ring, and the ring is valid. */
    ghost predicate Valid()
      reads this, ring
    {
      && ring.Consistent()
      && HashRing.Valid(ring.State(), ring.config.hash)
      && cacheNodes == ring.nodeReplicas.Keys
      && "" !in cacheNodes
    }

    constructor (serviceName: string, cfg: Config)
      ensures Valid() && fresh(ring) && cacheNodes == {}
      ensures this.serviceName == serviceName && ring.config == cfg
    {
      this.serviceName := serviceName;
      ring := new ConsistentHashMap(cfg);
      cacheNodes := {};
    }

    /** Any number of balancer runs. */
    method BalancerRuns()
      requires Valid()
      modifies ring
      ensures Valid()
    {
      var n: nat := *;
      while n > 0
        invariant Valid()
      {
        ghost var r := ring.State();
        ghost var order := ring.RebalanceNodes();
        RebalanceKeepsValid(r, ring.config, order);
        n := n - 1;
      }
    }

    method Join(addr: string)
      requires Valid() && addr != "" && addr !in cacheNodes
      modifies this, ring
      ensures Valid() && cacheNodes == old(cacheNodes) + {addr}
    {
      hide Sorted, SameDomain;
      BalancerRuns();
      ghost var r := ring.State();
      cacheNodes := cacheNodes + {addr};
      var ok := ring.Add([addr]);
      AddKeepsValid(r, ring.config, [addr]);
      AddOneReplicas(r, ring.config, addr);
      BalancerRuns();
    }

    method Leave(addr: string)
      requires Valid() && addr in cacheNodes
      modifies this, ring
      ensures Valid() && cacheNodes == old(cacheNodes) - {addr}
    {
      hide Sorted, SameDomain;
      BalancerRuns();
      ghost var r := ring.State();
      cacheNodes := cacheNodes - {addr};
      var ok := ring.Remove(addr);
      RemoveKeepsValid(r, ring.config, addr);
      BalancerRuns();
    }

    method HandleWatchEvents(respOk: bool, events: seq<Event>)
      requires Valid()
      modifies this, ring
      ensures Valid()
      ensures cacheNodes == if respOk then AfterEvents(old(cacheNodes), serviceName, events) else old(cacheNodes)
    {
      hide ParseAddr, HashRing.Valid;
      if !respOk {
        return;
      }
      for k := 0 to |events|
        invariant Valid()
        invariant cacheNodes == AfterEvents(old(cacheNodes), serviceName, events[..k])
      {
        assert events[..k + 1][..k] == events[..k];
        var addr := ParseAddr(serviceName, events[k].key);
        if addr != "" {
          match events[k].kind
          case PutEvent =>
            if addr !in cacheNodes {
              Join(addr);
            }
          case DeleteEvent =>
            if addr in cacheNodes {
              Leave(addr);
            }
          case OtherEvent =>
        }
      }
      assert events[..|events|] == events;
    }

    /** The initial fetch, on a client that knows no node yet; registry keys are distinct. */
    method FetchAllServices(respOk: bool, keys: seq<string>) returns (ok: bool)
      requires Valid() && cacheNodes == {}
      requires forall i, j | 0 <= i < j < |keys| :: keys[i] != keys[j]
      modifies this, ring
      ensures Valid() && ok == respOk
      ensures forall addr :: addr in cacheNodes <==>
                respOk && addr != "" && "/services/" + serviceName + "/" + addr in keys
    {
      hide ParseAddr, HashRing.Valid;
      if !respOk {
        return false;
      }
      for k := 0 to |keys|
        invariant Valid()
        invariant forall addr :: addr in cacheNodes <==>
                    addr != "" && exists i :: 0 <= i < k && ParseAddr(serviceName, keys[i]) == addr
      {
        var addr := ParseAddr(serviceName, keys[k]);
        if addr != "" {
          if addr in cacheNodes {
            var i :| 0 <= i < k && ParseAddr(serviceName, keys[i]) == addr;
            ParseAddrInjective(serviceName, keys[i], keys[k]);
          }
          Join(addr);
        }
      }
      forall addr | addr != ""
        ensures addr in cacheNodes <==> "/services/" + serviceName + "/" + addr in keys
      {
        AnnouncedIff(serviceName, keys, addr);
      }
      return true;
    }

    /** The empty string exactly when there is no member; otherwise the ring's owner, or some
      * member when the key is empty or the ring has lost all its points. */
    method GetCacheNode(key: string) returns (addr: string)
      requires Valid()
      modifies ring
      ensures Valid()
      ensures addr == "" <==> cacheNodes == {}
      ensures addr != "" ==> addr in cacheNodes
      ensures cacheNodes != {} && key != "" && old(ring.keys) != [] ==>
                addr == Route(old(ring.State()), ring.config.hash, key)
    {
      if cacheNodes == {} {
        return "";
      }
      RouteIsRegistered(ring.State(), ring.config, key);
      GetKeepsValid(ring.State(), ring.config, key);
      hide HashRing.Valid, Sorted, SameDomain;
      addr := ring.Get(key);
      if addr == "" {
        addr :| addr in cacheNodes;
      }
    }

    /** In each of the three calls, the effect on the servers is that of the client call on the
      * ring as it was, unless the ring has no points or the first call was lost. */
    method Get(net: Network, group: string, key: string)
      returns (value: Option<string>, ghost target: string, ghost loaded: Option<string>)
      requires Valid()
      modifies ring, net
      ensures Valid()
      ensures RoutedTo(old(cacheNodes), old(ring.State()), ring.config.hash, key, target)
      ensures value.Some? ==>
                && Accepts(old(net.servers), target, group, key)
                && value == ReadAnswer(old(net.servers), target, group, key, loaded)
      ensures net.lossless && Accepts(old(net.servers), target, group, key) && target != "" ==>
                value == ReadAnswer(old(net.servers), target, group, key, loaded)
      ensures target in old(net.servers) && group in old(net.servers)[target]
              && DistinctKeys(old(net.servers)[target][group].list) ==>
                && (value.Some? ==> forall v | Entry(key, v) in old(net.servers)[target][group].list :: value == Some(v))
                && (value.Some? && (forall e | e in old(net.servers)[target][group].list :: e.key != key) ==>
                      value == loaded)
      ensures forall a, g, k | Cached(net.servers, a, g, k) ::
                Cached(old(net.servers), a, g, k) || (a == target && k == key)
      ensures old(ring.keys) != [] ==>
                || net.servers == old(net.servers)
                || net.servers == AfterCall(old(net.servers), ring.config.hash, old(ring.State()),
                                            CallGet(group, key, loaded))
    {
      hide HashRing.Valid, Sorted, SameDomain, Put, Serve, Cached, ReadAnswer;
      var addr := GetCacheNode(key);
      target, loaded := addr, None;
      if addr == "" {
        return None, target, loaded;
      }
      RefusedUnlessAccepted(net.servers, addr, group, key);
      value, loaded := net.Get(addr, group, key);
      if Accepts(old(net.servers), addr, group, key) && DistinctKeys(old(net.servers)[addr][group].list) {
        ServedAnswer(old(net.servers), addr, group, key, loaded);
      }
      ServedEffects(old(net.servers), addr, group, LI.Get(key), loaded);
    }

    method Set(net: Network, group: string, key: string, value: string)
      returns (ok: bool, ghost target: string, ghost reached: seq<string>)
      requires Valid()
      modifies ring, net
      ensures Valid()
      ensures RoutedTo(old(cacheNodes), old(ring.State()), ring.config.hash, key, target)
      ensures ok ==> target in cacheNodes && key != "" && Serves(net.servers, target, group)
                     && Serves(old(net.servers), target, group)
      ensures ok ==> forall addr | addr in cacheNodes && addr != target :: !Cached(net.servers, addr, group, key)
      ensures forall addr | addr in reached :: addr in cacheNodes && addr != target
      ensures ok ==> net.servers[target][group].list ==
                     Put(old(net.servers)[target][group].list, old(net.servers)[target][group].cap, key, value)
      ensures ok ==> Find(net.servers[target][group].list, key) in {None, Some(value)}
      ensures net.lossless ==> (ok <==> cacheNodes != {} && TakenByAll(old(net.servers), cacheNodes, group, key))
      ensures ok ==> forall addr | addr in cacheNodes && addr != target && Cached(old(net.servers), addr, group, key) ::
                addr in reached
      ensures forall a, g, k | Cached(net.servers, a, g, k) ::
                Cached(old(net.servers), a, g, k) || (a == target && k == key)
      ensures old(ring.keys) != [] ==>
                || net.servers == old(net.servers)
                || net.servers == AfterCall(old(net.servers), ring.config.hash, old(ring.State()),
                                            CallSet(group, key, value, reached))
    {
      hide HashRing.Valid, Sorted, SameDomain, Put, Serve, Cached, TakenByAll, Route, Holds, Find;
      var addr := GetCacheNode(key);
      target, reached := addr, [];
      if addr == "" {
        return false, target, reached;
      }
      RefusedUnlessAccepted(net.servers, addr, group, key);
      ok, reached := SetAndInvalidate(net, cacheNodes, addr, group, key, value);
    }

    method Delete(net: Network, group: string, key: string) returns (ok: bool, ghost reached: seq<string>)
      requires Valid()
      modifies net
      ensures ok ==> cacheNodes != {} && forall addr | addr in cacheNodes :: !Cached(net.servers, addr, group, key)
      ensures net.lossless ==> (ok <==> cacheNodes != {} && TakenByAll(old(net.servers), cacheNodes, group, key))
      ensures ok || net.lossless ==>
                forall addr | addr in cacheNodes && Cached(old(net.servers), addr, group, key)
                              && Accepts(old(net.servers), addr, group, key) ::
                  addr in reached && !Cached(net.servers, addr, group, key)
      ensures forall a, g, k | Cached(net.servers, a, g, k) :: Cached(old(net.servers), a, g, k)
      ensures forall addr | addr in reached :: addr in cacheNodes
      ensures net.servers == AfterCall(old(net.servers), ring.config.hash, ring.State(), CallDelete(group, key, reached))
    {
      hide HashRing.Valid, Sorted, SameDomain, Cached, Serve;
      if cacheNodes == {} {
        NothingDropped(net.servers, group, key);
        return false, [];
      }
      ok, reached := DropAll(net, cacheNodes, group, key);
    }
  }

  lemma AnnouncedIff(service: string, keys: seq<string>, addr: string)
    requires addr != ""
    ensures (exists i :: 0 <= i < |keys| && ParseAddr(service, keys[i]) == addr)
            <==> "/services/" + service + "/" + addr in keys
  {
    hide ParseAddr;
    forall key
      ensures ParseAddr(service, key) == addr <==> key == "/services/" + service + "/" + addr
    {
      ParseAddrIff(service, key, addr);
    }
  }

  /** The server a call goes to: none without members, otherwise a member, and the ring's owner
    * unless the key is empty or the ring has no points. */
  ghost predicate RoutedTo(members: set<string>, r: Ring, hash: HashFunc, key: string, target: string) {
    && (target == "" <==> members == {})
    && (target != "" ==> target in members)
    && (members != {} && key != "" && r.keys != [] ==> target == Route(r, hash, key))
  }

  lemma SameServer(s: Servers, t: Servers, addr: string, group: string, key: string)
    requires s.Keys == t.Keys && (addr in s ==> s[addr] == t[addr])
    ensures Accepts(s, addr, group, key) == Accepts(t, addr, group, key)
    ensures Cached(s, addr, group, key) == Cached(t, addr, group, key)
  {}

  lemma NothingDropped(servers: Servers, group: string, key: string)
    ensures DropAt(servers, [], group, key) == servers
  {}

  lemma RefusedUnlessAccepted(servers: Servers, addr: string, group: string, key: string)
    ensures key == "" ==> forall op: LI.Op, loaded | op.key == key :: Serve(servers, addr, group, op, loaded) == servers
  {}

  /** Each of these servers has the group, open, and the key is not empty. */
  ghost predicate TakenByAll(servers: Servers, addrs: set<string>, group: string, key: string) {
    key != "" && forall addr | addr in addrs ::
      addr in servers && group in servers[addr] && !servers[addr][group].closed
  }

  /** The broadcast loop of Set and Delete: one call to every listed server, in any order; those
    * in `reached` are the calls that arrived. */
  method DropAll(net: Network, addrs: set<string>, group: string, key: string)
    returns (ok: bool, ghost reached: seq<string>)
    modifies net
    ensures ok ==> forall addr | addr in addrs :: !Cached(net.servers, addr, group, key)
    ensures forall a, g, k | Cached(net.servers, a, g, k) :: Cached(old(net.servers), a, g, k)
    ensures forall a | a in old(net.servers) && a !in addrs :: a in net.servers && net.servers[a] == old(net.servers)[a]
    ensures net.servers == DropAt(old(net.servers), reached, group, key)
    ensures forall addr | addr in reached :: addr in addrs
    ensures ok ==> forall addr | addr in addrs :: Accepts(old(net.servers), addr, group, key)
    ensures net.lossless ==> (ok <==> forall addr | addr in addrs :: Accepts(old(net.servers), addr, group, key))
    ensures net.servers.Keys == old(net.servers).Keys
    ensures ok || net.lossless ==>
              forall addr | addr in addrs && Cached(old(net.servers), addr, group, key)
                            && Accepts(old(net.servers), addr, group, key) ::
                addr in reached && !Cached(net.servers, addr, group, key)
  {
    hide Cached, Serve, DropAt, Accepts;
    ok, reached := true, [];
    NothingDropped(net.servers, group, key);
    var todo := addrs;
    while todo != {}
      invariant todo <= addrs
      invariant ok ==> forall addr | addr in addrs - todo :: !Cached(net.servers, addr, group, key)
      invariant forall a, g, k | Cached(net.servers, a, g, k) :: Cached(old(net.servers), a, g, k)
      invariant forall a | a in old(net.servers) && a !in addrs ::
                  a in net.servers && net.servers[a] == old(net.servers)[a]
      invariant net.servers == DropAt(old(net.servers), reached, group, key)
      invariant forall addr | addr in reached :: addr in addrs
      invariant net.servers.Keys == old(net.servers).Keys
      invariant forall a | a in todo && a in net.servers :: net.servers[a] == old(net.servers)[a]
      invariant ok ==> forall addr | addr in addrs - todo :: Accepts(old(net.servers), addr, group, key)
      invariant net.lossless ==> (ok <==> forall addr | addr in addrs - todo :: Accepts(old(net.servers), addr, group, key))
      invariant ok || net.lossless ==>
                  forall addr | addr in addrs - todo && Cached(old(net.servers), addr, group, key)
                                && Accepts(old(net.servers), addr, group, key) ::
                    addr in reached && !Cached(net.servers, addr, group, key)
      decreases todo
    {
      var addr :| addr in todo;
      ghost var before := net.servers;
      SameServer(before, old(net.servers), addr, group, key);
      ServedEffects(before, addr, group, LI.Delete(key), None);
      DropAtOneMore(old(net.servers), reached, addr, group, key);
      var done := net.Drop(addr, group, key);
      if net.servers != before {
        reached := reached + [addr];
      }
      if !done {
        ok := false;
      }
      todo := todo - {addr};
    }
  }

  /** What Set does once the target is known: the write there, then the broadcast to the others. */
  method SetAndInvalidate(net: Network, members: set<string>, target: string, group: string, key: string, value: string)
    returns (ok: bool, ghost reached: seq<string>)
    requires target in members
    modifies net
    ensures ok ==> key != "" && Serves(net.servers, target, group) && Serves(old(net.servers), target, group)
    ensures ok ==> forall addr | addr in members && addr != target :: !Cached(net.servers, addr, group, key)
    ensures ok ==> net.servers[target][group].list ==
                   Put(old(net.servers)[target][group].list, old(net.servers)[target][group].cap, key, value)
    ensures ok ==> Find(net.servers[target][group].list, key) in {None, Some(value)}
    ensures forall addr | addr in reached :: addr in members && addr != target
    ensures ok ==> forall addr | addr in members && addr != target && Cached(old(net.servers), addr, group, key) ::
              addr in reached
    ensures net.lossless ==> (ok <==> TakenByAll(old(net.servers), members, group, key))
    ensures forall a, g, k | Cached(net.servers, a, g, k) ::
              Cached(old(net.servers), a, g, k) || (a == target && k == key)
    ensures || net.servers == old(net.servers)
            || net.servers == DropAt(ServeSet(old(net.servers), target, group, key, value), reached, group, key)
    ensures key == "" ==> net.servers == old(net.servers) || reached == []
  {
    hide Put, Serve, Cached, Find, DropAt, TakenByAll;
    ghost var before := net.servers;
    reached := [];
    TakenByAllIff(before, members, group, key);
    WriteEffects(before, target, group, key, value);
    NothingDropped(ServeSet(before, target, group, key, value), group, key);
    ok := net.Set(target, group, key, value);
    if !ok {
      return;
    }
    ok, reached := DropAll(net, members - {target}, group, key);
  }

  lemma TakenByAllIff(servers: Servers, members: set<string>, group: string, key: string)
    requires members != {}
    ensures TakenByAll(servers, members, group, key) <==> forall a | a in members :: Accepts(servers, a, group, key)
  {
    var a :| a in members;
    assert Accepts(servers, a, group, key) ==> key != "";
  }

  /** What is known of the servers after a write at one of them. */
  lemma WriteEffects(servers: Servers, target: string, group: string, key: string, value: string)
    ensures var after := ServeSet(servers, target, group, key, value);
            && (forall a, g, k | Cached(after, a, g, k) :: Cached(servers, a, g, k) || (a == target && k == key))
            && after.Keys == servers.Keys
            && (forall a | a in servers && a != target :: after[a] == servers[a])
            && (forall a :: Accepts(after, a, group, key) == Accepts(servers, a, group, key))
            && (forall a | a != target :: Cached(after, a, group, key) == Cached(servers, a, group, key))
            && (Accepts(servers, target, group, key) ==>
                  && Serves(after, target, group)
                  && after[target][group].list == Put(servers[target][group].list, servers[target][group].cap, key, value)
                  && Find(after[target][group].list, key) in {None, Some(value)})
  {
    hide Put, Serve, Find;
    var after := ServeSet(servers, target, group, key, value);
    ServedEffects(servers, target, group, LI.Set(key, value), None);
    forall a
      ensures Accepts(after, a, group, key) == Accepts(servers, a, group, key)
    {
      ServingKeepsAcceptance(servers, target, group, LI.Set(key, value), None, a, group, key);
    }
    if Accepts(servers, target, group, key) {
      PutHolds(servers[target][group].list, servers[target][group].cap, key, value, key);
    }
  }

  /** One served operation: what it can add, what it takes away, and what it leaves alone. */
  lemma ServedEffects(servers: Servers, addr: string, group: string, op: LI.Op, loaded: Option<string>)
    ensures var after := Serve(servers, addr, group, op, loaded);
            && (forall a, g, k | Cached(after, a, g, k) ::
                  Cached(servers, a, g, k) || (a == addr && k == op.key && !op.Delete?))
            && after.Keys == servers.Keys
            && (forall a | a in servers && a != addr :: a in after && after[a] == servers[a])
            && (op.Delete? && Accepts(servers, addr, group, op.key) ==> !Cached(after, addr, group, op.key))
            && (op.Set? && Accepts(servers, addr, group, op.key) ==>
                  Serves(after, addr, group) && after[addr][group].list ==
                    Put(servers[addr][group].list, servers[addr][group].cap, op.key, op.value))
  {
    var after := Serve(servers, addr, group, op, loaded);
    forall a, g, k | Cached(after, a, g, k)
      ensures Cached(servers, a, g, k) || (a == addr && k == op.key && !op.Delete?)
    {
      ServedAddsOnlyItsKey(servers, addr, group, op, loaded, a, g, k);
    }
    if op.Delete? && Accepts(servers, addr, group, op.key) {
      WithoutHolds(servers[addr][group].list, op.key, op.key);
    }
  }

  lemma AddOneReplicas(r: Ring, cfg: Config, node: string)
    requires node != ""
    ensures HashRing.Add(r, cfg, [node]).replicas.Keys == r.replicas.Keys + {node}
  {
    hide SortPoints, Points, LabelPoints;
    var q := Place(r, cfg.hash, node, cfg.replicas);
    assert PlaceAll(q, cfg.hash, [node][1..], cfg.replicas) == q;
  }
}
