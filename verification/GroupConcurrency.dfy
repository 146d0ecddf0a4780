/** Concurrent calls on one cache group. Each cache operation is one step, because the cache
  * locks itself; a Get that misses goes through the single-flight protocol step by step and
  * then fills the cache, and anything may happen in between. */
module GroupConcurrency {
  import opened Common
  import opened Lru
  import opened LruInclusion
  import opened SF = SingleFlight

  datatype GetPhase = Looking | Loading | Done(value: Value)

  datatype GetCall = GetCall(key: string, phase: GetPhase)

  datatype Sys = Sys(cache: seq<Entry>, gets: map<Tid, GetCall>, loader: State)

  datatype GroupStep =
    | Start(t: Tid, key: string)
    | Lookup(t: Tid)                     // hit, or miss and call `SingleFlight::Do`
    | Fly(step: Step)                    // one step inside `SingleFlight::Do`
    | Fill(t: Tid)
    | Store(key: string, value: string)  // Set
    | Drop(key: string)                  // Delete or InvalidateFromPeer

  const EMPTY_GROUP := Sys([], map[], SF.INITIAL)

  /** `LoadData`: the loader's answer for a key is the getter's. */
  predicate CanStep(s: Sys, getter: Getter, step: GroupStep) {
    match step
    case Start(t, _) => t !in s.gets && t !in s.loader.flights
    case Lookup(t) => t in s.gets && s.gets[t].phase.Looking? && t !in s.loader.flights
    case Fly(f) =>
      && !f.Begin? && SF.Enabled(s.loader, f)
      && (f.RunLoader? ==> f.value == getter(s.loader.flights[f.t].key))
    case Fill(t) =>
      && t in s.gets && s.gets[t].phase.Loading?
      && t in s.loader.flights && s.loader.flights[t].phase.Returned?
    case Store(key, _) => key != ""
    case Drop(key) => key != ""
  }

  function Do(s: Sys, cap: int, getter: Getter, step: GroupStep): Sys
    requires CanStep(s, getter, step)
  {
    match step
    case Start(t, key) =>
      s.(gets := s.gets[t := GetCall(key, if key == "" then Done(None) else Looking)])
    case Lookup(t) =>
      var key := s.gets[t].key;
      (match Find(s.cache, key)
       case Some(value) => s.(cache := Touch(s.cache, key), gets := s.gets[t := GetCall(key, Done(Some(value)))])
       case None =>
         s.(gets := s.gets[t := GetCall(key, Loading)], loader := SF.Next(s.loader, SF.Begin(t, key))))
    case Fly(f) => s.(loader := SF.Next(s.loader, f))
    case Fill(t) =>
      var key, value := s.gets[t].key, s.loader.flights[t].phase.value;
      s.(gets := s.gets[t := GetCall(key, Done(value))],
         cache := if value.None? then s.cache else Put(s.cache, cap, key, value.value))
    case Store(key, value) => s.(cache := Put(s.cache, cap, key, value))
    case Drop(key) => s.(cache := Without(s.cache, key))
  }

  /** A piece of a run: one step after the other, from any state. */
  ghost predicate IsPath(cap: int, getter: Getter, states: seq<Sys>, steps: seq<GroupStep>) {
    && |states| == |steps| + 1
    && forall i | 0 <= i < |steps| ::
         CanStep(states[i], getter, steps[i]) && states[i + 1] == Do(states[i], cap, getter, steps[i])
  }

  ghost predicate IsGroupRun(cap: int, getter: Getter, states: seq<Sys>, steps: seq<GroupStep>) {
    IsPath(cap, getter, states, steps) && states[0] == EMPTY_GROUP
  }

  /** Every Set of the run stores what the getter would have answered. */
  ghost predicate SetsAgree(getter: Getter, steps: seq<GroupStep>) {
    forall step | step in steps && step.Store? :: getter(step.key) == Some(step.value)
  }

  // ---- The loader between the cache and the getter ----

  ghost predicate FlightsFromGetter(loader: State, getter: Getter) {
    && (forall t | t in loader.flights && (loader.flights[t].phase.Ran? || loader.flights[t].phase.Published?) ::
          loader.flights[t].phase.value == getter(loader.flights[t].key))
    && (forall c | 0 <= c < |loader.shared.calls| && loader.shared.calls[c].result.Some? ::
          loader.shared.calls[c].result.value == getter(loader.shared.calls[c].key))
  }

  /** A Get that is still looking has not entered the loader; one that is loading has, for the
    * same key. */
  ghost predicate InStep(s: Sys, t: Tid)
    requires t in s.gets
  {
    var g := s.gets[t];
    match g.phase
    case Looking => g.key != "" && t !in s.loader.flights
    case Loading => g.key != "" && t in s.loader.flights && s.loader.flights[t].key == g.key
    case Done(_) => true
  }

  /** What holds whatever is stored by Sets. */
  ghost predicate LoaderOk(s: Sys, getter: Getter) {
    && Inv(s.loader)
    && FlightsFromGetter(s.loader, getter)
    && (forall t | t in s.gets :: InStep(s, t))
    && (forall t | t in s.loader.flights :: t in s.gets)
  }

  /** What holds if Sets agree with the getter. */
  ghost predicate CacheOk(s: Sys, getter: Getter) {
    && FromGetter(s.cache, getter)
    && (forall t | t in s.gets && s.gets[t].phase.Done? ::
          s.gets[t].phase.value == if s.gets[t].key == "" then None else getter(s.gets[t].key))
  }

  lemma FlyKeepsFlights(loader: State, getter: Getter, f: Step)
    requires Inv(loader) && FlightsFromGetter(loader, getter) && SF.Enabled(loader, f)
    requires f.RunLoader? ==> f.value == getter(loader.flights[f.t].key)
    ensures FlightsFromGetter(SF.Next(loader, f), getter)
  {
    assert f.t in loader.flights ==> FlightOk(loader, f.t);
    hide CallOk, FlightOk, TableOk, Disjoint;
  }

  lemma FlyKeepsKeys(loader: State, f: Step)
    requires SF.Enabled(loader, f)
    ensures forall t | t in loader.flights ::
              t in SF.Next(loader, f).flights && SF.Next(loader, f).flights[t].key == loader.flights[t].key
    ensures SF.Next(loader, f).flights.Keys == loader.flights.Keys + {f.t}
  {
    hide SF.Insert, SF.SetValue, SF.EraseKey;
  }

  lemma ReturnedFromGetter(loader: State, getter: Getter, t: Tid)
    requires Inv(loader) && FlightsFromGetter(loader, getter)
    requires t in loader.flights && loader.flights[t].phase.Returned?
    ensures loader.flights[t].phase.value == getter(loader.flights[t].key)
  {
    assert FlightOk(loader, t);
    assert loader.shared.calls[loader.flights[t].phase.call].result.Some?;
  }

  lemma TouchKeepsEntries(list: seq<Entry>)
    ensures forall key, e :: e in Touch(list, key) ==> e in list
  {
    forall key, e | e in Touch(list, key)
      ensures e in list
    {
      if Find(list, key).Some? && e != Entry(key, Find(list, key).value) {
        assert e in Without(list, key);
      }
    }
  }

  lemma LookupKeepsLoader(s: Sys, cap: int, getter: Getter, t: Tid)
    requires LoaderOk(s, getter) && CanStep(s, getter, Lookup(t))
    ensures LoaderOk(Do(s, cap, getter, Lookup(t)), getter)
  {
    hide Inv, FlightsFromGetter, Find, Touch;
    assert InStep(s, t);
    if Find(s.cache, s.gets[t].key).None? {
      var begin := SF.Begin(t, s.gets[t].key);
      StepKeepsInv(s.loader, begin);
      FlyKeepsFlights(s.loader, getter, begin);
      FlyKeepsKeys(s.loader, begin);
    }
  }

  lemma FlyKeepsLoader(s: Sys, cap: int, getter: Getter, f: Step)
    requires LoaderOk(s, getter) && CanStep(s, getter, Fly(f))
    ensures LoaderOk(Do(s, cap, getter, Fly(f)), getter)
  {
    hide Inv, FlightsFromGetter, SF.Next;
    StepKeepsInv(s.loader, f);
    FlyKeepsFlights(s.loader, getter, f);
    FlyKeepsKeys(s.loader, f);
    forall t | t in s.gets
      ensures InStep(Do(s, cap, getter, Fly(f)), t)
    {
      assert InStep(s, t);
    }
  }

  lemma StepKeepsLoader(s: Sys, cap: int, getter: Getter, step: GroupStep)
    requires LoaderOk(s, getter) && CanStep(s, getter, step)
    ensures LoaderOk(Do(s, cap, getter, step), getter)
  {
    hide Inv, FlightsFromGetter, Put, Without;
    match step
    case Lookup(t) => LookupKeepsLoader(s, cap, getter, t);
    case Fly(f) => FlyKeepsLoader(s, cap, getter, f);
    case _ =>
  }

  lemma StepKeepsCache(s: Sys, cap: int, getter: Getter, step: GroupStep)
    requires LoaderOk(s, getter) && CacheOk(s, getter) && CanStep(s, getter, step)
    requires step.Store? ==> getter(step.key) == Some(step.value)
    ensures CacheOk(Do(s, cap, getter, step), getter)
  {
    hide Inv, FlightsFromGetter, Put, Touch, SF.Next, SF.Enabled;
    match step
    case Start(t, key) =>
    case Lookup(t) =>
      assert InStep(s, t);
      TouchKeepsEntries(s.cache);
    case Fly(f) =>
    case Fill(t) =>
      assert InStep(s, t);
      ReturnedFromGetter(s.loader, getter, t);
      if s.loader.flights[t].phase.value.Some? {
        PutFromGetter(s.cache, cap, getter, s.gets[t].key, s.loader.flights[t].phase.value.value);
      }
    case Store(key, value) => PutFromGetter(s.cache, cap, getter, key, value);
    case Drop(key) =>
  }

  lemma EmptyLoaderOk(getter: Getter)
    ensures LoaderOk(EMPTY_GROUP, getter) && CacheOk(EMPTY_GROUP, getter)
  {}

  lemma {:induction false} LoaderOkThroughout(
    cap: int, getter: Getter, states: seq<Sys>, steps: seq<GroupStep>, i: nat)
    requires IsGroupRun(cap, getter, states, steps) && i < |states|
    ensures LoaderOk(states[i], getter)
  {
    hide LoaderOk, Do;
    if i > 0 {
      LoaderOkThroughout(cap, getter, states, steps, i - 1);
      assert CanStep(states[i - 1], getter, steps[i - 1]);
      StepKeepsLoader(states[i - 1], cap, getter, steps[i - 1]);
    } else {
      EmptyLoaderOk(getter);
    }
  }

  lemma {:induction false} CacheOkThroughout(
    cap: int, getter: Getter, states: seq<Sys>, steps: seq<GroupStep>, i: nat)
    requires IsGroupRun(cap, getter, states, steps) && i < |states| && SetsAgree(getter, steps[..i])
    ensures CacheOk(states[i], getter)
  {
    hide LoaderOk, CacheOk, Do;
    if i > 0 {
      assert steps[..i][..i - 1] == steps[..i - 1] && steps[..i][i - 1] == steps[i - 1];
      CacheOkThroughout(cap, getter, states, steps, i - 1);
      LoaderOkThroughout(cap, getter, states, steps, i - 1);
      assert CanStep(states[i - 1], getter, steps[i - 1]);
      StepKeepsCache(states[i - 1], cap, getter, steps[i - 1]);
    } else {
      EmptyLoaderOk(getter);
    }
  }

  /** Cache transparency: in every interleaving, at any capacity, as long as Sets so far agreed
    * with the getter, whatever is cached and whatever a Get answers is what the getter answers,
    * and an empty key gets nothing. */
  lemma CacheIsTransparent(cap: int, getter: Getter, states: seq<Sys>, steps: seq<GroupStep>, i: nat)
    requires IsGroupRun(cap, getter, states, steps) && i < |states| && SetsAgree(getter, steps[..i])
    ensures forall e | e in states[i].cache :: getter(e.key) == Some(e.value)
    ensures forall t | t in states[i].gets && states[i].gets[t].phase.Done? ::
              var g := states[i].gets[t];
              g.phase.value == if g.key == "" then None else getter(g.key)
  {
    CacheOkThroughout(cap, getter, states, steps, i);
  }

  // ---- Who puts a key into the cache ----

  /** A step that puts a key into the cache: a Set, or a Get storing what it has loaded. */
  ghost predicate Stores(s: Sys, step: GroupStep, key: string) {
    match step
    case Store(k, _) => k == key
    case Fill(t) => t in s.gets && s.gets[t].key == key
    case _ => false
  }

  lemma OnlyStoresAdd(s: Sys, cap: int, getter: Getter, step: GroupStep, key: string)
    requires CanStep(s, getter, step)
    ensures Holds(Do(s, cap, getter, step).cache, key) ==> Holds(s.cache, key) || Stores(s, step, key)
    ensures step == Drop(key) ==> !Holds(Do(s, cap, getter, step).cache, key)
  {
    hide Find, Without, Fit, SF.Next;
    TouchKeepsEntries(s.cache);
    var s' := Do(s, cap, getter, step);
    if e :| e in s'.cache && e.key == key && !Stores(s, step, key) {
      match step
      case Store(k, value) => FitIsPrefix([Entry(k, value)] + Without(s.cache, k), cap);
      case Fill(t) =>
        var k, value := s.gets[t].key, s.loader.flights[t].phase.value;
        if value.Some? {
          FitIsPrefix([Entry(k, value.value)] + Without(s.cache, k), cap);
        }
      case _ =>
      assert e in s.cache;
    }
  }

  /** A key that was absent and is cached later was put there in between, by a Set or by a Get of
    * that key that stored what it had loaded. */
  lemma {:induction false} AbsentUntilStored(
    cap: int, getter: Getter, states: seq<Sys>, steps: seq<GroupStep>, n: nat, m: nat, key: string) returns (k: nat)
    requires IsPath(cap, getter, states, steps) && n <= m < |states|
    requires !Holds(states[n].cache, key) && Holds(states[m].cache, key)
    ensures n <= k < m && Stores(states[k], steps[k], key)
    ensures !Holds(states[k].cache, key) && Holds(states[k + 1].cache, key)
    decreases m
  {
    hide Holds, Stores, Do;
    k := m - 1;
    assert CanStep(states[k], getter, steps[k]) && states[m] == Do(states[k], cap, getter, steps[k]);
    OnlyStoresAdd(states[k], cap, getter, steps[k], key);
    if Holds(states[k].cache, key) {
      k := AbsentUntilStored(cap, getter, states, steps, n, k, key);
    }
  }

  /** After a delete, whatever else is stored, a key comes back only through a later Set or a Get
    * of that key that stores what it loaded. */
  lemma DeletedUntilStored(
    cap: int, getter: Getter, states: seq<Sys>, steps: seq<GroupStep>, n: nat, m: nat, key: string) returns (k: nat)
    requires IsPath(cap, getter, states, steps) && n < m < |states| && steps[n] == Drop(key)
    ensures !Holds(states[n + 1].cache, key)
    ensures Holds(states[m].cache, key) ==> n < k < m && Stores(states[k], steps[k], key)
  {
    hide Holds, Stores, Do;
    assert CanStep(states[n], getter, steps[n]) && states[n + 1] == Do(states[n], cap, getter, steps[n]);
    OnlyStoresAdd(states[n], cap, getter, steps[n], key);
    k := n;
    if Holds(states[m].cache, key) {
      k := AbsentUntilStored(cap, getter, states, steps, n + 1, m, key);
    }
  }

  /** A Get that is known later and was not started in between was known before. */
  lemma {:induction false} NotStartedBetween(
    cap: int, getter: Getter, states: seq<Sys>, steps: seq<GroupStep>, n: nat, k: nat, t: Tid)
    requires IsPath(cap, getter, states, steps) && n <= k < |states| && t in states[k].gets
    requires forall j | n <= j < k :: steps[j] != Start(t, states[k].gets[t].key)
    ensures t in states[n].gets && states[n].gets[t].key == states[k].gets[t].key
    ensures states[n].gets[t].phase.Done? ==> states[k].gets[t] == states[n].gets[t]
    decreases k
  {
    if n < k {
      var j := k - 1;
      assert CanStep(states[j], getter, steps[j]) && states[k] == Do(states[j], cap, getter, steps[j]);
      NotStartedBetween(cap, getter, states, steps, n, j, t);
    }
  }

  // ---- When a Get loads again ----

  /** Step n takes a key out of the cache: it was there, or this very step was storing it. */
  ghost predicate Leaves(s: Sys, step: GroupStep, s': Sys, key: string) {
    && !Holds(s'.cache, key)
    && (Holds(s.cache, key)
        || (step.Fill? && step.t in s.gets && s.gets[step.t].key == key))
  }

  lemma KeyGetsLost(states: seq<Sys>, steps: seq<GroupStep>, i: nat, j: nat, key: string) returns (n: nat)
    requires i <= j < |states| == |steps| + 1
    requires Holds(states[i].cache, key) && !Holds(states[j].cache, key)
    ensures i <= n < j && Leaves(states[n], steps[n], states[n + 1], key)
    decreases j - i
  {
    hide Holds;
    n := i;
    if Holds(states[i + 1].cache, key) {
      n := KeyGetsLost(states, steps, i + 1, j, key);
    }
  }

  /** Step a is the one with which this Get finishes. */
  ghost predicate FinishesAt(states: seq<Sys>, a: nat, t: Tid) {
    && a + 1 < |states|
    && t in states[a + 1].gets && states[a + 1].gets[t].phase.Done?
    && !(t in states[a].gets && states[a].gets[t].phase.Done?)
  }

  /** The step at which a Get finished; right after it the key is cached or has just left. */
  lemma FinishingStep(
    cap: int, getter: Getter, states: seq<Sys>, steps: seq<GroupStep>, i: nat, t: Tid) returns (a: nat)
    requires IsGroupRun(cap, getter, states, steps) && i < |states|
    requires t in states[i].gets && states[i].gets[t].phase.Done? && states[i].gets[t].phase.value.Some?
    ensures a < i && FinishesAt(states, a, t)
    ensures Holds(states[a + 1].cache, states[i].gets[t].key)
            || Leaves(states[a], steps[a], states[a + 1], states[i].gets[t].key)
    decreases i
  {
    assert i > 0;
    a := i - 1;
    var s, s', step := states[a], states[i], steps[a];
    assert CanStep(s, getter, step) && s' == Do(s, cap, getter, step);
    if t in s.gets && s.gets[t] == s'.gets[t] {
      a := FinishingStep(cap, getter, states, steps, a, t);
    } else {
      hide Fit, Without, Find;
      if step.Lookup? {
        assert Entry(s.gets[t].key, s'.gets[t].phase.value.value) in s'.cache;
      }
    }
  }

  /** The step at which a Get that is loading missed the cache. */
  lemma MissingStep(
    cap: int, getter: Getter, states: seq<Sys>, steps: seq<GroupStep>, i: nat, m: nat, t: Tid) returns (l: nat)
    requires IsGroupRun(cap, getter, states, steps) && i <= m < |states|
    requires t !in states[i].gets && t in states[m].gets && states[m].gets[t].phase.Loading?
    ensures i <= l < m && !Holds(states[l].cache, states[m].gets[t].key)
    decreases m
  {
    l := m - 1;
    var s, s', step := states[l], states[m], steps[l];
    assert i < m;
    assert CanStep(s, getter, step) && s' == Do(s, cap, getter, step);
    if t in s.gets && s.gets[t] == s'.gets[t] {
      l := MissingStep(cap, getter, states, steps, i, l, t);
    }
  }

  /** A Get that starts after another Get of that key has answered a value goes to the loader
    * only if the key was deleted or evicted at the step with which that other Get finished or at
    * a later one. */
  lemma LoadsAgainOnlyAfterLoss(
    cap: int, getter: Getter, states: seq<Sys>, steps: seq<GroupStep>, i: nat, m: nat, first: Tid, second: Tid)
    returns (a: nat, n: nat)
    requires IsGroupRun(cap, getter, states, steps) && i <= m < |states|
    requires first in states[i].gets && states[i].gets[first].phase.Done? && states[i].gets[first].phase.value.Some?
    requires second !in states[i].gets && second in states[m].gets && states[m].gets[second].phase.Loading?
    requires states[i].gets[first].key == states[m].gets[second].key
    ensures FinishesAt(states, a, first) && a < i && a <= n < m
    ensures Leaves(states[n], steps[n], states[n + 1], states[m].gets[second].key)
  {
    var key := states[m].gets[second].key;
    a := FinishingStep(cap, getter, states, steps, i, first);
    var l := MissingStep(cap, getter, states, steps, i, m, second);
    if Holds(states[a + 1].cache, key) {
      n := KeyGetsLost(states, steps, a + 1, l, key);
    } else {
      n := a;
    }
  }
}
