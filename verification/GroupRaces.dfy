/** What overlapping Gets of one key can do to one another and to a delete: when a key is loaded
  * a second time, and when a deleted key comes back. */
module GroupRaces {
  import opened Common
  import opened Lru
  import opened LruInclusion
  import opened SF = SingleFlight
  import opened SingleFlightRuns
  import opened GroupConcurrency

  // ---- Loads ----

  predicate RunsLoader(step: GroupStep, t: Tid) {
    step.Fly? && step.step.RunLoader? && step.step.t == t
  }

  /** The loader was run by this thread before step i. */
  ghost predicate LoaderRan(steps: seq<GroupStep>, i: nat, t: Tid) {
    exists j :: 0 <= j < i && j < |steps| && RunsLoader(steps[j], t)
  }

  /** Step j calls the getter for this key. */
  ghost predicate IsLoad(states: seq<Sys>, steps: seq<GroupStep>, j: nat, key: string) {
    && j < |steps| && j < |states|
    && steps[j].Fly? && steps[j].step.RunLoader?
    && steps[j].step.t in states[j].loader.flights
    && states[j].loader.flights[steps[j].step.t].key == key
  }

  ghost predicate LoadedTwice(states: seq<Sys>, steps: seq<GroupStep>, i: nat, key: string) {
    exists j, k :: 0 <= j < k < i && IsLoad(states, steps, j, key) && IsLoad(states, steps, k, key)
  }

  /** No thread is between joining or leading for the key and running the loader; so in particular
    * when every Get has returned. */
  ghost predicate NobodyAboutToLoad(loader: State, key: string) {
    forall t | t in loader.flights && loader.flights[t].key == key :: !loader.flights[t].phase.Leading?
  }

  lemma LoaderMoves(s: Sys, cap: int, getter: Getter, step: GroupStep)
    requires CanStep(s, getter, step) && LoaderOk(s, getter)
    ensures var s' := Do(s, cap, getter, step);
            || (s'.loader == s.loader && !step.Fly?)
            || (step.Lookup? && SF.Enabled(s.loader, SF.Begin(step.t, s.gets[step.t].key))
                && s'.loader == SF.Next(s.loader, SF.Begin(step.t, s.gets[step.t].key)))
            || (step.Fly? && SF.Enabled(s.loader, step.step) && s'.loader == SF.Next(s.loader, step.step))
  {
    hide SF.Next, Put, Touch, Without, Find, Inv, FlightsFromGetter;
  }

  lemma GroupStepLoads(s: Sys, cap: int, getter: Getter, step: GroupStep, t: Tid)
    requires CanStep(s, getter, step) && LoaderOk(s, getter)
    ensures var s' := Do(s, cap, getter, step);
            && (HasLoaded(s'.loader, t) <==> (HasLoaded(s.loader, t) || RunsLoader(step, t)))
            && (RunsLoader(step, t) ==> !HasLoaded(s.loader, t))
            && (t in s.loader.flights ==>
                  t in s'.loader.flights && s'.loader.flights[t].key == s.loader.flights[t].key)
  {
    hide Do, SF.Next, SF.Enabled, HasLoaded, Inv, FlightsFromGetter;
    LoaderMoves(s, cap, getter, step);
    if step.Fly? {
      StepLoads(s.loader, step.step, t);
      FlyKeepsKeys(s.loader, step.step);
    } else if Do(s, cap, getter, step).loader != s.loader {
      StepLoads(s.loader, SF.Begin(step.t, s.gets[step.t].key), t);
      FlyKeepsKeys(s.loader, SF.Begin(step.t, s.gets[step.t].key));
    }
  }

  lemma OneStep(cap: int, getter: Getter, states: seq<Sys>, steps: seq<GroupStep>, i: nat)
    requires IsPath(cap, getter, states, steps) && i < |steps|
    ensures i + 1 < |states| && CanStep(states[i], getter, steps[i])
    ensures states[i + 1] == Do(states[i], cap, getter, steps[i])
  {
    hide CanStep, Do;
  }

  /** One step of a run, and what is known where it starts. */
  lemma RunStep(cap: int, getter: Getter, states: seq<Sys>, steps: seq<GroupStep>, i: nat)
    requires IsGroupRun(cap, getter, states, steps) && i + 1 < |states|
    ensures i < |steps| && CanStep(states[i], getter, steps[i]) && LoaderOk(states[i], getter)
    ensures states[i + 1] == Do(states[i], cap, getter, steps[i])
  {
    hide LoaderOk;
    OneStep(cap, getter, states, steps, i);
    LoaderOkThroughout(cap, getter, states, steps, i);
  }

  lemma RunStarts(cap: int, getter: Getter, states: seq<Sys>, steps: seq<GroupStep>, t: Tid)
    requires IsGroupRun(cap, getter, states, steps)
    ensures states != [] && !HasLoaded(states[0].loader, t)
  {}

  lemma RanOneMore(steps: seq<GroupStep>, i: nat, t: Tid)
    requires i < |steps|
    ensures LoaderRan(steps, i + 1, t) <==> LoaderRan(steps, i, t) || RunsLoader(steps[i], t)
  {
    hide RunsLoader;
  }

  lemma {:induction false} LoadsTracked(
    cap: int, getter: Getter, states: seq<Sys>, steps: seq<GroupStep>, i: nat, t: Tid)
    requires IsGroupRun(cap, getter, states, steps) && i < |states|
    ensures LoaderRan(steps, i, t) <==> HasLoaded(states[i].loader, t)
  {
    if i > 0 {
      hide *;
      LoadsTracked(cap, getter, states, steps, i - 1, t);
      RunStep(cap, getter, states, steps, i - 1);
      GroupStepLoads(states[i - 1], cap, getter, steps[i - 1], t);
      RanOneMore(steps, i - 1, t);
    } else {
      hide HasLoaded;
      RunStarts(cap, getter, states, steps, t);
    }
  }

  lemma {:induction false} KeyStays(
    cap: int, getter: Getter, states: seq<Sys>, steps: seq<GroupStep>, j: nat, i: nat, t: Tid)
    requires IsGroupRun(cap, getter, states, steps) && j <= i < |states| && t in states[j].loader.flights
    ensures t in states[i].loader.flights
    ensures states[i].loader.flights[t].key == states[j].loader.flights[t].key
    decreases i
  {
    hide *;
    if j < i {
      KeyStays(cap, getter, states, steps, j, i - 1, t);
      RunStep(cap, getter, states, steps, i - 1);
      GroupStepLoads(states[i - 1], cap, getter, steps[i - 1], t);
    }
  }

  /** What a load leaves behind: its thread led a call of its own for the key. */
  lemma LoadLeavesCall(
    cap: int, getter: Getter, states: seq<Sys>, steps: seq<GroupStep>, j: nat, i: nat, key: string)
    requires IsGroupRun(cap, getter, states, steps) && j < i < |states| && IsLoad(states, steps, j, key)
    ensures var t, loader := steps[j].step.t, states[i].loader;
            && t in loader.flights && loader.flights[t].key == key && HasLoaded(loader, t)
            && !loader.flights[t].phase.Arrived?
            && loader.flights[t].phase.call < |loader.shared.calls|
            && loader.shared.calls[loader.flights[t].phase.call].leader == t
            && loader.shared.calls[loader.flights[t].phase.call].key == key
  {
    var t := steps[j].step.t;
    KeyStays(cap, getter, states, steps, j, i, t);
    assert RunsLoader(steps[j], t);
    LoadsTracked(cap, getter, states, steps, i, t);
    LoaderOkThroughout(cap, getter, states, steps, i);
    hide IsGroupRun, Inv;
    LoadedLed(states[i].loader, t);
  }

  lemma LoadsByDifferentThreads(
    cap: int, getter: Getter, states: seq<Sys>, steps: seq<GroupStep>, j: nat, k: nat, key: string)
    requires IsGroupRun(cap, getter, states, steps) && j < k < |steps|
    requires IsLoad(states, steps, j, key) && IsLoad(states, steps, k, key)
    ensures steps[j].step.t != steps[k].step.t
  {
    hide HasLoaded, Do;
    var t := steps[k].step.t;
    RunStep(cap, getter, states, steps, k);
    GroupStepLoads(states[k], cap, getter, steps[k], t);
    LoadsTracked(cap, getter, states, steps, k, t);
    assert RunsLoader(steps[j], steps[j].step.t);
  }

  lemma CallWasLoaded(
    cap: int, getter: Getter, states: seq<Sys>, steps: seq<GroupStep>, i: nat, c: nat, key: string) returns (j: nat)
    requires IsGroupRun(cap, getter, states, steps) && i < |states| && c < |states[i].loader.shared.calls|
    requires states[i].loader.shared.calls[c].key == key && NobodyAboutToLoad(states[i].loader, key)
    ensures j < i && IsLoad(states, steps, j, key)
    ensures steps[j].step.t in states[i].loader.flights && !states[i].loader.flights[steps[j].step.t].phase.Arrived?
    ensures states[i].loader.flights[steps[j].step.t].phase.call == c
  {
    hide Do, HasLoaded, Inv, FlightsFromGetter;
    var loader := states[i].loader;
    LoaderOkThroughout(cap, getter, states, steps, i);
    LeaderLoads(loader, c);
    var t := loader.shared.calls[c].leader;
    LoadsTracked(cap, getter, states, steps, i, t);
    j :| 0 <= j < i && j < |steps| && RunsLoader(steps[j], t);
    assert CanStep(states[j], getter, steps[j]);
    KeyStays(cap, getter, states, steps, j, i, t);
  }

  /** The getter is called twice for a key only if some thread passed the first critical section
    * after a call for that key had been erased, and then it is, at the latest when nobody is
    * about to load any more. */
  lemma SecondLoadIff(cap: int, getter: Getter, states: seq<Sys>, steps: seq<GroupStep>, i: nat, key: string)
    requires IsGroupRun(cap, getter, states, steps) && i < |states|
    ensures LoadedTwice(states, steps, i, key) ==> LateEntry(states[i].loader, key)
    ensures NobodyAboutToLoad(states[i].loader, key) ==>
              (LoadedTwice(states, steps, i, key) <==> LateEntry(states[i].loader, key))
  {
    hide IsGroupRun, IsLoad, NobodyAboutToLoad, LateEntry, Inv, FlightsFromGetter, HasLoaded;
    var loader := states[i].loader;
    assert Inv(loader) by {
      LoaderOkThroughout(cap, getter, states, steps, i);
    }
    SecondCallIff(loader, key);
    if LoadedTwice(states, steps, i, key) {
      TwoLoadsTwoCalls(cap, getter, states, steps, i, key);
    }
    if TwoCalls(loader, key) && NobodyAboutToLoad(loader, key) {
      var c, d :| 0 <= c < d < |loader.shared.calls|
                 && loader.shared.calls[c].key == key && loader.shared.calls[d].key == key;
      var j := CallWasLoaded(cap, getter, states, steps, i, c, key);
      var k := CallWasLoaded(cap, getter, states, steps, i, d, key);
      assert j != k;
      assert if j < k then 0 <= j < k < i else 0 <= k < j < i;
    }
  }

  lemma TwoLoadsTwoCalls(cap: int, getter: Getter, states: seq<Sys>, steps: seq<GroupStep>, i: nat, key: string)
    requires IsGroupRun(cap, getter, states, steps) && i < |states| && LoadedTwice(states, steps, i, key)
    ensures TwoCalls(states[i].loader, key)
  {
    var j, k :| 0 <= j < k < i && IsLoad(states, steps, j, key) && IsLoad(states, steps, k, key);
    hide IsLoad, HasLoaded, CanStep, Do;
    LoadsByDifferentThreads(cap, getter, states, steps, j, k, key);
    LoadLeavesCall(cap, getter, states, steps, j, i, key);
    LoadLeavesCall(cap, getter, states, steps, k, i, key);
    var flights := states[i].loader.flights;
    var c, d := flights[steps[j].step.t].phase.call, flights[steps[k].step.t].phase.call;
    assert if c < d then 0 <= c < d else 0 <= d < c;
  }

  // ---- Building runs ----

  lemma PathSnoc(cap: int, getter: Getter, states: seq<Sys>, steps: seq<GroupStep>, step: GroupStep)
    returns (states': seq<Sys>, steps': seq<GroupStep>)
    requires IsPath(cap, getter, states, steps) && CanStep(states[|steps|], getter, step)
    ensures IsPath(cap, getter, states', steps')
    ensures states' == states + [Do(states[|steps|], cap, getter, step)] && steps' == steps + [step]
    ensures |states'| == |steps'| + 1 && states'[|steps'|] == Do(states[|steps|], cap, getter, step)
  {
    hide CanStep, Do;
    states', steps' := states + [Do(states[|steps|], cap, getter, step)], steps + [step];
  }

  lemma PathLength(cap: int, getter: Getter, states: seq<Sys>, steps: seq<GroupStep>)
    requires IsPath(cap, getter, states, steps)
    ensures |states| == |steps| + 1
  {}

  lemma PathCons(cap: int, getter: Getter, s: Sys, step: GroupStep, states: seq<Sys>, steps: seq<GroupStep>)
    requires CanStep(s, getter, step) && IsPath(cap, getter, states, steps) && states[0] == Do(s, cap, getter, step)
    ensures IsPath(cap, getter, [s] + states, [step] + steps)
  {
    hide CanStep, Do;
  }

  /** The steps of a thread that finds no call for its key in the table. */
  function Leading(t: Tid, value: Value): seq<GroupStep> {
    [Fly(Enter(t)), Fly(RunLoader(t, value)), Fly(SF.Publish(t)), Fly(SF.Erase(t))]
  }

  predicate AboutToEnter(loader: State, t: Tid, key: string) {
    t in loader.flights && loader.flights[t].key == key && loader.flights[t].phase.Arrived?
  }

  /** From arrival to return without interruption. */
  function Led(l: State, t: Tid, value: Value): State
    requires t in l.flights
  {
    var f, now, c := l.flights[t], l.clock, |l.shared.calls|;
    State(now + 4, l.flights[t := f.(entered := now, phase := Returned(c, value, now + 3))],
          Shared(l.shared.table - {f.key},
                 l.shared.calls + [Call(f.key, t, now, Some(value), Some(now + 3))]))
  }

  lemma LedInFourSteps(l: State, t: Tid, value: Value) returns (l1: State, l2: State, l3: State)
    requires t in l.flights && AboutToEnter(l, t, l.flights[t].key) && l.flights[t].key !in l.shared.table
    ensures SF.Next(l, Enter(t)) == l1
    ensures SF.Enabled(l1, RunLoader(t, value)) && SF.Next(l1, RunLoader(t, value)) == l2
    ensures l1.flights[t].key == l.flights[t].key
    ensures SF.Enabled(l2, SF.Publish(t)) && SF.Next(l2, SF.Publish(t)) == l3
    ensures SF.Enabled(l3, SF.Erase(t)) && SF.Next(l3, SF.Erase(t)) == Led(l, t, value)
  {
    var f, c, now, m := l.flights[t], |l.shared.calls|, l.clock, l.shared;
    var g := f.(entered := now, phase := SF.Leading(c));
    var open := Call(f.key, t, now, None, None);
    var table := m.table[f.key := c];
    l1 := State(now + 1, l.flights[t := g], Shared(table, m.calls + [open]));
    l2 := State(now + 2, l.flights[t := g.(phase := Ran(c, value))], l1.shared);
    l3 := State(now + 3, l.flights[t := g.(phase := Published(c, value))],
                Shared(table, m.calls + [open.(result := Some(value))]));
    assert table - {f.key} == m.table - {f.key};
  }

  lemma LeadAlone(cap: int, getter: Getter, states: seq<Sys>, steps: seq<GroupStep>, t: Tid)
    returns (states': seq<Sys>, steps': seq<GroupStep>)
    requires IsPath(cap, getter, states, steps)
    requires var l := states[|steps|].loader; t in l.flights && AboutToEnter(l, t, l.flights[t].key)
    requires var l := states[|steps|].loader; l.flights[t].key !in l.shared.table
    ensures var s := states[|steps|];
            var value := getter(s.loader.flights[t].key);
            && IsPath(cap, getter, states', steps')
            && steps' == steps + Leading(t, value)
            && |states'| == |states| + 4 && states'[..|states|] == states
            && states'[|steps'|] == s.(loader := Led(s.loader, t, value))
            && IsLoad(states', steps', |steps| + 1, s.loader.flights[t].key)
  {
    hide SF.Next, Led, IsPath;
    PathLength(cap, getter, states, steps);
    var s := states[|steps|];
    var value := getter(s.loader.flights[t].key);
    var l1, l2, l3 := LedInFourSteps(s.loader, t, value);
    states', steps' := PathSnoc(cap, getter, states, steps, Fly(Enter(t)));
    states', steps' := PathSnoc(cap, getter, states', steps', Fly(RunLoader(t, value)));
    states', steps' := PathSnoc(cap, getter, states', steps', Fly(SF.Publish(t)));
    states', steps' := PathSnoc(cap, getter, states', steps', Fly(SF.Erase(t)));
  }

  lemma LedReturns(l: State, t: Tid, value: Value)
    requires t in l.flights
    ensures t in Led(l, t, value).flights
    ensures Led(l, t, value).flights[t].phase == Returned(|l.shared.calls|, value, l.clock + 3)
  {}

  lemma NoMoreSteps(cap: int, getter: Getter, s: Sys) returns (states: seq<Sys>, steps: seq<GroupStep>)
    ensures states == [s] && steps == [] && IsPath(cap, getter, states, steps)
  {
    states, steps := [s], [];
  }

  // ---- The step system and the sequential group ----

  /** A Get that no other thread interrupts, for a key that nobody is loading, does what the
    * sequential group does; Set and Delete are single steps that do the same. */
  lemma UninterruptedGet(cap: int, getter: Getter, s: Sys, t: Tid, key: string)
    returns (states: seq<Sys>, steps: seq<GroupStep>)
    requires CanStep(s, getter, Start(t, key)) && key != "" && key !in s.loader.shared.table
    ensures IsPath(cap, getter, states, steps) && states[0] == s
    ensures steps == [Start(t, key), Lookup(t)]
                     + if Holds(s.cache, key) then [] else Leading(t, getter(key)) + [Fill(t)]
    ensures var g, e := Group(s.cache, 0), states[|steps|];
            && e.cache == Apply(g, cap, getter, Get(key)).list
            && t in e.gets && e.gets[t] == GetCall(key, Done(Answer(g, getter, key)))
  {
    hide IsPath, Led, Put, Touch, SF.Next;
    states, steps := NoMoreSteps(cap, getter, s);
    states, steps := PathSnoc(cap, getter, states, steps, Start(t, key));
    states, steps := PathSnoc(cap, getter, states, steps, Lookup(t));
    if !Holds(s.cache, key) {
      Arrives(s.loader, t, key);
      LedReturns(states[2].loader, t, getter(key));
      states, steps := LeadAlone(cap, getter, states, steps, t);
      states, steps := PathSnoc(cap, getter, states, steps, Fill(t));
    }
  }

  lemma Arrives(l: State, t: Tid, key: string)
    requires t !in l.flights
    ensures SF.Next(l, SF.Begin(t, key)).flights == l.flights[t := Flight(key, l.clock, 0, Arrived)]
    ensures SF.Next(l, SF.Begin(t, key)).shared == l.shared
  {}

  lemma SetAndDeleteSteps(cap: int, getter: Getter, s: Sys, key: string, value: string)
    requires key != ""
    ensures Do(s, cap, getter, Store(key, value)) ==
            s.(cache := Apply(Group(s.cache, 0), cap, getter, Set(key, value)).list)
    ensures Do(s, cap, getter, Drop(key)) == s.(cache := Apply(Group(s.cache, 0), cap, getter, Delete(key)).list)
  {}

  // ---- A burst that loads twice ----

  /** The loader when two threads have begun for one key and neither has entered. */
  function TwoArrived(key: string): State {
    State(2, map[0 := Flight(key, 0, 0, Arrived), 1 := Flight(key, 1, 0, Arrived)], NOTHING_SHARED)
  }

  lemma BothArrive(key: string)
    ensures SF.Next(SF.Next(INITIAL, SF.Begin(0, key)), SF.Begin(1, key)) == TwoArrived(key)
  {}

  lemma BothMiss(cap: int, getter: Getter, key: string) returns (states: seq<Sys>, steps: seq<GroupStep>)
    requires key != ""
    ensures IsPath(cap, getter, states, steps) && |states| == 5 && states[0] == EMPTY_GROUP
    ensures steps == [Start(0, key), Start(1, key), Lookup(0), Lookup(1)]
    ensures states[4].loader == TwoArrived(key)
  {
    hide IsPath, TwoArrived;
    BothArrive(key);
    states, steps := NoMoreSteps(cap, getter, EMPTY_GROUP);
    states, steps := PathSnoc(cap, getter, states, steps, Start(0, key));
    states, steps := PathSnoc(cap, getter, states, steps, Start(1, key));
    states, steps := PathSnoc(cap, getter, states, steps, Lookup(0));
    states, steps := PathSnoc(cap, getter, states, steps, Lookup(1));
  }

  lemma AfterLed(l: State, t: Tid, u: Tid, value: Value)
    requires t in l.flights && u in l.flights && t != u && AboutToEnter(l, u, l.flights[u].key)
    ensures u in Led(l, t, value).flights && Led(l, t, value).flights[u] == l.flights[u]
    ensures l.flights[t].key !in Led(l, t, value).shared.table
  {}

  lemma LoadOfPrefix(states: seq<Sys>, steps: seq<GroupStep>, more: seq<Sys>, further: seq<GroupStep>, j: nat, key: string)
    requires IsLoad(states, steps, j, key) && states <= more && steps <= further
    ensures IsLoad(more, further, j, key)
  {}

  /** Two Gets of one key both miss an empty cache before anything has been loaded; the first
    * then loads and leaves before the second passes its first critical section. With any getter,
    * at any capacity and for any key, the getter is called twice although nothing was stored,
    * deleted or evicted. */
  lemma BurstCanLoadTwice(cap: int, getter: Getter, key: string)
    returns (states: seq<Sys>, steps: seq<GroupStep>)
    requires key != ""
    ensures IsGroupRun(cap, getter, states, steps)
    ensures steps == [Start(0, key), Start(1, key), Lookup(0), Lookup(1)]
                     + Leading(0, getter(key)) + Leading(1, getter(key))
    ensures LoadedTwice(states, steps, |steps|, key)
  {
    hide IsPath, Led, IsLoad, Do, CanStep;
    var states0, steps0 := BothMiss(cap, getter, key);
    var states1, steps1 := LeadAlone(cap, getter, states0, steps0, 0);
    AfterLed(TwoArrived(key), 0, 1, getter(key));
    PathLength(cap, getter, states1, steps1);
    states, steps := LeadAlone(cap, getter, states1, steps1, 1);
    LoadOfPrefix(states1, steps1, states, steps, 5, key);
  }

  // ---- A deleted key that comes back ----

  /** A Get of the key is under way. */
  ghost predicate Pending(s: Sys, key: string) {
    exists t :: t in s.gets && s.gets[t].key == key && !s.gets[t].phase.Done?
  }

  /** No Set and no new Get of the key. */
  ghost predicate Quiet(steps: seq<GroupStep>, key: string) {
    forall step | step in steps :: (step.Store? || step.Start?) ==> step.key != key
  }

  /** Some continuation without a Set or a new Get of the key has the key cached at its end. */
  ghost predicate CanComeBack(s: Sys, cap: int, getter: Getter, key: string) {
    exists states: seq<Sys>, steps: seq<GroupStep> ::
      && IsPath(cap, getter, states, steps) && states[0] == s
      && Quiet(steps, key)
      && Holds(states[|steps|].cache, key)
  }

  lemma {:induction false} LoaderOkAlong(
    cap: int, getter: Getter, states: seq<Sys>, steps: seq<GroupStep>, i: nat)
    requires IsPath(cap, getter, states, steps) && i < |states| && LoaderOk(states[0], getter)
    ensures LoaderOk(states[i], getter)
  {
    hide LoaderOk, Do, CanStep;
    if i > 0 {
      LoaderOkAlong(cap, getter, states, steps, i - 1);
      OneStep(cap, getter, states, steps, i - 1);
      StepKeepsLoader(states[i - 1], cap, getter, steps[i - 1]);
    }
  }

  /** A Get that stores a key stores the getter's answer, so there is one and it fits. */
  lemma FillStoresAnswer(s: Sys, cap: int, getter: Getter, t: Tid, key: string)
    requires LoaderOk(s, getter) && CanStep(s, getter, Fill(t)) && s.gets[t].key == key
    requires !Holds(s.cache, key) && Holds(Do(s, cap, getter, Fill(t)).cache, key)
    ensures getter(key).Some? && Fits(cap, key, getter(key).value)
  {
    hide Holds, Put, Inv, FlightsFromGetter, Fits;
    assert InStep(s, t);
    ReturnedFromGetter(s.loader, getter, t);
    if getter(key).Some? {
      PutHoldsIff(s.cache, cap, key, getter(key).value);
    }
  }

  lemma ComesBackOnlyFromPending(
    cap: int, getter: Getter, states: seq<Sys>, steps: seq<GroupStep>, key: string)
    requires IsPath(cap, getter, states, steps) && LoaderOk(states[0], getter)
    requires Quiet(steps, key) && !Holds(states[0].cache, key) && Holds(states[|steps|].cache, key)
    ensures Pending(states[0], key) && getter(key).Some? && Fits(cap, key, getter(key).value)
  {
    hide Holds, LoaderOk, Do, Fits;
    var k := AbsentUntilStored(cap, getter, states, steps, 0, |steps|, key);
    assert steps[k] in steps;
    OneStep(cap, getter, states, steps, k);
    LoaderOkAlong(cap, getter, states, steps, k);
    FillStoresAnswer(states[k], cap, getter, steps[k].t, key);
    forall j | 0 <= j < k
      ensures steps[j] != Start(steps[k].t, key)
    {
      assert steps[j] in steps;
    }
    NotStartedBetween(cap, getter, states, steps, 0, k, steps[k].t);
  }

  /** The next step towards storing what a pending Get loads: its own, or that of the leader it
    * waits for. */
  lemma StepTowardsFill(s: Sys, getter: Getter, t: Tid) returns (step: GroupStep)
    requires LoaderOk(s, getter) && t in s.gets && !s.gets[t].phase.Done? && !Holds(s.cache, s.gets[t].key)
    ensures CanStep(s, getter, step) && !step.Start? && !step.Store? && !step.Drop?
    ensures match step
            case Lookup(u) => u == t && s.gets[t].phase.Looking?
            case Fly(f) => s.gets[t].phase.Loading?
            case Fill(u) => u == t && s.gets[t].phase.Loading?
            case _ => false
  {
    hide Inv, FlightsFromGetter, Holds;
    assert InStep(s, t);
    if s.gets[t].phase.Looking? {
      step := Lookup(t);
    } else if s.loader.flights[t].phase.Returned? {
      step := Fill(t);
    } else {
      var f := SomeoneCanStep(s.loader, t, getter);
      step := Fly(f);
    }
  }

  /** How far a pending Get is from storing, the threads it may wait for included. */
  ghost function StepsToGo(s: Sys, t: Tid): nat
    requires t in s.gets
  {
    if s.gets[t].phase.Looking? then 1 else 0
  }

  lemma {:induction false} PendingGetStores(s: Sys, cap: int, getter: Getter, t: Tid)
    returns (states: seq<Sys>, steps: seq<GroupStep>)
    requires LoaderOk(s, getter) && t in s.gets && !s.gets[t].phase.Done?
    requires getter(s.gets[t].key).Some? && Fits(cap, s.gets[t].key, getter(s.gets[t].key).value)
    ensures IsPath(cap, getter, states, steps) && states[0] == s
    ensures forall step | step in steps :: !step.Start? && !step.Store? && !step.Drop?
    ensures Holds(states[|steps|].cache, s.gets[t].key)
    decreases StepsToGo(s, t), Remaining(s.loader)
  {
    hide Holds, LoaderOk, Do, CanStep, Fits, IsPath;
    var key := s.gets[t].key;
    states, steps := NoMoreSteps(cap, getter, s);
    if !Holds(s.cache, key) {
      var step := StepTowardsFill(s, getter, t);
      var s' := Do(s, cap, getter, step);
      TowardsFill(s, cap, getter, t, step);
      StepKeepsLoader(s, cap, getter, step);
      if step.Fill? {
        states, steps := NoMoreSteps(cap, getter, s');
      } else {
        states, steps := PendingGetStores(s', cap, getter, t);
      }
      PathLength(cap, getter, states, steps);
      PathCons(cap, getter, s, step, states, steps);
      states, steps := [s] + states, [step] + steps;
    }
  }

  lemma TowardsFill(s: Sys, cap: int, getter: Getter, t: Tid, step: GroupStep)
    requires LoaderOk(s, getter) && t in s.gets && !Holds(s.cache, s.gets[t].key) && CanStep(s, getter, step)
    requires match step
             case Lookup(u) => u == t && s.gets[t].phase.Looking?
             case Fly(f) => s.gets[t].phase.Loading?
             case Fill(u) => u == t && s.gets[t].phase.Loading?
             case _ => false
    requires getter(s.gets[t].key).Some? && Fits(cap, s.gets[t].key, getter(s.gets[t].key).value)
    ensures var s' := Do(s, cap, getter, step);
            && t in s'.gets && s'.gets[t].key == s.gets[t].key
            && (step.Lookup? ==> s'.gets[t].phase.Loading?)
            && (step.Fly? ==> s'.gets[t] == s.gets[t] && Remaining(s'.loader) < Remaining(s.loader))
            && (step.Fill? ==> Holds(s'.cache, s.gets[t].key))
  {
    hide Inv, FlightsFromGetter, Holds, Put, Remaining, SF.Next, SF.Enabled, Fits;
    assert InStep(s, t);
    match step
    case Lookup(_) =>
    case Fly(f) => StepDecreases(s.loader, f);
    case Fill(_) =>
      ReturnedFromGetter(s.loader, getter, t);
      PutHoldsIff(s.cache, cap, s.gets[t].key, getter(s.gets[t].key).value);
  }

  lemma PendingComesBack(s: Sys, cap: int, getter: Getter, key: string)
    requires LoaderOk(s, getter) && Pending(s, key)
    requires getter(key).Some? && Fits(cap, key, getter(key).value)
    ensures CanComeBack(s, cap, getter, key)
  {
    hide LoaderOk, Holds, IsPath, Fits;
    var t :| t in s.gets && s.gets[t].key == key && !s.gets[t].phase.Done?;
    var states, steps := PendingGetStores(s, cap, getter, t);
    assert Quiet(steps, key);
  }

  /** After a delete, something other than a Set or a new Get of the key can bring it back exactly
    * when a Get of the key was under way when the delete ran, the getter knows the key, and its
    * entry fits the capacity: that Get's fill overwrites the delete. */
  lemma DeleteUndoneIff(
    cap: int, getter: Getter, states: seq<Sys>, steps: seq<GroupStep>, n: nat, key: string)
    requires IsGroupRun(cap, getter, states, steps) && n < |steps| && steps[n] == Drop(key)
    ensures CanComeBack(states[n + 1], cap, getter, key)
            <==> Pending(states[n], key) && getter(key).Some? && Fits(cap, key, getter(key).value)
  {
    hide LoaderOk, Holds, Fits, CanStep, Do;
    var s := states[n + 1];
    OneStep(cap, getter, states, steps, n);
    LoaderOkThroughout(cap, getter, states, steps, n + 1);
    OnlyStoresAdd(states[n], cap, getter, steps[n], key);
    DropKeepsGets(states[n], cap, getter, key);
    if CanComeBack(s, cap, getter, key) {
      var cs: seq<Sys>, ss: seq<GroupStep> :| IsPath(cap, getter, cs, ss) && cs[0] == s && Quiet(ss, key) && Holds(cs[|ss|].cache, key);
      ComesBackOnlyFromPending(cap, getter, cs, ss, key);
    }
    if Pending(s, key) && getter(key).Some? && Fits(cap, key, getter(key).value) {
      PendingComesBack(s, cap, getter, key);
    }
  }

  lemma DropKeepsGets(s: Sys, cap: int, getter: Getter, key: string)
    requires CanStep(s, getter, Drop(key))
    ensures Do(s, cap, getter, Drop(key)).gets == s.gets
  {}

  lemma NothingHeld(key: string)
    ensures !Holds([], key)
  {}

  /** Such a run: a Get misses and loads, the key is deleted, and the Get then stores it. */
  lemma DeleteCanBeUndone(cap: int, getter: Getter, key: string) returns (states: seq<Sys>, steps: seq<GroupStep>)
    requires key != "" && getter(key).Some? && Fits(cap, key, getter(key).value)
    ensures IsGroupRun(cap, getter, states, steps)
    ensures steps == [Start(0, key), Lookup(0)] + Leading(0, getter(key)) + [Drop(key), Fill(0)]
    ensures !Holds(states[7].cache, key) && Holds(states[8].cache, key)
  {
    hide IsPath, Led, Fits, Holds, Put;
    assert !Holds([], key) by {
      NothingHeld(key);
    }
    states, steps := NoMoreSteps(cap, getter, EMPTY_GROUP);
    states, steps := PathSnoc(cap, getter, states, steps, Start(0, key));
    states, steps := PathSnoc(cap, getter, states, steps, Lookup(0));
    LedReturns(states[2].loader, 0, getter(key));
    states, steps := LeadAlone(cap, getter, states, steps, 0);
    states, steps := PathSnoc(cap, getter, states, steps, Drop(key));
    states, steps := PathSnoc(cap, getter, states, steps, Fill(0));
    PutHoldsIff([], cap, key, getter(key).value);
  }
}
