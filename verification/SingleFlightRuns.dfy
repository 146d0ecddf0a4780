/** What the single-flight protocol promises over whole runs, for every interleaving: safety of
  * the shared results, when a second load happens, and that every call of `Do` finishes. */
module SingleFlightRuns {
  import opened Common
  import opened SingleFlight

  // ---- Safety ----

  /** For one key, a call enters the table only after every earlier one has left it. */
  lemma LeaderIntervalsDisjoint(states: seq<State>, steps: seq<Step>, i: nat, c: nat, d: nat)
    requires IsRun(states, steps) && i < |states|
    requires c < d < |states[i].shared.calls|
    requires states[i].shared.calls[c].key == states[i].shared.calls[d].key
    ensures states[i].shared.calls[c].erased.Some?
    ensures states[i].shared.calls[c].inserted < states[i].shared.calls[c].erased.value
            < states[i].shared.calls[d].inserted
  {
    InvThroughout(states, steps, i);
    assert CallOk(states[i], c);
  }

  /** An erasing leader removes its own call, and no other key's entry changes. */
  lemma LeaderErasesOwnCall(states: seq<State>, steps: seq<Step>, i: nat)
    requires IsRun(states, steps) && i < |steps| && steps[i].Erase?
    ensures var s, s', t := states[i], states[i + 1], steps[i].t;
            && t in s.flights && s.flights[t].phase.Published?
            && var f := s.flights[t];
            && f.key in s.shared.table && s.shared.table[f.key] == f.phase.call
            && f.phase.call < |s.shared.calls| && s.shared.calls[f.phase.call].leader == t
            && s'.shared.table == s.shared.table - {f.key}
  {
    InvThroughout(states, steps, i);
    assert Enabled(states[i], steps[i]);
    EraseTakesOwnCall(states[i], steps[i].t);
    assert FlightOk(states[i], steps[i].t);
  }

  /** The loader of this thread was run and answered this value before step i. */
  ghost predicate LoadedBefore(steps: seq<Step>, i: nat, t: Tid, value: Value) {
    exists j :: 0 <= j < i && j < |steps| && steps[j] == RunLoader(t, value)
  }

  ghost predicate ResultsLoaded(s: State, steps: seq<Step>, i: nat) {
    && (forall t | t in s.flights && (s.flights[t].phase.Ran? || s.flights[t].phase.Published?) ::
          LoadedBefore(steps, i, t, s.flights[t].phase.value))
    && (forall c | 0 <= c < |s.shared.calls| && s.shared.calls[c].result.Some? ::
          LoadedBefore(steps, i, s.shared.calls[c].leader, s.shared.calls[c].result.value))
  }

  lemma LoadedLater(steps: seq<Step>, i: nat, t: Tid, value: Value)
    ensures LoadedBefore(steps, i, t, value) ==> LoadedBefore(steps, i + 1, t, value)
  {}

  lemma LoadedNow(steps: seq<Step>, i: nat)
    requires i < |steps| && steps[i].RunLoader?
    ensures LoadedBefore(steps, i + 1, steps[i].t, steps[i].value)
  {
    assert steps[i] == RunLoader(steps[i].t, steps[i].value);
  }

  /** A result that is new after a step is the one its own thread had before, or has just loaded. */
  lemma NewResults(s: State, step: Step)
    requires Inv(s) && Enabled(s, step)
    ensures var s' := Next(s, step);
            && (forall t | t in s'.flights && (s'.flights[t].phase.Ran? || s'.flights[t].phase.Published?) ::
                  || (step == RunLoader(t, s'.flights[t].phase.value))
                  || (t in s.flights && (s.flights[t].phase.Ran? || s.flights[t].phase.Published?)
                      && s.flights[t].phase.value == s'.flights[t].phase.value))
            && (forall c | 0 <= c < |s'.shared.calls| && s'.shared.calls[c].result.Some? ::
                  && c < |s.shared.calls| && s'.shared.calls[c].leader == s.shared.calls[c].leader
                  && (s.shared.calls[c].result == s'.shared.calls[c].result
                      || (step == Publish(s.shared.calls[c].leader) && step.t in s.flights
                          && s.flights[step.t].phase.Ran?
                          && s'.shared.calls[c].result == Some(s.flights[step.t].phase.value))))
  {
    assert step.t in s.flights ==> FlightOk(s, step.t);
    hide CallOk, FlightOk, TableOk, Disjoint;
  }

  lemma StepKeepsResults(s: State, step: Step, steps: seq<Step>, i: nat)
    requires Inv(s) && Enabled(s, step) && ResultsLoaded(s, steps, i) && i < |steps| && steps[i] == step
    ensures ResultsLoaded(Next(s, step), steps, i + 1)
  {
    hide LoadedBefore, Inv, Next, Enabled;
    var s' := Next(s, step);
    NewResults(s, step);
    forall t | t in s'.flights && (s'.flights[t].phase.Ran? || s'.flights[t].phase.Published?)
      ensures LoadedBefore(steps, i + 1, t, s'.flights[t].phase.value)
    {
      LoadedLater(steps, i, t, s'.flights[t].phase.value);
      if step == RunLoader(t, s'.flights[t].phase.value) {
        LoadedNow(steps, i);
      }
    }
    forall c | 0 <= c < |s'.shared.calls| && s'.shared.calls[c].result.Some?
      ensures LoadedBefore(steps, i + 1, s'.shared.calls[c].leader, s'.shared.calls[c].result.value)
    {
      LoadedLater(steps, i, s'.shared.calls[c].leader, s'.shared.calls[c].result.value);
    }
  }

  lemma {:induction false} ResultsLoadedThroughout(states: seq<State>, steps: seq<Step>, i: nat)
    requires IsRun(states, steps) && i < |states|
    ensures ResultsLoaded(states[i], steps, i)
  {
    if i > 0 {
      hide ResultsLoaded, Inv, Next, Enabled;
      ResultsLoadedThroughout(states, steps, i - 1);
      InvThroughout(states, steps, i - 1);
      StepKeepsResults(states[i - 1], steps[i - 1], steps, i - 1);
    }
  }

  /** Every thread that has returned, leader or joiner, returns what its call's leader loaded; the
    * leader works on the same key, and both calls of `Do` were in progress at the moment this
    * one passed its first critical section. */
  lemma ReturnedValueIsLeadersLoad(states: seq<State>, steps: seq<Step>, i: nat, t: Tid)
    requires IsRun(states, steps) && i < |states|
    requires t in states[i].flights && states[i].flights[t].phase.Returned?
    ensures var s := states[i];
            var f := s.flights[t];
            && f.phase.call < |s.shared.calls|
            && var leader := s.shared.calls[f.phase.call].leader;
            && LoadedBefore(steps, i, leader, f.phase.value)
            && leader in s.flights && s.flights[leader].key == f.key
            && f.began <= f.entered < f.phase.ended
            && s.flights[leader].began <= f.entered
            && (s.flights[leader].phase.Returned? ==>
                  f.entered < s.flights[leader].phase.ended && s.flights[leader].phase.value == f.phase.value)
  {
    var s := states[i];
    InvThroughout(states, steps, i);
    ResultsLoadedThroughout(states, steps, i);
    assert FlightOk(s, t);
    var c := s.flights[t].phase.call;
    assert CallOk(s, c);
    assert FlightOk(s, s.shared.calls[c].leader);
  }

  /** Some thread passed the first critical section after a call for the key had been erased. */
  ghost predicate LateEntry(s: State, key: string) {
    exists t, c :: t in s.flights && s.flights[t].key == key && !s.flights[t].phase.Arrived?
                   && 0 <= c < |s.shared.calls| && s.shared.calls[c].key == key
                   && s.shared.calls[c].erased.Some? && s.shared.calls[c].erased.value <= s.flights[t].entered
  }

  ghost predicate TwoCalls(s: State, key: string) {
    exists c, d :: 0 <= c < d < |s.shared.calls| && s.shared.calls[c].key == key && s.shared.calls[d].key == key
  }

  /** A second call for a key is made exactly when some thread enters after one has been erased;
    * threads that enter before that share one call. */
  lemma SecondCallIff(s: State, key: string)
    requires Inv(s)
    ensures TwoCalls(s, key) <==> LateEntry(s, key)
  {
    var calls := s.shared.calls;
    if TwoCalls(s, key) {
      var c, d :| 0 <= c < d < |calls| && calls[c].key == key && calls[d].key == key;
      assert CallOk(s, d) && CallOk(s, c);
      hide CallOk, FlightOk;
      var t := calls[d].leader;
      assert s.flights[t].key == key && calls[c].erased.Some? && calls[c].erased.value <= s.flights[t].entered;
    }
    if LateEntry(s, key) {
      var t, c :| t in s.flights && s.flights[t].key == key && !s.flights[t].phase.Arrived?
                 && 0 <= c < |calls| && calls[c].key == key
                 && calls[c].erased.Some? && calls[c].erased.value <= s.flights[t].entered;
      assert FlightOk(s, t);
      hide CallOk, FlightOk;
      var d := s.flights[t].phase.call;
      assert d != c && calls[d].key == key;
      assert if c < d then 0 <= c < d < |calls| else 0 <= d < c < |calls|;
    }
  }

  // ---- Who has run the loader ----

  /** This thread has led a call and its loader has been run. */
  ghost predicate HasLoaded(s: State, t: Tid) {
    t in s.flights
    && match s.flights[t].phase
       case Ran(_, _) => true
       case Published(_, _) => true
       case Returned(c, _, _) => c < |s.shared.calls| && s.shared.calls[c].leader == t
       case _ => false
  }

  /** A step leaves the flights of other threads alone, and the leaders and keys of calls. */
  lemma StepTouchesOwn(s: State, step: Step)
    requires Enabled(s, step)
    ensures step.t in Next(s, step).flights
    ensures Next(s, step).flights == s.flights[step.t := Next(s, step).flights[step.t]]
    ensures |s.shared.calls| <= |Next(s, step).shared.calls|
    ensures forall c | 0 <= c < |s.shared.calls| ::
              Next(s, step).shared.calls[c].leader == s.shared.calls[c].leader
  {}

  lemma OwnStepLoads(s: State, step: Step)
    requires Enabled(s, step) && (step.t in s.flights ==> FlightOk(s, step.t))
    ensures HasLoaded(Next(s, step), step.t) <==> (HasLoaded(s, step.t) || step.RunLoader?)
    ensures step.RunLoader? ==> !HasLoaded(s, step.t)
  {}

  lemma StepLoads(s: State, step: Step, t: Tid)
    requires Inv(s) && Enabled(s, step)
    ensures HasLoaded(Next(s, step), t) <==> HasLoaded(s, t) || (step.RunLoader? && step.t == t)
    ensures step.RunLoader? && step.t == t ==> !HasLoaded(s, t)
  {
    assert step.t in s.flights ==> FlightOk(s, step.t);
    assert t in s.flights ==> FlightOk(s, t);
    if t == step.t {
      hide *;
      OwnStepLoads(s, step);
    } else {
      hide Next, Enabled, CallOk, TableOk, Disjoint;
      StepTouchesOwn(s, step);
    }
  }

  /** Whoever has run the loader led a call of its own for its key. */
  lemma LoadedLed(s: State, t: Tid)
    requires Inv(s) && HasLoaded(s, t)
    ensures s.flights[t].phase.call < |s.shared.calls|
    ensures var k := s.shared.calls[s.flights[t].phase.call];
            k.leader == t && k.key == s.flights[t].key
  {
    assert FlightOk(s, t);
  }

  /** And whoever led a call is about to run the loader or has done so. */
  lemma LeaderLoads(s: State, c: nat)
    requires Inv(s) && c < |s.shared.calls|
    ensures var t := s.shared.calls[c].leader;
            && t in s.flights && s.flights[t].key == s.shared.calls[c].key
            && !s.flights[t].phase.Arrived? && s.flights[t].phase.call == c
            && (s.flights[t].phase.Leading? || HasLoaded(s, t))
  {
    assert CallOk(s, c);
  }

  // ---- Progress ----

  /** An upper bound on the steps a thread still has to take. */
  function Rank(phase: Phase): nat {
    match phase
    case Arrived => 4
    case Leading(_) => 3
    case Ran(_, _) => 2
    case Published(_, _) => 1
    case Joined(_) => 1
    case Returned(_, _, _) => 0
  }

  ghost function Ranks(flights: map<Tid, Flight>): map<Tid, nat> {
    map t | t in flights :: Rank(flights[t].phase)
  }

  ghost function Remaining(s: State): nat {
    Total(Ranks(s.flights))
  }

  lemma StepDecreases(s: State, step: Step)
    requires Enabled(s, step)
    ensures step.Begin? ==> Remaining(Next(s, step)) == Remaining(s) + 4
    ensures !step.Begin? ==> Remaining(Next(s, step)) < Remaining(s)
  {
    var s', t := Next(s, step), step.t;
    OwnRankFalls(s, step);
    StepTouchesOwn(s, step);
    hide Next, Enabled, Rank, Total;
    assert Ranks(s'.flights) == Ranks(s.flights)[t := Rank(s'.flights[t].phase)];
    TotalUpdate(Ranks(s.flights), t, Rank(s'.flights[t].phase));
  }

  lemma OwnRankFalls(s: State, step: Step)
    requires Enabled(s, step)
    ensures step.t in Next(s, step).flights
    ensures step.Begin? ==> step.t !in s.flights && Rank(Next(s, step).flights[step.t].phase) == 4
    ensures !step.Begin? ==>
              step.t in s.flights && Rank(Next(s, step).flights[step.t].phase) < Rank(s.flights[step.t].phase)
  {
    hide Insert, SetValue, EraseKey;
  }

  predicate Finished(s: State) {
    forall t | t in s.flights :: s.flights[t].phase.Returned?
  }

  /** A thread waiting for an unresolved call has a leader that is still going to resolve it. */
  lemma WaiterHasWorkingLeader(s: State, t: Tid)
    requires Inv(s) && t in s.flights && s.flights[t].phase.Joined?
    ensures s.flights[t].phase.call < |s.shared.calls|
    ensures var k := s.shared.calls[s.flights[t].phase.call];
            k.result.None? ==>
              k.leader in s.flights && (s.flights[k.leader].phase.Leading? || s.flights[k.leader].phase.Ran?)
  {
    assert FlightOk(s, t);
    assert CallOk(s, s.flights[t].phase.call);
  }

  predicate WaitsForLeader(s: State, t: Tid) {
    && t in s.flights && s.flights[t].phase.Joined?
    && s.flights[t].phase.call < |s.shared.calls|
    && s.shared.calls[s.flights[t].phase.call].result.None?
  }

  /** The thread on which this one depends: the leader it waits for, otherwise itself. */
  function Mover(s: State, t: Tid): Tid {
    if WaitsForLeader(s, t) then s.shared.calls[s.flights[t].phase.call].leader else t
  }

  /** A thread that has not returned can step, or the leader it waits for can; if that step is a
    * run of the loader, its answer is free. */
  lemma SomeoneCanStep(s: State, t: Tid, answer: string -> Value) returns (step: Step)
    requires Inv(s) && t in s.flights && !s.flights[t].phase.Returned?
    ensures Enabled(s, step) && !step.Begin? && step.t == Mover(s, t)
    ensures step.RunLoader? ==> step.value == answer(s.flights[step.t].key)
  {
    match s.flights[t].phase
    case Arrived => step := Enter(t);
    case Leading(_) => step := RunLoader(t, answer(s.flights[t].key));
    case Ran(_, _) => step := Publish(t);
    case Published(_, _) => step := Erase(t);
    case Joined(c) =>
      WaiterHasWorkingLeader(s, t);
      hide Inv;
      if s.shared.calls[c].result.Some? {
        step := Wake(t);
      } else {
        var leader := s.shared.calls[c].leader;
        step := if s.flights[leader].phase.Leading? then RunLoader(leader, answer(s.flights[leader].key))
                else Publish(leader);
      }
  }

  /** No reachable state with an unfinished thread is stuck: some thread that has already
    * begun can take its next step. */
  lemma NeverStuck(states: seq<State>, steps: seq<Step>, i: nat) returns (step: Step)
    requires IsRun(states, steps) && i < |states| && !Finished(states[i])
    ensures Enabled(states[i], step) && !step.Begin?
  {
    InvThroughout(states, steps, i);
    var t :| t in states[i].flights && !states[i].flights[t].phase.Returned?;
    step := SomeoneCanStep(states[i], t, key => None);
  }

  function Begins(steps: seq<Step>): nat {
    if steps == [] then 0
    else Begins(steps[..|steps| - 1]) + if steps[|steps| - 1].Begin? then 1 else 0
  }

  /** A run can be at most five times as long as the number of calls that have begun, so with
    * finitely many calls every run comes to an end, and then every call has returned. */
  lemma {:induction false} RunsAreBounded(states: seq<State>, steps: seq<Step>)
    requires IsRun(states, steps)
    ensures |steps| + Remaining(states[|steps|]) <= 5 * Begins(steps)
    decreases |steps|
  {
    if steps == [] {
      assert Ranks(INITIAL.flights) == map[];
    } else {
      var n := |steps| - 1;
      var front := steps[..n];
      assert IsRun(states[..n + 1], front) by {
        forall k | 0 <= k < n
          ensures Enabled(states[k], front[k]) && states[k + 1] == Next(states[k], front[k])
        {
          assert front[k] == steps[k];
        }
      }
      RunsAreBounded(states[..n + 1], front);
      assert states[..n + 1][n] == states[n];
      assert Enabled(states[n], steps[n]);
      StepDecreases(states[n], steps[n]);
    }
  }

  lemma MaximalRunsFinish(states: seq<State>, steps: seq<Step>)
    requires IsRun(states, steps)
    requires forall step | Enabled(states[|steps|], step) :: step.Begin?
    ensures Finished(states[|steps|])
  {
    if !Finished(states[|steps|]) {
      var step := NeverStuck(states, steps, |steps|);
    }
  }

  // ---- Progress of one call, whatever the others do ----

  /** A step that one thread can take stays possible whatever other threads do. */
  lemma EnabledStays(s: State, step: Step, other: Step)
    requires Enabled(s, step) && Enabled(s, other) && step.t != other.t
    ensures Enabled(Next(s, other), step)
  {}

  /** The steps still to be taken, by a thread or by the leader it waits for, until it returns. */
  function ToGo(s: State, t: Tid): nat {
    if Mover(s, t) in s.flights then Rank(s.flights[Mover(s, t)].phase) else 0
  }

  lemma ToGoBounds(s: State, t: Tid)
    requires Inv(s) && t in s.flights
    ensures Mover(s, t) in s.flights && ToGo(s, t) <= 4
    ensures ToGo(s, t) == 0 <==> s.flights[t].phase.Returned?
  {
    if s.flights[t].phase.Joined? {
      WaiterHasWorkingLeader(s, t);
    }
  }

  /** Only its leader resolves a call, and only once. */
  lemma ResultStays(s: State, step: Step, c: nat)
    requires Inv(s) && Enabled(s, step) && c < |s.shared.calls|
    requires s.shared.calls[c].leader != step.t || s.shared.calls[c].result.Some?
    ensures c < |Next(s, step).shared.calls|
    ensures Next(s, step).shared.calls[c].result == s.shared.calls[c].result
  {
    assert step.t in s.flights ==> FlightOk(s, step.t);
    assert CallOk(s, c);
    hide CallOk, FlightOk, TableOk, Disjoint;
  }

  /** A step of another thread than the one it depends on changes nothing for t. */
  lemma OthersDoNotMatter(s: State, t: Tid, step: Step)
    requires Inv(s) && Enabled(s, step) && t in s.flights && step.t != Mover(s, t)
    ensures var s' := Next(s, step);
            t in s'.flights && Mover(s', t) == Mover(s, t) && ToGo(s', t) == ToGo(s, t)
  {
    ToGoBounds(s, t);
    if WaitsForLeader(s, t) {
      WaitersAreIdle(s, t, step);
    }
    hide Inv, Rank, Next, Enabled;
    StepTouchesOwn(s, step);
    if s.flights[t].phase.Joined? {
      WaiterHasWorkingLeader(s, t);
      ResultStays(s, step, s.flights[t].phase.call);
    }
  }

  lemma WaitersAreIdle(s: State, t: Tid, step: Step)
    requires Enabled(s, step) && WaitsForLeader(s, t)
    ensures step.t != t
  {}

  /** A step of the thread it depends on brings t nearer to its return. */
  lemma MoveCounts(s: State, t: Tid, step: Step)
    requires Inv(s) && Enabled(s, step) && t in s.flights && step.t == Mover(s, t)
    ensures t in Next(s, step).flights && ToGo(Next(s, step), t) < ToGo(s, t)
  {
    hide Inv, Next, Enabled, ToGo;
    if WaitsForLeader(s, t) {
      LeaderMoves(s, t, step);
    } else {
      OwnMove(s, t, step);
    }
  }

  lemma LeaderMoves(s: State, t: Tid, step: Step)
    requires Inv(s) && Enabled(s, step) && WaitsForLeader(s, t) && step.t == Mover(s, t)
    ensures t in Next(s, step).flights && ToGo(Next(s, step), t) < ToGo(s, t)
  {
    WaiterHasWorkingLeader(s, t);
    var c := s.flights[t].phase.call;
    assert CallOk(s, c) && FlightOk(s, step.t);
    hide CallOk, FlightOk, TableOk, Disjoint;
  }

  lemma OwnMove(s: State, t: Tid, step: Step)
    requires Inv(s) && Enabled(s, step) && t in s.flights && !WaitsForLeader(s, t) && step.t == t
    ensures t in Next(s, step).flights && ToGo(Next(s, step), t) < ToGo(s, t)
  {
    StepKeepsInv(s, step);
    var s' := Next(s, step);
    if step.Enter? && s.flights[t].key in s.shared.table {
      assert TableOk(s);
      var c := s.shared.table[s.flights[t].key];
      assert CallOk(s, c);
    }
    hide CallOk, FlightOk, TableOk, Disjoint;
  }

  /** How often, between two moments of a run, the thread that t depends on has taken a step. */
  ghost function Moves(states: seq<State>, steps: seq<Step>, i: nat, j: nat, t: Tid): nat
    requires i <= j <= |steps| < |states|
    decreases j
  {
    if i == j then 0
    else Moves(states, steps, i, j - 1, t) + if steps[j - 1].t == Mover(states[j - 1], t) then 1 else 0
  }

  /** Even if calls begin for ever, every single call finishes: after at most four steps of its own
    * thread or of the leader it waits for, whatever others do in between; and as long as it has
    * not returned, that thread can take a step, which no other thread can take away. */
  lemma {:induction false} CallFinishes(states: seq<State>, steps: seq<Step>, i: nat, j: nat, t: Tid)
    requires IsRun(states, steps) && i <= j < |states| && t in states[i].flights
    ensures t in states[j].flights
    ensures Moves(states, steps, i, j, t) + ToGo(states[j], t) <= ToGo(states[i], t) <= 4
    ensures ToGo(states[j], t) == 0 <==> states[j].flights[t].phase.Returned?
    ensures !states[j].flights[t].phase.Returned? ==>
              exists step :: Enabled(states[j], step) && step.t == Mover(states[j], t)
    decreases j
  {
    hide Inv, Next, Enabled, Mover, ToGo;
    InvThroughout(states, steps, i);
    InvThroughout(states, steps, j);
    ToGoBounds(states[i], t);
    if i < j {
      CallFinishes(states, steps, i, j - 1, t);
      InvThroughout(states, steps, j - 1);
      var s, step := states[j - 1], steps[j - 1];
      assert Enabled(s, step) && states[j] == Next(s, step);
      if step.t == Mover(s, t) {
        MoveCounts(s, t, step);
      } else {
        OthersDoNotMatter(s, t, step);
      }
    }
    ToGoBounds(states[j], t);
    if !states[j].flights[t].phase.Returned? {
      var step := SomeoneCanStep(states[j], t, key => None);
    }
  }
}
