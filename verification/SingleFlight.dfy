/** `SingleFlight::Do` as a concurrent protocol. The shared table and the calls in it are
  * changed only inside short critical sections, which are the steps of the system; between
  * two of its steps a thread may be overtaken by any others. A thread is one call of `Do`. */
module SingleFlight {
  import opened Common

  type Tid = nat
  type Value = Option<string>

  /** A call in the table, with what a reader of the proof wants to know about its life. */
  datatype Call = Call(key: string, leader: Tid, inserted: nat, result: Option<Value>, erased: Option<nat>)

  /** What the threads share: `map_` and the calls ever made, by number. */
  datatype Shared = Shared(table: map<string, nat>, calls: seq<Call>)

  const NOTHING_SHARED := Shared(map[], [])

  // ---- The critical sections ----

  /** First section of `Do`: join the call in the table or put a new one there. */
  function Insert(m: Shared, t: Tid, key: string, now: nat): Shared {
    if key in m.table then m
    else Shared(m.table[key := |m.calls|], m.calls + [Call(key, t, now, None, None)])
  }

  /** `prom.set_value`. */
  function SetValue(m: Shared, c: nat, value: Value): Shared {
    if c < |m.calls| then m.(calls := m.calls[c := m.calls[c].(result := Some(value))]) else m
  }

  /** Last section of a leader: erase whatever call the table holds for the key. */
  function EraseKey(m: Shared, key: string, now: nat): Shared {
    if key in m.table && m.table[key] < |m.calls| then
      var c := m.table[key];
      Shared(m.table - {key}, m.calls[c := m.calls[c].(erased := Some(now))])
    else m.(table := m.table - {key})
  }

  /** The shared structures in place, as the source keeps them. */
  class SingleFlight {
    var table: map<string, nat>
    var calls: seq<Call>

    function State(): Shared
      reads this
    {
      Shared(table, calls)
    }

    constructor ()
      ensures State() == NOTHING_SHARED
    {
      table, calls := map[], [];
    }

    method JoinOrLead(t: Tid, key: string, now: nat) returns (c: nat, leads: bool)
      modifies this
      ensures State() == Insert(old(State()), t, key, now)
      ensures leads == (key !in old(table)) && key in table && c == table[key]
    {
      if key in table {
        return table[key], false;
      }
      c := |calls|;
      calls := calls + [Call(key, t, now, None, None)];
      table := table[key := c];
      leads := true;
    }

    method Publish(c: nat, value: Value)
      requires c < |calls| && calls[c].result == None
      modifies this
      ensures State() == SetValue(old(State()), c, value)
    {
      calls := calls[c := calls[c].(result := Some(value))];
    }

    method Erase(key: string, now: nat)
      requires key in table ==> table[key] < |calls|
      modifies this
      ensures State() == EraseKey(old(State()), key, now)
    {
      if key in table {
        var c := table[key];
        calls := calls[c := calls[c].(erased := Some(now))];
      }
      table := table - {key};
    }

    /** `Do` where it need not wait for another thread: with no call for the key in the table it runs
      * the loader once and leaves the table as it was; a call that has already been resolved
      * answers without a load. */
    method Do(t: Tid, key: string, loader: string -> Value, now: nat) returns (value: Value)
      requires key in table ==> table[key] < |calls| && calls[table[key]].result.Some?
      modifies this
      ensures key in old(table) ==> State() == old(State()) && Some(value) == old(calls[table[key]].result)
      ensures key !in old(table) ==>
                && value == loader(key)
                && table == old(table)
                && calls == old(calls) + [Call(key, t, now, Some(loader(key)), Some(now + 1))]
    {
      var c, leads := JoinOrLead(t, key, now);
      if !leads {
        return calls[c].result.value;
      }
      value := loader(key);
      Publish(c, value);
      Erase(key, now + 1);
    }
  }

  // ---- The protocol ----

  datatype Phase =
    | Arrived
    | Joined(call: nat)
    | Leading(call: nat)
    | Ran(call: nat, value: Value)
    | Published(call: nat, value: Value)
    | Returned(call: nat, value: Value, ended: nat)

  /** One call of `Do`: when it began and when it passed its first critical section. */
  datatype Flight = Flight(key: string, began: nat, entered: nat, phase: Phase)

  datatype State = State(clock: nat, flights: map<Tid, Flight>, shared: Shared)

  datatype Step =
    | Begin(t: Tid, key: string)
    | Enter(t: Tid)
    | RunLoader(t: Tid, value: Value)
    | Publish(t: Tid)
    | Erase(t: Tid)
    | Wake(t: Tid)

  const INITIAL := State(0, map[], NOTHING_SHARED)

  predicate Enabled(s: State, step: Step) {
    match step
    case Begin(t, _) => t !in s.flights
    case Enter(t) => t in s.flights && s.flights[t].phase.Arrived?
    case RunLoader(t, _) => t in s.flights && s.flights[t].phase.Leading?
    case Publish(t) => t in s.flights && s.flights[t].phase.Ran?
    case Erase(t) => t in s.flights && s.flights[t].phase.Published?
    case Wake(t) =>
      && t in s.flights && s.flights[t].phase.Joined?
      && s.flights[t].phase.call < |s.shared.calls|
      && s.shared.calls[s.flights[t].phase.call].result.Some?
  }

  function Next(s: State, step: Step): State
    requires Enabled(s, step)
  {
    var now, m := s.clock, s.shared;
    match step
    case Begin(t, key) => State(now + 1, s.flights[t := Flight(key, now, 0, Arrived)], m)
    case Enter(t) =>
      var f := s.flights[t];
      var m' := Insert(m, t, f.key, now);
      var phase := if f.key in m.table then Joined(m.table[f.key]) else Leading(m'.table[f.key]);
      State(now + 1, s.flights[t := f.(entered := now, phase := phase)], m')
    case RunLoader(t, value) =>
      var f := s.flights[t];
      State(now + 1, s.flights[t := f.(phase := Ran(f.phase.call, value))], m)
    case Publish(t) =>
      var f := s.flights[t];
      State(now + 1, s.flights[t := f.(phase := Published(f.phase.call, f.phase.value))],
            SetValue(m, f.phase.call, f.phase.value))
    case Erase(t) =>
      var f := s.flights[t];
      State(now + 1, s.flights[t := f.(phase := Returned(f.phase.call, f.phase.value, now))],
            EraseKey(m, f.key, now))
    case Wake(t) =>
      var f := s.flights[t];
      State(now + 1, s.flights[t := f.(phase := Returned(f.phase.call, m.calls[f.phase.call].result.value, now))], m)
  }

  ghost predicate IsRun(states: seq<State>, steps: seq<Step>) {
    && |states| == |steps| + 1
    && states[0] == INITIAL
    && forall i | 0 <= i < |steps| :: Enabled(states[i], steps[i]) && states[i + 1] == Next(states[i], steps[i])
  }

  // ---- Safety ----

  predicate Leads(phase: Phase) {
    phase.Leading? || phase.Ran? || phase.Published?
  }

  /** A call still in the table is being worked on by its leader, and a call taken out of it was
    * resolved and taken out by its leader on its way out. */
  ghost predicate CallOk(s: State, c: nat)
    requires c < |s.shared.calls|
  {
    var k := s.shared.calls[c];
    && k.leader in s.flights
    && var f := s.flights[k.leader];
    && f.key == k.key && f.began <= f.entered == k.inserted < s.clock
    && !f.phase.Arrived? && f.phase.call == c
    && match k.erased
       case None =>
         && k.key in s.shared.table && s.shared.table[k.key] == c
         && Leads(f.phase)
         && k.result == (if f.phase.Published? then Some(f.phase.value) else None)
       case Some(e) =>
         k.inserted < e < s.clock && k.result.Some? && f.phase == Returned(c, k.result.value, e)
  }

  ghost predicate FlightOk(s: State, t: Tid)
    requires t in s.flights
  {
    var f := s.flights[t];
    && f.began < s.clock
    && (!f.phase.Arrived? ==>
          && f.phase.call < |s.shared.calls|
          && var k := s.shared.calls[f.phase.call];
          && k.key == f.key && f.began <= f.entered < s.clock && k.inserted <= f.entered
          && (k.erased.Some? ==> f.entered < k.erased.value)
          && (Leads(f.phase) ==> k.leader == t && k.erased.None?)
          && (f.phase.Joined? ==> k.leader != t)
          && (f.phase.Returned? ==> k.result == Some(f.phase.value) && f.entered < f.phase.ended < s.clock))
  }

  ghost predicate TableOk(s: State) {
    forall key | key in s.shared.table ::
      var c := s.shared.table[key];
      c < |s.shared.calls| && s.shared.calls[c].key == key && s.shared.calls[c].erased.None?
  }

  /** Calls for one key never overlap: the earlier one has left the table first. */
  ghost predicate Disjoint(s: State) {
    forall c, d | 0 <= c < d < |s.shared.calls| && s.shared.calls[c].key == s.shared.calls[d].key ::
      s.shared.calls[c].erased.Some? && s.shared.calls[c].erased.value < s.shared.calls[d].inserted
  }

  ghost predicate Inv(s: State) {
    && (forall c | 0 <= c < |s.shared.calls| :: CallOk(s, c))
    && (forall t | t in s.flights :: FlightOk(s, t))
    && TableOk(s)
    && Disjoint(s)
  }

  lemma StepKeepsInv(s: State, step: Step)
    requires Inv(s) && Enabled(s, step)
    ensures Inv(Next(s, step))
  {
    match step
    case Begin(t, key) => BeginKeepsInv(s, t, key);
    case Enter(t) => EnterKeepsInv(s, t);
    case RunLoader(t, value) => RunKeepsInv(s, t, value);
    case Publish(t) => PublishKeepsInv(s, t);
    case Erase(t) => EraseKeepsInv(s, t);
    case Wake(t) => WakeKeepsInv(s, t);
  }

  lemma BeginKeepsInv(s: State, t: Tid, key: string)
    requires Inv(s) && Enabled(s, Begin(t, key))
    ensures Inv(Next(s, Begin(t, key)))
  {
    var s' := Next(s, Begin(t, key));
    forall c | 0 <= c < |s'.shared.calls|
      ensures CallOk(s', c)
    {
      assert CallOk(s, c);
    }
    forall u | u in s'.flights
      ensures FlightOk(s', u)
    {
      assert u != t ==> FlightOk(s, u);
    }
  }

  lemma CallTimes(s: State)
    requires Inv(s)
    ensures forall c | 0 <= c < |s.shared.calls| ::
              var k := s.shared.calls[c];
              (k.erased.None? ==> k.key in s.shared.table) && (k.erased.Some? ==> k.erased.value < s.clock)
  {
    forall c | 0 <= c < |s.shared.calls|
      ensures var k := s.shared.calls[c];
              (k.erased.None? ==> k.key in s.shared.table) && (k.erased.Some? ==> k.erased.value < s.clock)
    {
      assert CallOk(s, c);
    }
  }

  lemma EnterKeepsInv(s: State, t: Tid)
    requires Inv(s) && Enabled(s, Enter(t))
    ensures Inv(Next(s, Enter(t)))
  {
    assert FlightOk(s, t);
    if s.flights[t].key in s.shared.table {
      JoinKeepsInv(s, t);
    } else {
      LeadKeepsInv(s, t);
    }
  }

  lemma JoinKeepsInv(s: State, t: Tid)
    requires Inv(s) && Enabled(s, Enter(t)) && s.flights[t].key in s.shared.table
    ensures Inv(Next(s, Enter(t)))
  {
    var f := s.flights[t];
    var c0 := s.shared.table[f.key];
    var s' := Next(s, Enter(t));
    assert s' == State(s.clock + 1, s.flights[t := f.(entered := s.clock, phase := Joined(c0))], s.shared);
    hide Next;
    assert FlightOk(s, t) && CallOk(s, c0);
    forall c | 0 <= c < |s'.shared.calls|
      ensures CallOk(s', c)
    {
      assert CallOk(s, c);
    }
    forall u | u in s'.flights
      ensures FlightOk(s', u)
    {
      assert FlightOk(s, u);
    }
  }

  /** The state after t, with no call for its key in the table, has put in a new one. */
  ghost predicate CallInserted(s: State, s': State, t: Tid)
    requires t in s.flights
  {
    var f, c := s.flights[t], |s.shared.calls|;
    && s'.clock == s.clock + 1
    && s'.flights == s.flights[t := f.(entered := s.clock, phase := Leading(c))]
    && s'.shared.table == s.shared.table[f.key := c]
    && s'.shared.calls == s.shared.calls + [Call(f.key, t, s.clock, None, None)]
  }

  lemma LeadCallOk(s: State, s': State, t: Tid, c: nat)
    requires t in s.flights && s.flights[t].phase.Arrived? && FlightOk(s, t)
    requires s.flights[t].key !in s.shared.table && CallInserted(s, s', t)
    requires c < |s'.shared.calls| && (c < |s.shared.calls| ==> CallOk(s, c))
    ensures CallOk(s', c)
  {}

  lemma LeadFlightOk(s: State, s': State, t: Tid, u: Tid)
    requires t in s.flights && s.flights[t].phase.Arrived? && CallInserted(s, s', t)
    requires u in s.flights && FlightOk(s, u) && FlightOk(s, t)
    ensures FlightOk(s', u)
  {}

  lemma LeadDisjoint(s: State, s': State, t: Tid)
    requires Inv(s) && t in s.flights && s.flights[t].key !in s.shared.table && CallInserted(s, s', t)
    ensures Disjoint(s') && TableOk(s')
  {
    CallTimes(s);
    hide CallOk, FlightOk;
  }

  lemma LeadKeepsInv(s: State, t: Tid)
    requires Inv(s) && Enabled(s, Enter(t)) && s.flights[t].key !in s.shared.table
    ensures Inv(Next(s, Enter(t)))
  {
    var s' := Next(s, Enter(t));
    assert CallInserted(s, s', t);
    assert FlightOk(s, t);
    LeadDisjoint(s, s', t);
    hide CallOk, FlightOk, Disjoint, TableOk, Next;
    forall c | 0 <= c < |s'.shared.calls|
      ensures CallOk(s', c)
    {
      LeadCallOk(s, s', t, c);
    }
    forall u | u in s'.flights
      ensures FlightOk(s', u)
    {
      LeadFlightOk(s, s', t, u);
    }
  }

  lemma RunKeepsInv(s: State, t: Tid, value: Value)
    requires Inv(s) && Enabled(s, RunLoader(t, value))
    ensures Inv(Next(s, RunLoader(t, value)))
  {
    var s' := Next(s, RunLoader(t, value));
    assert FlightOk(s, t);
    forall c | 0 <= c < |s'.shared.calls|
      ensures CallOk(s', c)
    {
      assert CallOk(s, c);
    }
    forall u | u in s'.flights
      ensures FlightOk(s', u)
    {
      assert FlightOk(s, u);
    }
  }

  /** The state after the leader t of call c0 has changed only its own flight and that call. */
  ghost predicate OwnCallChanged(s: State, s': State, t: Tid, phase: Phase, k: Call)
    requires t in s.flights && Leads(s.flights[t].phase) && s.flights[t].phase.call < |s.shared.calls|
  {
    && s'.clock == s.clock + 1
    && s'.flights == s.flights[t := s.flights[t].(phase := phase)]
    && s'.shared.calls == s.shared.calls[s.flights[t].phase.call := k]
  }

  lemma PublishCallOk(s: State, s': State, t: Tid, c: nat)
    requires t in s.flights && s.flights[t].phase.Ran? && FlightOk(s, t)
    requires c < |s.shared.calls| && CallOk(s, c)
    requires var f := s.flights[t];
             var k := s.shared.calls[f.phase.call].(result := Some(f.phase.value));
             OwnCallChanged(s, s', t, Published(f.phase.call, f.phase.value), k)
    requires s'.shared.table == s.shared.table
    ensures CallOk(s', c)
  {}

  lemma PublishFlightOk(s: State, s': State, t: Tid, u: Tid)
    requires t in s.flights && s.flights[t].phase.Ran? && FlightOk(s, t) && CallOk(s, s.flights[t].phase.call)
    requires u in s.flights && FlightOk(s, u)
    requires var f := s.flights[t];
             var k := s.shared.calls[f.phase.call].(result := Some(f.phase.value));
             OwnCallChanged(s, s', t, Published(f.phase.call, f.phase.value), k)
    ensures FlightOk(s', u)
  {}

  lemma PublishKeepsInv(s: State, t: Tid)
    requires Inv(s) && Enabled(s, Publish(t))
    ensures Inv(Next(s, Publish(t)))
  {
    assert FlightOk(s, t) && CallOk(s, s.flights[t].phase.call);
    var s' := Next(s, Publish(t));
    forall c | 0 <= c < |s'.shared.calls|
      ensures CallOk(s', c)
    {
      assert CallOk(s, c);
      PublishCallOk(s, s', t, c);
    }
    forall u | u in s'.flights
      ensures FlightOk(s', u)
    {
      assert FlightOk(s, u);
      PublishFlightOk(s, s', t, u);
    }
    hide CallOk, FlightOk;
  }

  lemma EraseCallOk(s: State, s': State, t: Tid, c: nat)
    requires t in s.flights && s.flights[t].phase.Published? && FlightOk(s, t) && CallOk(s, s.flights[t].phase.call)
    requires c < |s.shared.calls| && CallOk(s, c)
    requires var f := s.flights[t];
             var k := s.shared.calls[f.phase.call].(erased := Some(s.clock));
             OwnCallChanged(s, s', t, Returned(f.phase.call, f.phase.value, s.clock), k)
    requires s'.shared.table == s.shared.table - {s.flights[t].key}
    ensures CallOk(s', c)
  {}

  lemma EraseFlightOk(s: State, s': State, t: Tid, u: Tid)
    requires t in s.flights && s.flights[t].phase.Published? && FlightOk(s, t) && CallOk(s, s.flights[t].phase.call)
    requires u in s.flights && FlightOk(s, u)
    requires var f := s.flights[t];
             var k := s.shared.calls[f.phase.call].(erased := Some(s.clock));
             OwnCallChanged(s, s', t, Returned(f.phase.call, f.phase.value, s.clock), k)
    ensures FlightOk(s', u)
  {}

  lemma EraseKeepsInv(s: State, t: Tid)
    requires Inv(s) && Enabled(s, Erase(t))
    ensures Inv(Next(s, Erase(t)))
  {
    EraseTakesOwnCall(s, t);
    assert FlightOk(s, t) && CallOk(s, s.flights[t].phase.call);
    var s' := Next(s, Erase(t));
    forall c | 0 <= c < |s'.shared.calls|
      ensures CallOk(s', c)
    {
      assert CallOk(s, c);
      EraseCallOk(s, s', t, c);
    }
    forall u | u in s'.flights
      ensures FlightOk(s', u)
    {
      assert FlightOk(s, u);
      EraseFlightOk(s, s', t, u);
    }
    hide CallOk, FlightOk;
    forall c, d | 0 <= c < d < |s'.shared.calls| && s'.shared.calls[c].key == s'.shared.calls[d].key
      ensures s'.shared.calls[c].erased.Some? && s'.shared.calls[c].erased.value < s'.shared.calls[d].inserted
    {
      assert s.shared.calls[c].erased.Some?;
    }
  }

  lemma WakeKeepsInv(s: State, t: Tid)
    requires Inv(s) && Enabled(s, Wake(t))
    ensures Inv(Next(s, Wake(t)))
  {
    var s' := Next(s, Wake(t));
    assert FlightOk(s, t);
    forall c | 0 <= c < |s'.shared.calls|
      ensures CallOk(s', c)
    {
      assert CallOk(s, c);
    }
    forall u | u in s'.flights
      ensures FlightOk(s', u)
    {
      assert FlightOk(s, u);
    }
  }

  /** A leader always finds its own call in the table when it erases, never another's. */
  lemma EraseTakesOwnCall(s: State, t: Tid)
    requires Inv(s) && t in s.flights && Leads(s.flights[t].phase)
    ensures s.flights[t].key in s.shared.table
    ensures s.shared.table[s.flights[t].key] == s.flights[t].phase.call
  {
    assert FlightOk(s, t);
    assert CallOk(s, s.flights[t].phase.call);
  }

  lemma {:induction false} InvThroughout(states: seq<State>, steps: seq<Step>, i: nat)
    requires IsRun(states, steps) && i < |states|
    ensures Inv(states[i])
  {
    if i > 0 {
      InvThroughout(states, steps, i - 1);
      assert Enabled(states[i - 1], steps[i - 1]);
      StepKeepsInv(states[i - 1], steps[i - 1]);
    }
  }
}
