/** The stack property of the LRU cache behind a cache group: over any trace, a smaller cache
  * holds a prefix of what a larger one holds, so the larger one never loads more often. */
module LruInclusion {
  import opened Common
  import opened Lru

  /** The data source of a group. */
  type Getter = string -> Option<string>

  datatype Op = Get(key: string) | Set(key: string, value: string) | Delete(key: string)

  /** Contents of a group's cache and the number of calls its getter has seen. */
  datatype Group = Group(list: seq<Entry>, loads: nat)

  /** One sequential operation on an open group; empty keys are refused. */
  function Apply(g: Group, cap: int, getter: Getter, op: Op): Group {
    if op.key == "" then g
    else
      match op
      case Get(key) =>
        if Find(g.list, key).Some? then Group(Touch(g.list, key), g.loads)
        else if getter(key).None? then Group(g.list, g.loads + 1)
        else Group(Put(g.list, cap, key, getter(key).value), g.loads + 1)
      case Set(key, value) => Group(Put(g.list, cap, key, value), g.loads)
      case Delete(key) => Group(Without(g.list, key), g.loads)
  }

  /** What a Get answers. */
  function Answer(g: Group, getter: Getter, key: string): Option<string> {
    if key == "" then None
    else if Find(g.list, key).Some? then Find(g.list, key)
    else getter(key)
  }

  function Run(cap: int, getter: Getter, ops: seq<Op>): Group {
    if ops == [] then Group([], 0)
    else Apply(Run(cap, getter, ops[..|ops| - 1]), cap, getter, ops[|ops| - 1])
  }

  /** Every Set stores what the getter would have answered. */
  ghost predicate Agrees(getter: Getter, ops: seq<Op>) {
    forall op | op in ops && op.Set? :: getter(op.key) == Some(op.value)
  }

  ghost predicate FromGetter(list: seq<Entry>, getter: Getter) {
    forall e | e in list :: getter(e.key) == Some(e.value)
  }

  // ---- What one operation does, entry by entry ----

  /** A Get of a cached key answers with its entry, whatever the getter would say, moves the entry to
    * the front and loads nothing; any other Get answers with one call of the getter. */
  lemma GetEffect(g: Group, cap: int, getter: Getter, key: string)
    requires DistinctKeys(g.list) && key != ""
    ensures forall i | 0 <= i < |g.list| && g.list[i].key == key ::
              && Answer(g, getter, key) == Some(g.list[i].value)
              && Apply(g, cap, getter, Get(key)) == Group([g.list[i]] + g.list[..i] + g.list[i + 1..], g.loads)
    ensures (forall e | e in g.list :: e.key != key) ==>
              var g' := Apply(g, cap, getter, Get(key));
              && Answer(g, getter, key) == getter(key) && g'.loads == g.loads + 1
              && (getter(key).None? ==> g'.list == g.list)
              && (getter(key).Some? ==> g'.list == Put(g.list, cap, key, getter(key).value))
  {
    hide Put, Touch, Without;
    forall i | 0 <= i < |g.list| && g.list[i].key == key
      ensures Answer(g, getter, key) == Some(g.list[i].value)
      ensures Apply(g, cap, getter, Get(key)) == Group([g.list[i]] + g.list[..i] + g.list[i + 1..], g.loads)
    {
      FindAt(g.list, i);
      TouchMovesToFront(g.list, i);
    }
  }

  /** Set and Delete put in, or take out, their own key and load nothing. */
  lemma SetAndDeleteEffect(g: Group, cap: int, getter: Getter, key: string, value: string)
    requires DistinctKeys(g.list) && key != ""
    ensures Apply(g, cap, getter, Set(key, value)) == Group(Put(g.list, cap, key, value), g.loads)
    ensures var g' := Apply(g, cap, getter, Delete(key));
            IsRest(g.list, key, g'.list) && g'.loads == g.loads
  {
    WithoutIsRest(g.list, key);
  }

  /** A Get right after a Set answers the value set if its entry fits, and the getter's otherwise. */
  lemma GetAfterSet(g: Group, cap: int, getter: Getter, key: string, value: string)
    requires key != ""
    ensures Answer(Apply(g, cap, getter, Set(key, value)), getter, key)
            == if cap == 0 || |key| + |value| <= cap then Some(value) else getter(key)
  {
    hide Put;
    PutHoldsIff(g.list, cap, key, value);
  }

  /** A Get right after a Delete answers what the getter does. */
  lemma GetAfterDelete(g: Group, cap: int, getter: Getter, key: string)
    requires key != ""
    ensures Answer(Apply(g, cap, getter, Delete(key)), getter, key) == getter(key)
  {}

  lemma PutFromGetter(list: seq<Entry>, cap: int, getter: Getter, key: string, value: string)
    requires FromGetter(list, getter) && getter(key) == Some(value)
    ensures FromGetter(Put(list, cap, key, value), getter)
  {
    var all := [Entry(key, value)] + Without(list, key);
    FitIsPrefix(all, cap);
    assert forall e | e in Fit(all, cap) :: e in all;
  }

  lemma {:induction false} RunFromGetter(cap: int, getter: Getter, ops: seq<Op>)
    requires Agrees(getter, ops)
    ensures FromGetter(Run(cap, getter, ops).list, getter)
  {
    if ops != [] {
      var front, op := ops[..|ops| - 1], ops[|ops| - 1];
      RunFromGetter(cap, getter, front);
      var g := Run(cap, getter, front);
      match op
      case Get(key) =>
        if getter(key).Some? {
          PutFromGetter(g.list, cap, getter, key, getter(key).value);
        }
      case Set(key, value) =>
        PutFromGetter(g.list, cap, getter, key, value);
      case Delete(key) =>
    }
  }

  lemma {:induction false} FindInPrefix(a: seq<Entry>, b: seq<Entry>, key: string)
    requires a <= b && Find(a, key).Some?
    ensures Find(b, key) == Find(a, key)
  {
    if a[0].key != key {
      FindInPrefix(a[1..], b[1..], key);
    }
  }

  lemma WithoutPrefix(a: seq<Entry>, b: seq<Entry>, key: string)
    requires a <= b
    ensures Without(a, key) <= Without(b, key)
  {
    assert b == a + b[|a|..];
    WithoutAppend(a, b[|a|..], key);
  }

  /** `large` holds at least as much as `small`, which is limited. */
  predicate AtLeast(large: int, small: int) {
    small != 0 && (large == 0 || small <= large)
  }

  lemma FitMonotone(a: seq<Entry>, b: seq<Entry>, small: int, large: int)
    requires a <= b && AtLeast(large, small)
    ensures Fit(a, small) <= Fit(b, large)
  {
    FitIsLongestPrefix(a, small, []);
    if large != 0 {
      FitIsLongestPrefix(b, large, Fit(a, small));
    }
  }

  // ---- One operation ----

  /** The one situation that separates the caches: only the larger one holds the key, and what the
    * smaller one then puts in front of its list is not what the larger one moves to the front. */
  predicate Separates(small: seq<Entry>, large: seq<Entry>, cap: int, getter: Getter, key: string) {
    && key != "" && !Holds(small, key) && Holds(large, key)
    && match getter(key)
       case None => small != []
       case Some(value) => |key| + |value| <= cap && Find(large, key) != Some(value)
  }

  lemma PutIsEmptyOrHeaded(list: seq<Entry>, cap: int, key: string, value: string)
    requires cap != 0
    ensures Put(list, cap, key, value) <= [Entry(key, value)] + Without(list, key)
    ensures Put(list, cap, key, value) != [] <==> |key| + |value| <= cap
  {
    hide Without, Fit;
    FitIsPrefix([Entry(key, value)] + Without(list, key), cap);
    PutHoldsIff(list, cap, key, value);
  }

  /** Whatever has been stored before, a Get keeps inclusion except in that situation; Set and
    * Delete always keep it. */
  lemma OperationKeepsInclusionIff(s: Group, l: Group, small: int, large: int, getter: Getter, op: Op)
    requires s.list <= l.list && AtLeast(large, small)
    ensures Apply(s, small, getter, op).list <= Apply(l, large, getter, op).list
            <==> !(op.Get? && Separates(s.list, l.list, small, getter, op.key))
  {
    hide Fit, Without, Find, Put, Touch;
    match op
    case Get(key) =>
      if key != "" && Find(s.list, key).None? && Find(l.list, key).Some? {
        OnlyLargerHolds(s, l, small, large, getter, key);
      } else {
        EqualKnowledgeKeepsInclusion(s, l, small, large, getter, op);
      }
    case _ => EqualKnowledgeKeepsInclusion(s, l, small, large, getter, op);
  }

  lemma EqualKnowledgeKeepsInclusion(s: Group, l: Group, small: int, large: int, getter: Getter, op: Op)
    requires s.list <= l.list && AtLeast(large, small)
    requires op.Get? && op.key != "" ==> Find(s.list, op.key).Some? || Find(l.list, op.key).None?
    ensures Apply(s, small, getter, op).list <= Apply(l, large, getter, op).list
  {
    hide Fit, Without, Find;
    var key := op.key;
    WithoutPrefix(s.list, l.list, key);
    match op
    case Get(_) =>
      if Find(s.list, key).Some? {
        FindInPrefix(s.list, l.list, key);
      } else if getter(key).Some? {
        var e := Entry(key, getter(key).value);
        FitMonotone([e] + Without(s.list, key), [e] + Without(l.list, key), small, large);
      }
    case Set(_, value) =>
      var e := Entry(key, value);
      FitMonotone([e] + Without(s.list, key), [e] + Without(l.list, key), small, large);
    case Delete(_) =>
  }

  lemma OnlyLargerHolds(s: Group, l: Group, small: int, large: int, getter: Getter, key: string)
    requires s.list <= l.list && AtLeast(large, small)
    requires key != "" && Find(s.list, key).None? && Find(l.list, key).Some?
    ensures Apply(s, small, getter, Get(key)).list <= Apply(l, large, getter, Get(key)).list
            <==> !Separates(s.list, l.list, small, getter, key)
  {
    hide Fit, Without, Find, Put;
    WithoutPrefix(s.list, l.list, key);
    WithoutAbsent(s.list, key);
    var front := Entry(key, Find(l.list, key).value);
    var l' := [front] + Without(l.list, key);
    match getter(key)
    case None =>
      if s.list != [] {
        assert s.list[0] in s.list;
        assert s.list[0] != front;
      }
    case Some(value) =>
      var e, kept := Entry(key, value), Put(s.list, small, key, value);
      PutIsEmptyOrHeaded(s.list, small, key, value);
      assert kept != [] ==> kept[0] == ([e] + Without(s.list, key))[0] == e;
      assert e == front ==> [e] + Without(s.list, key) <= l';
  }

  lemma StepKeepsInclusion(s: Group, l: Group, small: int, large: int, getter: Getter, op: Op)
    requires s.list <= l.list && l.loads <= s.loads && AtLeast(large, small)
    requires FromGetter(l.list, getter)
    ensures Apply(s, small, getter, op).list <= Apply(l, large, getter, op).list
    ensures Apply(l, large, getter, op).loads <= Apply(s, small, getter, op).loads
  {
    hide Put, Touch, Without, Find;
    OperationKeepsInclusionIff(s, l, small, large, getter, op);
    if Find(s.list, op.key).Some? {
      FindInPrefix(s.list, l.list, op.key);
    }
  }

  // ---- Runs ----

  /** No Belady anomaly: for every trace, the recency list of the smaller cache is a prefix of
    * the larger one's, and the larger one has called the getter at most as often. */
  lemma {:induction false} Inclusion(small: int, large: int, getter: Getter, ops: seq<Op>)
    requires AtLeast(large, small) && Agrees(getter, ops)
    ensures Run(small, getter, ops).list <= Run(large, getter, ops).list
    ensures Run(large, getter, ops).loads <= Run(small, getter, ops).loads
  {
    if ops != [] {
      var front, op := ops[..|ops| - 1], ops[|ops| - 1];
      Inclusion(small, large, getter, front);
      RunFromGetter(large, getter, front);
      StepKeepsInclusion(Run(small, getter, front), Run(large, getter, front), small, large, getter, op);
    }
  }

  /** Answers never depend on the capacity: every Get answers what the getter would. */
  lemma AnswersIgnoreCapacity(cap: int, getter: Getter, ops: seq<Op>, key: string)
    requires Agrees(getter, ops) && key != ""
    ensures Answer(Run(cap, getter, ops), getter, key) == getter(key)
  {
    RunFromGetter(cap, getter, ops);
  }

  /** Inclusion needs the hypothesis on Set: here a Set stores something the getter would not
    * answer, the smaller cache evicts and reloads it, and the two caches disagree. */
  lemma SetCanBreakInclusion()
    ensures var getter: Getter := k => Some("y");
            var ops := [Set("a", "x"), Set("b", "y"), Get("a")];
            !(Run(2, getter, ops).list <= Run(4, getter, ops).list)
  {
    hide Run, Apply, Separates, Find, Holds;
    var getter: Getter := k => Some("y");
    var front, ops := [Set("a", "x"), Set("b", "y")], [Set("a", "x"), Set("b", "y"), Get("a")];
    TwoSets(2, getter);
    TwoSets(4, getter);
    assert ops[..2] == front;
    LastOp(2, getter, ops);
    LastOp(4, getter, ops);
    var s, l := Run(2, getter, front), Run(4, getter, front);
    assert Separates(s.list, l.list, 2, getter, "a") by {
      OnlyLargerHoldsA(getter);
    }
    OperationKeepsInclusionIff(s, l, 2, 4, getter, Get("a"));
  }

  lemma LastOp(cap: int, getter: Getter, ops: seq<Op>)
    requires ops != []
    ensures Run(cap, getter, ops) == Apply(Run(cap, getter, ops[..|ops| - 1]), cap, getter, ops[|ops| - 1])
  {
    hide Apply;
  }

  lemma TwoSets(cap: int, getter: Getter)
    requires cap == 2 || cap == 4
    ensures Run(cap, getter, [Set("a", "x"), Set("b", "y")]).list ==
            if cap == 2 then [Entry("b", "y")] else [Entry("b", "y"), Entry("a", "x")]
  {
    hide Fit, Run;
    var ops := [Set("a", "x"), Set("b", "y")];
    var a, b := Entry("a", "x"), Entry("b", "y");
    OneSet(cap, getter, ops[0]);
    assert ops[..1] == [ops[0]];
    LastOp(cap, getter, ops);
    assert [a][1..] == [] && Without([a][1..], "b") == [];
    assert Without([a], "b") == [a] && [b] + [a] == [b, a];
    FitTwo(cap, b, a);
  }

  lemma FitTwo(cap: int, b: Entry, a: Entry)
    requires Weight(a) == Weight(b) == 2 && (cap == 2 || cap == 4)
    ensures Fit([b, a], cap) == if cap == 2 then [b] else [b, a]
  {
    SizeTwo(b, a);
    assert [b, a][..1] == [b];
  }

  lemma OnlyLargerHoldsA(getter: Getter)
    requires getter("a") == Some("y")
    ensures Separates([Entry("b", "y")], [Entry("b", "y"), Entry("a", "x")], 2, getter, "a")
  {
    var a, b := Entry("a", "x"), Entry("b", "y");
    assert [b, a][1..] == [a] && [b][1..] == [];
    assert [b, a][1] == a;
    assert Find([a], "a") == Some("x");
    assert Find([b, a], "a") == Find([a], "a");
  }

  lemma SizeTwo(a: Entry, b: Entry)
    ensures Size([a]) == Weight(a) && Size([a, b]) == Weight(a) + Weight(b)
  {
    assert [a, b][1..] == [b] && [b][1..] == [] && [a][1..] == [];
  }

  lemma OneSet(cap: int, getter: Getter, op: Op)
    requires op.Set? && op.key != "" && |op.key| + |op.value| <= cap
    ensures Run(cap, getter, [op]).list == [Entry(op.key, op.value)]
  {
    var e := Entry(op.key, op.value);
    assert [op][..0] == [];
    assert Run(cap, getter, []) == Group([], 0);
    assert [e] + [] == [e];
    SizeTwo(e, e);
  }
}
