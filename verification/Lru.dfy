/** The byte-weighted LRU cache. The recency list as a value gives the meaning of each
  * operation; the class keeps the list, the table of list positions and the byte counter the
  * way the source does and is proved to agree with it. */
module Lru {
  import opened Common

  datatype Entry = Entry(key: string, value: string)

  function Weight(e: Entry): nat {
    |e.key| + |e.value|
  }

  function Size(list: seq<Entry>): nat {
    if list == [] then 0 else Weight(list[0]) + Size(list[1..])
  }

  ghost predicate DistinctKeys(list: seq<Entry>) {
    forall i, j | 0 <= i < j < |list| :: list[i].key != list[j].key
  }

  predicate Holds(list: seq<Entry>, key: string) {
    exists e :: e in list && e.key == key
  }

  function Find(list: seq<Entry>, key: string): (r: Option<string>)
    ensures r.Some? ==> Entry(key, r.value) in list
    ensures r.None? <==> !Holds(list, key)
  {
    if list == [] then None
    else if list[0].key == key then Some(list[0].value)
    else
      assert forall e | e in list :: e == list[0] || e in list[1..];
      Find(list[1..], key)
  }

  function Without(list: seq<Entry>, key: string): (r: seq<Entry>)
    ensures forall e :: e in r <==> e in list && e.key != key
  {
    if list == [] then []
    else if list[0].key == key then Without(list[1..], key)
    else [list[0]] + Without(list[1..], key)
  }

  /** What the eviction loop leaves; a capacity of 0 means unlimited. */
  function Fit(list: seq<Entry>, cap: int): seq<Entry> {
    if cap == 0 || Size(list) <= cap || list == [] then list else Fit(list[..|list| - 1], cap)
  }

  /** What the eviction loop throws out, in the order in which it goes. */
  function Evicted(list: seq<Entry>, cap: int): seq<Entry> {
    if cap == 0 || Size(list) <= cap || list == [] then []
    else [list[|list| - 1]] + Evicted(list[..|list| - 1], cap)
  }

  function Touch(list: seq<Entry>, key: string): seq<Entry> {
    match Find(list, key)
    case None => list
    case Some(value) => [Entry(key, value)] + Without(list, key)
  }

  function Put(list: seq<Entry>, cap: int, key: string, value: string): seq<Entry> {
    Fit([Entry(key, value)] + Without(list, key), cap)
  }

  // ---- Facts about lists ----

  lemma {:induction false} SizeAppend(a: seq<Entry>, b: seq<Entry>)
    ensures Size(a + b) == Size(a) + Size(b)
  {
    if a == [] {
      assert a + b == b;
    } else {
      assert (a + b)[1..] == a[1..] + b;
      SizeAppend(a[1..], b);
    }
  }

  lemma SizeOne(e: Entry)
    ensures Size([e]) == Weight(e)
  {
    assert Size([e]) == Weight(e) + Size([]);
  }

  lemma SizeSplit(list: seq<Entry>, i: nat)
    requires i < |list|
    ensures Size(list) == Size(list[..i] + list[i + 1..]) + Weight(list[i])
  {
    var back := list[i..];
    assert list == list[..i] + back;
    assert Size(back) == Weight(list[i]) + Size(list[i + 1..]) by {
      assert back[1..] == list[i + 1..];
    }
    hide Size;
    SizeAppend(list[..i], back);
    SizeAppend(list[..i], list[i + 1..]);
  }

  lemma {:induction false} WithoutAbsent(list: seq<Entry>, key: string)
    requires !Holds(list, key)
    ensures Without(list, key) == list
  {
    if list != [] {
      assert list[0] in list;
      WithoutAbsent(list[1..], key);
    }
  }

  lemma {:induction false} WithoutAppend(a: seq<Entry>, b: seq<Entry>, key: string)
    ensures Without(a + b, key) == Without(a, key) + Without(b, key)
  {
    if a == [] {
      assert a + b == b;
    } else {
      assert (a + b)[1..] == a[1..] + b;
      WithoutAppend(a[1..], b, key);
    }
  }

  lemma WithoutAt(list: seq<Entry>, i: nat)
    requires DistinctKeys(list) && i < |list|
    ensures Without(list, list[i].key) == list[..i] + list[i + 1..]
  {
    var key, back := list[i].key, list[i..];
    assert list == list[..i] + back;
    assert Without(back, key) == Without(list[i + 1..], key) by {
      assert back[1..] == list[i + 1..];
    }
    hide Without;
    WithoutAppend(list[..i], back, key);
    WithoutAbsent(list[..i], key);
    WithoutAbsent(list[i + 1..], key);
  }

  lemma FindAt(list: seq<Entry>, i: nat)
    requires DistinctKeys(list) && i < |list|
    ensures Find(list, list[i].key) == Some(list[i].value)
  {
    var e := Entry(list[i].key, Find(list, list[i].key).value);
    var j :| 0 <= j < |list| && list[j] == e;
    assert j == i;
  }

  lemma {:induction false} FitIsPrefix(list: seq<Entry>, cap: int)
    ensures Fit(list, cap) <= list
  {
    if !(cap == 0 || Size(list) <= cap || list == []) {
      FitIsPrefix(list[..|list| - 1], cap);
    }
  }

  /** With a capacity, eviction stops at the longest prefix that fits: it fits, or nothing is
    * left; and no longer prefix fits. */
  lemma {:induction false} FitIsLongestPrefix(list: seq<Entry>, cap: int, other: seq<Entry>)
    requires cap != 0
    ensures Fit(list, cap) <= list
    ensures Size(Fit(list, cap)) <= cap || Fit(list, cap) == []
    ensures other <= list && Size(other) <= cap ==> other <= Fit(list, cap)
    decreases |list|
  {
    if !(Size(list) <= cap || list == []) {
      var front := list[..|list| - 1];
      FitIsLongestPrefix(front, cap, other);
      if other <= list && Size(other) <= cap {
        assert other != list;
        assert other <= front;
      }
    }
  }

  // ---- What the operations on lists mean, entry by entry ----

  /** Without a capacity or within it. */
  predicate Fits(cap: int, key: string, value: string) {
    cap == 0 || |key| + |value| <= cap
  }

  /** The size of a list is the number of characters in its keys and values. */
  lemma SizeCountsCharacters(e: Entry, list: seq<Entry>)
    ensures Size([]) == 0 && Size([e] + list) == |e.key| + |e.value| + Size(list)
  {
    assert ([e] + list)[1..] == list;
  }

  /** A key is found exactly with the value of its entry. */
  lemma FindIff(list: seq<Entry>, key: string, value: string)
    requires DistinctKeys(list)
    ensures Find(list, key) == Some(value) <==> Entry(key, value) in list
    ensures Find(list, key) == None <==> forall e | e in list :: e.key != key
  {
    if Entry(key, value) in list {
      var i :| 0 <= i < |list| && list[i] == Entry(key, value);
      FindAt(list, i);
    }
  }

  /** A hit moves its entry to the front and leaves the others in their order. */
  lemma TouchMovesToFront(list: seq<Entry>, i: nat)
    requires DistinctKeys(list) && i < |list|
    ensures Touch(list, list[i].key) == [list[i]] + list[..i] + list[i + 1..]
  {
    FindAt(list, i);
    WithoutAt(list, i);
    assert [list[i]] + (list[..i] + list[i + 1..]) == [list[i]] + list[..i] + list[i + 1..];
  }

  /** A miss leaves the list alone. */
  lemma TouchMisses(list: seq<Entry>, key: string)
    requires forall e | e in list :: e.key != key
    ensures Touch(list, key) == list
  {}

  lemma UnlimitedKeepsAll(list: seq<Entry>)
    ensures Fit(list, 0) == list
  {}

  /** The list without its entry for a key, if it has one; nothing else changes place. */
  ghost predicate IsRest(list: seq<Entry>, key: string, others: seq<Entry>) {
    || (others == list && forall e | e in list :: e.key != key)
    || (exists i :: 0 <= i < |list| && list[i].key == key && others == list[..i] + list[i + 1..])
  }

  lemma WithoutIsRest(list: seq<Entry>, key: string)
    requires DistinctKeys(list)
    ensures IsRest(list, key, Without(list, key))
    ensures forall others | IsRest(list, key, others) :: others == Without(list, key)
  {
    forall i | 0 <= i < |list| && list[i].key == key
      ensures Without(list, key) == list[..i] + list[i + 1..]
    {
      WithoutAt(list, i);
    }
    if forall e | e in list :: e.key != key {
      WithoutAbsent(list, key);
    }
  }

  /** What storing leaves: a prefix of the new entry followed by the others in their order; all of
    * it without a capacity, and otherwise the longest that fits. */
  lemma PutIsLongestPrefix(list: seq<Entry>, cap: int, key: string, value: string, others: seq<Entry>, n: nat)
    requires DistinctKeys(list) && IsRest(list, key, others) && n <= |others| + 1
    ensures var kept, all := Put(list, cap, key, value), [Entry(key, value)] + others;
            && kept <= all
            && (cap == 0 ==> kept == all)
            && (cap != 0 ==> kept == [] || Size(kept) <= cap)
            && (cap != 0 && Size(all[..n]) <= cap ==> n <= |kept|)
  {
    hide Fit, Without, Size;
    WithoutIsRest(list, key);
    var all := [Entry(key, value)] + others;
    if cap == 0 {
      UnlimitedKeepsAll(all);
    } else {
      FitIsLongestPrefix(all, cap, all[..n]);
    }
  }

  /** An entry that has just been stored is cached exactly if it fits. */
  lemma PutHoldsIff(list: seq<Entry>, cap: int, key: string, value: string)
    ensures Holds(Put(list, cap, key, value), key) <==> Fits(cap, key, value)
    ensures Fits(cap, key, value) ==> Find(Put(list, cap, key, value), key) == Some(value)
    ensures !Fits(cap, key, value) ==> Put(list, cap, key, value) == []
  {
    hide Without, Fit;
    var e, all := Entry(key, value), [Entry(key, value)] + Without(list, key);
    var kept := Put(list, cap, key, value);
    SizeOne(e);
    if cap == 0 {
      UnlimitedKeepsAll(all);
    } else {
      FitIsLongestPrefix(all, cap, [e]);
      if kept != [] {
        assert kept[0] == e;
        PrefixHasFirst(kept, all);
      }
    }
    if kept != [] {
      assert kept[0] == e;
    }
  }

  function Reversed<T>(s: seq<T>): seq<T> {
    if s == [] then [] else Reversed(s[1..]) + [s[0]]
  }

  /** Nothing is lost: what stays, followed by what went in reverse, is the list; so the oldest
    * entry goes first. */
  lemma {:induction false} EvictionConserves(list: seq<Entry>, cap: int)
    ensures Fit(list, cap) + Reversed(Evicted(list, cap)) == list
  {
    if !(cap == 0 || Size(list) <= cap || list == []) {
      var front, last := list[..|list| - 1], list[|list| - 1];
      EvictionConserves(front, cap);
      assert Evicted(list, cap)[1..] == Evicted(front, cap);
      assert Reversed(Evicted(list, cap)) == Reversed(Evicted(front, cap)) + [last];
      assert list == front + [last];
    }
  }

  /** An entry heavier than the capacity empties the cache. */
  lemma OversizedEntryEmpties(list: seq<Entry>, cap: int, key: string, value: string)
    requires cap != 0 && |key| + |value| > cap
    ensures Put(list, cap, key, value) == []
  {
    var all := [Entry(key, value)] + Without(list, key);
    FitIsLongestPrefix(all, cap, []);
    PrefixHasFirst(Fit(all, cap), all);
  }

  lemma PrefixHasFirst(part: seq<Entry>, all: seq<Entry>)
    requires part <= all && all != []
    ensures part == [] || Size(part) >= Weight(all[0])
  {}

  // ---- The class ----

  /** A list element; the id stands for the iterator that points at it. */
  datatype Node = Node(id: nat, entry: Entry)

  function Entries(nodes: seq<Node>): seq<Entry> {
    seq(|nodes|, i requires 0 <= i < |nodes| => nodes[i].entry)
  }

  ghost predicate HasKey(list: seq<Node>, key: string) {
    exists i :: 0 <= i < |list| && list[i].entry.key == key
  }

  /** The table points every key at its own list element, and at nothing else. */
  ghost predicate Linked(list: seq<Node>, cache: map<string, nat>, nextId: nat) {
    && (forall i | 0 <= i < |list| ::
          list[i].id < nextId && list[i].entry.key in cache && cache[list[i].entry.key] == list[i].id)
    && (forall i, j | 0 <= i < j < |list| :: list[i].id != list[j].id)
    && (forall key | key in cache :: HasKey(list, key))
  }

  lemma LinkedDistinct(list: seq<Node>, cache: map<string, nat>, nextId: nat)
    requires Linked(list, cache, nextId)
    ensures DistinctKeys(Entries(list))
  {
    forall i, j | 0 <= i < j < |list|
      ensures list[i].entry.key != list[j].entry.key
    {
      assert list[i].id != list[j].id;
    }
  }

  /** `list_.erase(it)`. */
  function EraseAt(list: seq<Node>, i: nat): seq<Node>
    requires i < |list|
  {
    list[..i] + list[i + 1..]
  }

  lemma ErasedKeeps(list: seq<Node>, i: nat, key: string)
    requires i < |list| && HasKey(list, key) && key != list[i].entry.key
    ensures HasKey(EraseAt(list, i), key)
  {
    var t := EraseAt(list, i);
    var j :| 0 <= j < |list| && list[j].entry.key == key;
    assert t[if j < i then j else j - 1].entry.key == key;
  }

  lemma EraseLinks(list: seq<Node>, cache: map<string, nat>, nextId: nat, i: nat)
    requires Linked(list, cache, nextId) && i < |list|
    ensures Linked(EraseAt(list, i), cache - {list[i].entry.key}, nextId)
  {
    hide HasKey;
    var t, key := EraseAt(list, i), list[i].entry.key;
    forall j | 0 <= j < |t|
      ensures t[j] == list[if j < i then j else j + 1] && t[j].entry.key != key
    {
      var from := if j < i then j else j + 1;
      assert list[from].id != list[i].id;
    }
    forall k | k in cache - {key}
      ensures HasKey(t, k)
    {
      ErasedKeeps(list, i, k);
    }
  }

  lemma LinkedErase(list: seq<Node>, cache: map<string, nat>, nextId: nat, i: nat)
    requires Linked(list, cache, nextId) && i < |list|
    ensures Linked(EraseAt(list, i), cache - {list[i].entry.key}, nextId)
    ensures Entries(EraseAt(list, i)) == Without(Entries(list), list[i].entry.key)
    ensures Size(Entries(list)) == Size(Entries(EraseAt(list, i))) + Weight(list[i].entry)
  {
    hide Linked, HasKey, Without, Size, DistinctKeys;
    EraseLinks(list, cache, nextId, i);
    LinkedDistinct(list, cache, nextId);
    var entries := Entries(list);
    assert Entries(EraseAt(list, i)) == entries[..i] + entries[i + 1..];
    WithoutAt(entries, i);
    SizeSplit(entries, i);
  }

  lemma LinkedPushFront(list: seq<Node>, cache: map<string, nat>, nextId: nat, e: Entry)
    requires Linked(list, cache, nextId) && e.key !in cache
    ensures Linked([Node(nextId, e)] + list, cache[e.key := nextId], nextId + 1)
    ensures Entries([Node(nextId, e)] + list) == [e] + Entries(list)
  {
    var t := [Node(nextId, e)] + list;
    forall k | k in cache[e.key := nextId]
      ensures HasKey(t, k)
    {
      if k == e.key {
        assert t[0].entry.key == k;
      } else {
        var j :| 0 <= j < |list| && list[j].entry.key == k;
        assert t[j + 1].entry.key == k;
      }
    }
  }

  lemma LinkedKeys(list: seq<Node>, cache: map<string, nat>, nextId: nat, key: string)
    requires Linked(list, cache, nextId)
    ensures key in cache <==> Holds(Entries(list), key)
  {
    if key in cache {
      var i :| 0 <= i < |list| && list[i].entry.key == key;
      assert Entries(list)[i] == list[i].entry;
    }
    if Holds(Entries(list), key) {
      var i :| 0 <= i < |list| && Entries(list)[i].key == key;
      assert list[i].entry.key in cache;
    }
  }

  class LRUCache {
    const maxBytes: int
    const hasCallback: bool
    var bytes: int
    var cache: map<string, nat>
    var list: seq<Node>
    var nextId: nat
    var evicted: seq<Entry>  // the calls made to the eviction callback

    ghost function Contents(): seq<Entry>
      reads this
    {
      Entries(list)
    }

    ghost predicate Valid()
      reads this
    {
      Linked(list, cache, nextId) && bytes == Size(Contents())
    }

    constructor (maxBytes: int, hasCallback: bool)
      ensures Valid() && Contents() == [] && evicted == []
      ensures this.maxBytes == maxBytes && this.hasCallback == hasCallback
    {
      this.maxBytes, this.hasCallback := maxBytes, hasCallback;
      bytes, cache, list, nextId, evicted := 0, map[], [], 0, [];
    }

    /** Follows the iterator that the table holds for a key. */
    method Position(key: string) returns (i: nat)
      requires Valid() && key in cache
      ensures i < |list| && list[i].entry.key == key
    {
      ghost var at :| 0 <= at < |list| && list[at].entry.key == key;
      var id := cache[key];
      i := 0;
      while list[i].id != id
        invariant i <= at
        decreases at - i
      {
        i := i + 1;
      }
    }

    method Get(key: string) returns (value: Option<string>)
      requires Valid()
      modifies this
      ensures Valid() && evicted == old(evicted)
      ensures value == Find(old(Contents()), key)
      ensures Contents() == Touch(old(Contents()), key)
    {
      hide Linked, Size;
      LinkedKeys(list, cache, nextId, key);
      if key !in cache {
        return None;
      }
      var i := Position(key);
      value := Some(list[i].entry.value);
      FoundAt(list, cache, nextId, i);
      LinkedErase(list, cache, nextId, i);
      list := EraseAt(list, i);
      LinkedPushFront(list, cache - {key}, nextId, Entry(key, value.value));
      SizeAppend([Entry(key, value.value)], Entries(list));
      SizeOne(Entry(key, value.value));
      list := [Node(nextId, Entry(key, value.value))] + list;
      assert cache[key := nextId] == (cache - {key})[key := nextId];
      cache := cache[key := nextId];
      nextId := nextId + 1;
    }

    method Set(key: string, value: string)
      requires Valid()
      modifies this
      ensures Valid()
      ensures Contents() == Put(old(Contents()), maxBytes, key, value)
      ensures evicted == old(evicted) + if hasCallback
                                        then Evicted([Entry(key, value)] + Without(old(Contents()), key), maxBytes)
                                        else []
    {
      hide Linked, Size;
      ghost var before := Contents();
      LinkedKeys(list, cache, nextId, key);
      if key in cache {
        var i := Position(key);
        LinkedErase(list, cache, nextId, i);
        bytes := bytes + |value| - |list[i].entry.value|;
        list := EraseAt(list, i);
      } else {
        WithoutAbsent(Contents(), key);
        assert cache - {key} == cache;
        bytes := bytes + |key| + |value|;
      }
      LinkedPushFront(list, cache - {key}, nextId, Entry(key, value));
      SizeAppend([Entry(key, value)], Entries(list));
      SizeOne(Entry(key, value));
      list := [Node(nextId, Entry(key, value))] + list;
      assert cache[key := nextId] == (cache - {key})[key := nextId];
      cache := cache[key := nextId];
      nextId := nextId + 1;
      assert Contents() == [Entry(key, value)] + Without(before, key);
      EvictToCapacity();
    }

    /** The loop at the end of Set. */
    method EvictToCapacity()
      requires Valid()
      modifies this
      ensures Valid()
      ensures Contents() == Fit(old(Contents()), maxBytes)
      ensures evicted == old(evicted) + if hasCallback then Evicted(old(Contents()), maxBytes) else []
    {
      hide Linked, Size;
      while maxBytes != 0 && bytes > maxBytes && list != []
        invariant Valid()
        invariant Fit(Contents(), maxBytes) == Fit(old(Contents()), maxBytes)
        invariant evicted + (if hasCallback then Evicted(Contents(), maxBytes) else [])
                  == old(evicted) + if hasCallback then Evicted(old(Contents()), maxBytes) else []
        decreases |list|
      {
        RemoveOldest();
      }
    }

    method Delete(key: string)
      requires Valid()
      modifies this
      ensures Valid()
      ensures Contents() == Without(old(Contents()), key)
      ensures evicted == old(evicted) + if hasCallback && Find(old(Contents()), key).Some?
                                        then [Entry(key, Find(old(Contents()), key).value)] else []
    {
      hide Linked, Size;
      LinkedKeys(list, cache, nextId, key);
      if key !in cache {
        WithoutAbsent(Contents(), key);
        return;
      }
      var i := Position(key);
      FoundAt(list, cache, nextId, i);
      LinkedErase(list, cache, nextId, i);
      var value := list[i].entry.value;
      list := EraseAt(list, i);
      cache := cache - {key};
      bytes := bytes - (|key| + |value|);
      if hasCallback {
        evicted := evicted + [Entry(key, value)];
      }
    }

    method RemoveOldest()
      requires Valid()
      modifies this
      ensures Valid()
      ensures old(list) == [] ==> Contents() == old(Contents()) && evicted == old(evicted)
      ensures old(list) != [] ==>
                && |list| == |old(list)| - 1
                && Contents() == old(Contents())[..|old(Contents())| - 1]
                && evicted == old(evicted) + if hasCallback then [old(Contents())[|old(Contents())| - 1]] else []
    {
      hide Linked, Size;
      if list == [] {
        return;
      }
      var last := |list| - 1;
      var e := list[last].entry;
      LinkedErase(list, cache, nextId, last);
      LastErased(list, last);
      cache := cache - {e.key};
      list := list[..last];
      bytes := bytes - (|e.key| + |e.value|);
      if hasCallback {
        evicted := evicted + [e];
      }
    }
  }

  lemma FoundAt(list: seq<Node>, cache: map<string, nat>, nextId: nat, i: nat)
    requires Linked(list, cache, nextId) && i < |list|
    ensures Find(Entries(list), list[i].entry.key) == Some(list[i].entry.value)
    ensures Holds(Entries(list), list[i].entry.key)
  {
    LinkedDistinct(list, cache, nextId);
    FindAt(Entries(list), i);
    assert Entries(list)[i] in Entries(list);
  }

  lemma LastErased(list: seq<Node>, last: nat)
    requires |list| == last + 1
    ensures EraseAt(list, last) == list[..last]
    ensures Entries(list[..last]) == Entries(list)[..last] && Entries(list)[last] == list[last].entry
  {}
}
