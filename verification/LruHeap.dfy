/** The index behind the cache's eviction: a map from keys to the time of their last use, and the same pairs
    ordered by time. */
module LruHeap {
  import opened Wrappers

  type Key = string
  type Time = nat

  datatype Entry = Entry(time: Time, key: Key)

  /** A multimap from times to keys: equal times in the order of insertion. */
  type Entries = seq<Entry>

  ghost predicate Sorted(heap: Entries) {
    forall i: nat, j: nat :: i < j < |heap| ==> heap[i].time <= heap[j].time
  }

  /** No key twice. */
  ghost predicate Distinct(heap: Entries) {
    forall i: nat, j: nat :: i < j < |heap| ==> heap[i].key != heap[j].key
  }

  /** lower_bound: the first entry not before `t`. */
  function LowerBound(heap: Entries, t: Time): (i: nat)
    ensures i <= |heap| && (forall j: nat :: j < i ==> heap[j].time < t) && (i < |heap| ==> heap[i].time >= t)
  {
    if heap == [] || heap[0].time >= t then 0 else 1 + LowerBound(heap[1..], t)
  }

  /** Where a new entry goes: behind every entry not after it. */
  function UpperBound(heap: Entries, t: Time): (i: nat)
    ensures i <= |heap| && (forall j: nat :: j < i ==> heap[j].time <= t) && (i < |heap| ==> heap[i].time > t)
  {
    if heap == [] || heap[0].time > t then 0 else 1 + UpperBound(heap[1..], t)
  }

  function InsertAt(heap: Entries, i: nat, e: Entry): Entries
    requires i <= |heap|
  {
    heap[..i] + [e] + heap[i..]
  }

  function RemoveAt(heap: Entries, i: nat): Entries
    requires i < |heap|
  {
    heap[..i] + heap[i + 1..]
  }

  function Inserted(heap: Entries, e: Entry): Entries {
    InsertAt(heap, UpperBound(heap, e.time), e)
  }

  function Without(heap: Entries, key: Key): Entries {
    if heap == [] then []
    else if heap[0].key == key then Without(heap[1..], key)
    else [heap[0]] + Without(heap[1..], key)
  }

  /** The map and the ordered pairs say the same. */
  ghost predicate Inverse(keys: map<Key, Time>, heap: Entries) {
    && (forall i: nat :: i < |heap| ==> heap[i].key in keys && keys[heap[i].key] == heap[i].time)
    && forall k :: k in keys ==> Entry(keys[k], k) in heap
  }

  ghost predicate Index(keys: map<Key, Time>, heap: Entries) {
    Sorted(heap) && Distinct(heap) && Inverse(keys, heap)
  }

  datatype Use = Touch(key: Key, time: Time) | Reduce(newSize: nat)

  function Newest<T>(s: seq<T>, newSize: nat): seq<T> {
    if newSize == 0 || |s| <= newSize then s else s[|s| - newSize..]
  }

  /** What a use does to the ordered pairs. */
  function HeapStep(heap: Entries, use: Use): Entries {
    match use
    case Touch(key, time) => Inserted(Without(heap, key), Entry(time, key))
    case Reduce(newSize) => Newest(heap, newSize)
  }

  class Heap {
    var keys: map<Key, Time>
    var heap: Entries

    ghost predicate Valid()
      reads this
    {
      Index(keys, heap)
    }

    constructor ()
      ensures Valid() && keys == map[]
    {
      keys, heap := map[], [];
    }

    /** Touches a key. The old entry is always found, so the check never fails; when the time is not before
        any other, the key becomes the most recently used one and nothing else moves. */
    method AddElement(key: Key, value: Time) returns (found: bool)
      requires Valid()
      modifies this
      ensures Valid() && found
      ensures keys == old(keys)[key := value]
      ensures heap == HeapStep(old(heap), Touch(key, value))
      ensures (forall k :: k in old(keys) ==> old(keys)[k] <= value) ==>
        heap == Without(old(heap), key) + [Entry(value, key)]
    {
      hide Index, Inserted, RemoveAt;
      Touched(keys, heap, key, value);
      if key in keys {
        var lastValue := keys[key];
        var saveIt := LowerBound(heap, lastValue);
        ghost var place := FoundInRange(keys, heap, key);
        while saveIt < |heap| && heap[saveIt].time == lastValue && heap[saveIt].key != key
          invariant saveIt <= place
          decreases |heap| - saveIt
        {
          saveIt := saveIt + 1;
        }
        if saveIt == |heap| || heap[saveIt].time != lastValue { return false; }
        WithoutOne(keys, heap, key, saveIt);
        heap := RemoveAt(heap, saveIt);
      } else {
        WithoutNone(keys, heap, key);
      }
      keys := keys[key := value];
      heap := Inserted(heap, Entry(value, key));
      return true;
    }

    /** Evicts in the order of time, first the entries used longest ago, until at most newSize keys stay. */
    method ReduceToMax(newSize: nat) returns (result: Option<seq<Key>>)
      requires Valid()
      modifies this
      ensures Valid()
      ensures result.None? <==> newSize == 0
      ensures result.None? ==> keys == old(keys)
      ensures heap == HeapStep(old(heap), Reduce(newSize))
      ensures result.Some? ==>
        Evicted(old(keys), old(heap), result.value, keys, heap)
        && |result.value| == (if |old(keys)| <= newSize then 0 else |old(keys)| - newSize)
    {
      hide Index, Evicted;
      if newSize == 0 { return None; }
      SameSize(keys, heap);
      var evicted: seq<Key> := [];
      NothingEvicted(keys, heap);
      while |keys| > newSize
        invariant Index(keys, heap) && Evicted(old(keys), old(heap), evicted, keys, heap)
        invariant |keys| + |evicted| == |old(keys)| && |keys| == |heap|
        invariant |evicted| > 0 ==> |keys| >= newSize
      {
        var it := LowerBound(heap, 0);
        var key := heap[it].key;
        FirstRemoved(keys, heap);
        OneMoreEvicted(old(keys), old(heap), evicted, keys, heap);
        evicted := evicted + [key];
        keys := keys - {key};
        heap := RemoveAt(heap, it);
      }
      EvictedPrefix(old(keys), old(heap), evicted, keys, heap);
      return Some(evicted);
    }
  }

  // ----- Touching -----

  /** The range of the old time contains the entry of the key. */
  lemma FoundInRange(keys: map<Key, Time>, heap: Entries, key: Key) returns (p: nat)
    requires Index(keys, heap) && key in keys
    ensures p < |heap| && heap[p] == Entry(keys[key], key)
    ensures forall i: nat :: i < |heap| && heap[i].key == key ==> i == p
    ensures LowerBound(heap, keys[key]) <= p
    ensures forall i: nat :: LowerBound(heap, keys[key]) <= i <= p ==> heap[i].time == keys[key]
  {
    hide Sorted, Distinct;
    p := PlaceOf(keys, heap, key);
    RangeOfTime(heap, p);
    OnlyPlace(heap, p);
  }

  lemma PlaceOf(keys: map<Key, Time>, heap: Entries, key: Key) returns (p: nat)
    requires Inverse(keys, heap) && key in keys
    ensures p < |heap| && heap[p] == Entry(keys[key], key)
  {
    assert Entry(keys[key], key) in heap;
    p :| p < |heap| && heap[p] == Entry(keys[key], key);
  }

  lemma RangeOfTime(heap: Entries, p: nat)
    requires Sorted(heap) && p < |heap|
    ensures LowerBound(heap, heap[p].time) <= p
    ensures forall i: nat :: LowerBound(heap, heap[p].time) <= i <= p ==> heap[i].time == heap[p].time
  {
    hide LowerBound;
    var low := LowerBound(heap, heap[p].time);
    forall i: nat | low <= i <= p ensures heap[i].time == heap[p].time {
      assert heap[low].time <= heap[i].time <= heap[p].time;
    }
  }

  lemma OnlyPlace(heap: Entries, p: nat)
    requires Distinct(heap) && p < |heap|
    ensures forall i: nat :: i < |heap| && heap[i].key == heap[p].key ==> i == p
  {}

  lemma {:induction false} WithoutAbsent(heap: Entries, key: Key)
    requires forall i: nat :: i < |heap| ==> heap[i].key != key
    ensures Without(heap, key) == heap
  {
    if heap != [] { WithoutAbsent(heap[1..], key); }
  }

  lemma WithoutNone(keys: map<Key, Time>, heap: Entries, key: Key)
    requires Index(keys, heap) && key !in keys
    ensures Without(heap, key) == heap
  {
    WithoutAbsent(heap, key);
  }

  lemma {:induction false} WithoutAt(heap: Entries, key: Key, i: nat)
    requires Distinct(heap) && i < |heap| && heap[i].key == key
    ensures Without(heap, key) == RemoveAt(heap, i)
  {
    if i == 0 {
      WithoutAbsent(heap[1..], key);
    } else {
      WithoutAt(heap[1..], key, i - 1);
      assert RemoveAt(heap, i) == [heap[0]] + RemoveAt(heap[1..], i - 1);
    }
  }

  lemma WithoutOne(keys: map<Key, Time>, heap: Entries, key: Key, i: nat)
    requires Index(keys, heap) && i < |heap| && heap[i].key == key
    ensures Without(heap, key) == RemoveAt(heap, i)
  {
    WithoutAt(heap, key, i);
  }

  lemma RemoveKeepsOrder(heap: Entries, p: nat)
    requires Sorted(heap) && Distinct(heap) && p < |heap|
    ensures Sorted(RemoveAt(heap, p)) && Distinct(RemoveAt(heap, p))
    ensures forall i: nat :: i < |RemoveAt(heap, p)| ==> RemoveAt(heap, p)[i].key != heap[p].key
  {}

  lemma RemoveKeepsInverse(keys: map<Key, Time>, heap: Entries, p: nat)
    requires Inverse(keys, heap) && p < |heap|
    requires forall i: nat :: i < |RemoveAt(heap, p)| ==> RemoveAt(heap, p)[i].key != heap[p].key
    ensures Inverse(keys - {heap[p].key}, RemoveAt(heap, p))
  {
    var rest := RemoveAt(heap, p);
    forall k | k in keys && k != heap[p].key ensures Entry(keys[k], k) in rest {
      var e := Entry(keys[k], k);
      assert e in heap;
      var i: nat :| i < |heap| && heap[i] == e;
      assert rest[if i < p then i else i - 1] == e;
    }
  }

  lemma InsertKeepsOrder(heap: Entries, p: nat, e: Entry)
    requires Sorted(heap) && Distinct(heap) && p <= |heap|
    requires (forall i: nat :: i < p ==> heap[i].time <= e.time) && (p < |heap| ==> heap[p].time > e.time)
    requires forall i: nat :: i < |heap| ==> heap[i].key != e.key
    ensures Sorted(InsertAt(heap, p, e)) && Distinct(InsertAt(heap, p, e))
  {}

  lemma InsertKeepsInverse(keys: map<Key, Time>, heap: Entries, p: nat, e: Entry)
    requires Inverse(keys, heap) && p <= |heap| && e.key !in keys
    ensures Inverse(keys[e.key := e.time], InsertAt(heap, p, e))
  {
    var more := InsertAt(heap, p, e);
    assert more[p] == e;
    forall k | k in keys ensures Entry(keys[k], k) in more {
      var d := Entry(keys[k], k);
      assert d in heap;
      var i: nat :| i < |heap| && heap[i] == d;
      assert more[if i < p then i else i + 1] == d;
    }
  }

  /** Touching a key keeps the two containers inverse. */
  lemma Touched(keys: map<Key, Time>, heap: Entries, key: Key, t: Time)
    requires Index(keys, heap)
    ensures var heap' := Inserted(Without(heap, key), Entry(t, key));
      && Index(keys[key := t], heap')
      && ((forall k :: k in keys ==> keys[k] <= t) ==> heap' == Without(heap, key) + [Entry(t, key)])
  {
    hide Sorted, Distinct, Inverse, RemoveAt, InsertAt, Without;
    var rest := Without(heap, key);
    if key in keys {
      var p := FoundInRange(keys, heap, key);
      WithoutAt(heap, key, p);
      RemoveKeepsOrder(heap, p);
      RemoveKeepsInverse(keys, heap, p);
    } else {
      WithoutNone(keys, heap, key);
      assert keys - {key} == keys;
    }
    NotInRest(keys - {key}, rest, key);
    var p := UpperBound(rest, t);
    InsertKeepsOrder(rest, p, Entry(t, key));
    InsertKeepsInverse(keys - {key}, rest, p, Entry(t, key));
    assert (keys - {key})[key := t] == keys[key := t];
    if forall k :: k in keys ==> keys[k] <= t { LatestGoesLast(keys - {key}, rest, Entry(t, key)); }
  }

  lemma NotInRest(keys: map<Key, Time>, heap: Entries, key: Key)
    requires Inverse(keys, heap) && key !in keys
    ensures forall i: nat :: i < |heap| ==> heap[i].key != key
  {}

  lemma LatestGoesLast(keys: map<Key, Time>, heap: Entries, e: Entry)
    requires Inverse(keys, heap) && forall k :: k in keys ==> keys[k] <= e.time
    ensures Inserted(heap, e) == heap + [e]
  {
    assert UpperBound(heap, e.time) == |heap|;
  }

  // ----- Evicting -----

  /** `evicted` are the keys of the first entries in the order of time; the others stay untouched. */
  ghost predicate Evicted(keys0: map<Key, Time>, heap0: Entries, evicted: seq<Key>, keys: map<Key, Time>,
                          heap: Entries) {
    && |evicted| <= |heap0| && heap == heap0[|evicted|..]
    && (forall i: nat :: i < |evicted| ==> evicted[i] == heap0[i].key)
    && (forall k :: k in keys <==> k in keys0 && k !in evicted)
    && forall k :: k in keys ==> keys[k] == keys0[k]
  }

  lemma NothingEvicted(keys: map<Key, Time>, heap: Entries)
    ensures Evicted(keys, heap, [], keys, heap)
  {}

  lemma EvictedPrefix(keys0: map<Key, Time>, heap0: Entries, evicted: seq<Key>, keys: map<Key, Time>, heap: Entries)
    requires Evicted(keys0, heap0, evicted, keys, heap)
    ensures |evicted| <= |heap0| && heap == heap0[|evicted|..] && heap0[0..] == heap0
  {}

  lemma FirstRemoved(keys: map<Key, Time>, heap: Entries)
    requires Index(keys, heap) && heap != []
    ensures heap[0].key in keys && Index(keys - {heap[0].key}, RemoveAt(heap, 0)) && RemoveAt(heap, 0) == heap[1..]
    ensures |keys - {heap[0].key}| == |keys| - 1
  {
    hide Sorted, Distinct;
    RemoveKeepsOrder(heap, 0);
    RemoveKeepsInverse(keys, heap, 0);
    assert (keys - {heap[0].key}).Keys == keys.Keys - {heap[0].key};
    assert |keys - {heap[0].key}| == |(keys - {heap[0].key}).Keys| && |keys| == |keys.Keys|;
  }

  lemma OneMoreEvicted(keys0: map<Key, Time>, heap0: Entries, evicted: seq<Key>, keys: map<Key, Time>, heap: Entries)
    requires Evicted(keys0, heap0, evicted, keys, heap) && heap != []
    ensures Evicted(keys0, heap0, evicted + [heap[0].key], keys - {heap[0].key}, heap[1..])
  {}

  lemma NoKeyWithoutEntry(keys: map<Key, Time>, heap: Entries)
    requires Index(keys, heap)
    ensures keys.Keys != {} ==> heap != []
  {
    if keys.Keys != {} {
      var k :| k in keys.Keys;
      var p := PlaceOf(keys, heap, k);
    }
  }

  lemma {:induction false} SameSize(keys: map<Key, Time>, heap: Entries)
    requires Index(keys, heap)
    ensures |keys| == |heap|
    decreases |heap|
  {
    if heap == [] {
      NoKeyWithoutEntry(keys, heap);
      assert |keys| == |keys.Keys|;
    } else {
      FirstRemoved(keys, heap);
      SameSize(keys - {heap[0].key}, heap[1..]);
    }
  }

  /** Whatever is evicted was last used no later than anything that stays. */
  lemma EvictedAreOldest(keys0: map<Key, Time>, heap0: Entries, evicted: seq<Key>, keys: map<Key, Time>, heap: Entries)
    requires Index(keys0, heap0) && Index(keys, heap) && Evicted(keys0, heap0, evicted, keys, heap)
    ensures forall e, k :: e in evicted && k in keys ==> e in keys0 && keys0[e] <= keys[k]
  {
    hide Distinct, Sorted;
    forall e, k | e in evicted && k in keys ensures e in keys0 && keys0[e] <= keys[k] {
      var i: nat :| i < |evicted| && evicted[i] == e;
      var p := PlaceOf(keys, heap, k);
      InOrder(heap0, i, |evicted| + p);
    }
  }

  lemma InOrder(heap: Entries, i: nat, j: nat)
    requires Sorted(heap) && i < j < |heap|
    ensures heap[i].time <= heap[j].time
  {}

  // ----- Recency -----

  /** The keys in the order of their last use, oldest first. */
  function KeysOf(heap: Entries): (r: seq<Key>)
    ensures |r| == |heap| && forall i: nat :: i < |heap| ==> r[i] == heap[i].key
  {
    seq(|heap|, i requires 0 <= i < |heap| => heap[i].key)
  }

  function Forget(recency: seq<Key>, key: Key): seq<Key> {
    if recency == [] then []
    else if recency[0] == key then Forget(recency[1..], key)
    else [recency[0]] + Forget(recency[1..], key)
  }

  /** Recency alone: a touched key becomes the newest, a reduction keeps the newest ones. */
  function Recency(uses: seq<Use>): seq<Key> {
    if uses == [] then [] else RecencyStep(Recency(uses[..|uses| - 1]), uses[|uses| - 1])
  }

  function RecencyStep(recency: seq<Key>, use: Use): seq<Key> {
    match use
    case Touch(key, _) => Forget(recency, key) + [key]
    case Reduce(newSize) => Newest(recency, newSize)
  }

  /** The ordered pairs after the same uses, as AddElement and ReduceToMax leave them. */
  function HeapAfter(uses: seq<Use>): Entries {
    if uses == [] then [] else HeapStep(HeapAfter(uses[..|uses| - 1]), uses[|uses| - 1])
  }

  /** Times from a clock that never goes back. */
  ghost predicate Steady(uses: seq<Use>) {
    forall i: nat, j: nat :: i < j < |uses| && uses[i].Touch? && uses[j].Touch? ==> uses[i].time <= uses[j].time
  }

  function Latest(uses: seq<Use>): Time {
    if uses == [] then 0
    else if uses[|uses| - 1].Touch? then uses[|uses| - 1].time
    else Latest(uses[..|uses| - 1])
  }

  lemma {:induction false} LatestIsBounded(uses: seq<Use>, t: Time)
    requires forall i: nat :: i < |uses| && uses[i].Touch? ==> uses[i].time <= t
    ensures Latest(uses) <= t
  {
    if uses != [] { LatestIsBounded(uses[..|uses| - 1], t); }
  }

  lemma SteadyFront(uses: seq<Use>)
    requires Steady(uses) && uses != []
    ensures Steady(uses[..|uses| - 1])
    ensures uses[|uses| - 1].Touch? ==> Latest(uses[..|uses| - 1]) <= uses[|uses| - 1].time
  {
    if uses[|uses| - 1].Touch? { LatestIsBounded(uses[..|uses| - 1], uses[|uses| - 1].time); }
  }

  /** With a steady clock, whatever the sequence of touches and reductions, the order of the entries is the
      order of last use: what a reduction evicts are exactly the least recently used keys. */
  lemma {:induction false} EvictionIsLeastRecentlyUsed(uses: seq<Use>)
    requires Steady(uses)
    ensures KeysOf(HeapAfter(uses)) == Recency(uses)
    ensures forall e :: e in HeapAfter(uses) ==> e.time <= Latest(uses)
  {
    hide Steady, KeysOf, HeapStep, RecencyStep;
    if uses == [] {
      assert KeysOf([]) == [];
    } else {
      var front, last := uses[..|uses| - 1], uses[|uses| - 1];
      SteadyFront(uses);
      EvictionIsLeastRecentlyUsed(front);
      UseKeepsRecency(HeapAfter(front), last, Latest(front));
    }
  }

  lemma UseKeepsRecency(heap: Entries, use: Use, latest: Time)
    requires (forall e :: e in heap ==> e.time <= latest) && (use.Touch? ==> latest <= use.time)
    ensures KeysOf(HeapStep(heap, use)) == RecencyStep(KeysOf(heap), use)
    ensures forall e :: e in HeapStep(heap, use) ==> e.time <= if use.Touch? then use.time else latest
  {
    hide Inserted, KeysOf, Without, Forget;
    match use
    case Touch(key, t) =>
      var rest, e := Without(heap, key), Entry(t, key);
      WithoutIsForget(heap, key);
      NewestGoesLast(rest, e);
      assert KeysOf(rest + [e]) == KeysOf(rest) + [key];
    case Reduce(newSize) =>
      var n := |heap| - |Newest(heap, newSize)|;
      assert KeysOf(heap[n..]) == KeysOf(heap)[n..];
  }

  lemma NewestGoesLast(heap: Entries, e: Entry)
    requires forall i: nat :: i < |heap| ==> heap[i].time <= e.time
    ensures Inserted(heap, e) == heap + [e]
  {
    assert UpperBound(heap, e.time) == |heap|;
  }

  lemma KeysOfMore(e: Entry, heap: Entries)
    ensures KeysOf([e] + heap) == [e.key] + KeysOf(heap)
  {}

  lemma {:induction false} WithoutIsForget(heap: Entries, key: Key)
    ensures KeysOf(Without(heap, key)) == Forget(KeysOf(heap), key)
    ensures forall e :: e in Without(heap, key) ==> e in heap
  {
    hide KeysOf;
    if heap == [] {
      assert KeysOf(heap) == [];
    } else {
      var e, rest := heap[0], heap[1..];
      WithoutIsForget(rest, key);
      assert heap == [e] + rest;
      KeysOfMore(e, rest);
      KeysOfMore(e, Without(rest, key));
      assert ([e.key] + KeysOf(rest))[1..] == KeysOf(rest);
    }
  }
}
