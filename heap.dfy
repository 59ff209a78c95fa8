/** A min priority queue with lazy deletion, keyed by a unique string key.

    Every insertion adds a physical entry (priority, counter, key, slot); the
    live index maps each live key to the counter of its entry. Removing a key
    turns its entry into a tombstone in place; tombstones are discarded when
    extraction or peeking meets them at the front of the queue. The heap array
    is modelled as an arena of entries keyed by their insertion counter: a
    physical pop takes the entry that is least in heap order. */
module Heap {
  import opened Wrappers

  /** A priority is a triple compared lexicographically, as tuples are. */
  type Priority = (int, int, int)

  predicate PriorityLess(a: Priority, b: Priority) {
    a.0 < b.0 || (a.0 == b.0 && (a.1 < b.1 || (a.1 == b.1 && a.2 < b.2)))
  }

  /** Heap order: by priority, and among equal priorities by insertion counter. */
  predicate Before(p: Priority, c: nat, q: Priority, d: nat) {
    PriorityLess(p, q) || (p == q && c < d)
  }

  /** The payload slot of an entry: the item, or the tombstone left by a removal. */
  datatype Slot<T> = Live(item: T) | Tombstone

  /** A physical entry `[priority, counter, key, item]`. */
  datatype Entry<T> = Entry(priority: Priority, count: nat, key: string, slot: Slot<T>)

  /** What the queue holds for a live key. */
  datatype LiveEntry<T> = LiveEntry(priority: Priority, count: nat, item: T)

  /** The two KeyErrors: extraction or peek on an empty queue, removal of an absent key. */
  datatype HeapError = EmptyHeap | KeyNotFound

  /** `k` is the live key whose entry comes first in heap order. */
  ghost predicate IsLeast<T>(live: map<string, LiveEntry<T>>, k: string) {
    && k in live
    && forall j :: j in live && j != k ==>
         Before(live[k].priority, live[k].count, live[j].priority, live[j].count)
  }

  /** `c` is the physical entry that comes first in heap order. */
  ghost predicate IsMinIn<T>(storage: map<nat, Entry<T>>, c: nat) {
    && c in storage
    && forall d :: d in storage && d != c ==> Before(storage[c].priority, c, storage[d].priority, d)
  }

  /** The live index points at live entries carrying its key. */
  ghost predicate Indexed<T>(storage: map<nat, Entry<T>>, finder: map<string, nat>) {
    forall k :: k in finder ==>
      finder[k] in storage && storage[finder[k]].key == k && storage[finder[k]].slot.Live?
  }

  /** The storage invariant: every entry sits under its own counter, below the next counter;
      the index points at live entries; every live entry is the indexed one for its key. */
  ghost predicate Wf<T>(storage: map<nat, Entry<T>>, finder: map<string, nat>, counter: nat) {
    && (forall c :: c in storage ==> storage[c].count == c && c < counter)
    && Indexed(storage, finder)
    && (forall c :: c in storage && storage[c].slot.Live? ==>
          storage[c].key in finder && finder[storage[c].key] == c)
  }

  /** The live set: each indexed key with the priority, counter and item of its entry. */
  ghost function LiveView<T>(storage: map<nat, Entry<T>>, finder: map<string, nat>): (live: map<string, LiveEntry<T>>)
    requires Indexed(storage, finder)
    ensures live.Keys == finder.Keys
  {
    map k | k in finder ::
      LiveEntry(storage[finder[k]].priority, finder[k], storage[finder[k]].slot.item)
  }

  /** The physical entries that do not come before position (p, c) in heap order. */
  ghost function From<T>(storage: map<nat, Entry<T>>, p: Priority, c: nat): map<nat, Entry<T>> {
    map d | d in storage && !Before(storage[d].priority, d, p, c) :: storage[d]
  }

  /** The storage after the live entry of `key`, if any, is marked as a tombstone. */
  ghost function Retire<T>(storage: map<nat, Entry<T>>, finder: map<string, nat>, key: string): map<nat, Entry<T>> {
    if key in finder && finder[key] in storage
    then storage[finder[key] := storage[finder[key]].(slot := Tombstone)]
    else storage
  }

  /** `storage` is `store0` with some entries popped, each a tombstone that comes before
      every entry still stored. */
  ghost predicate Drained<T>(store0: map<nat, Entry<T>>, storage: map<nat, Entry<T>>) {
    && (forall c :: c in storage ==> c in store0 && storage[c] == store0[c])
    && (forall c :: c in store0 && c !in storage ==>
          store0[c].slot.Tombstone? &&
          forall d :: d in storage ==> Before(store0[c].priority, c, storage[d].priority, d))
  }

  /** Under the invariant distinct live keys carry distinct counters. */
  lemma LiveCountsDistinct<T>(storage: map<nat, Entry<T>>, finder: map<string, nat>, counter: nat)
    requires Wf(storage, finder, counter)
    ensures forall j, k :: j in finder && k in finder && j != k ==> finder[j] != finder[k]
  {
    forall j, k | j in finder && k in finder && j != k
      ensures finder[j] != finder[k]
    {
      assert storage[finder[j]].key == j && storage[finder[k]].key == k;
    }
  }

  /** The least live key is unique. */
  lemma LeastIsUnique<T>(live: map<string, LiveEntry<T>>, a: string, b: string)
    requires forall j, k :: j in live && k in live && j != k ==> live[j].count != live[k].count
    requires IsLeast(live, a) && IsLeast(live, b)
    ensures a == b
  {
  }

  /** Among live entries of equal priority the one inserted first comes out first. */
  lemma FifoAmongEqualPriorities<T>(live: map<string, LiveEntry<T>>, a: string, b: string)
    requires a in live && b in live
    requires live[a].priority == live[b].priority && live[a].count < live[b].count
    ensures !IsLeast(live, b)
  {
  }

  /** Updating a key adds one to the size of a map exactly when the key is new. */
  lemma SizeAfterUpdate<K, V>(m: map<K, V>, k: K, v: V)
    ensures |m[k := v]| == |m| + (if k in m then 0 else 1)
  {
  }

  /** Removing a present key takes one from the size of a map. */
  lemma SizeAfterRemoval<K, V>(m: map<K, V>, k: K)
    requires k in m
    ensures |m - {k}| == |m| - 1
  {
  }

  /** Tombstoning the live entry of `key` keeps the invariant and drops exactly `key`. */
  lemma RetireKeepsWf<T>(storage: map<nat, Entry<T>>, finder: map<string, nat>, counter: nat, key: string)
    requires Wf(storage, finder, counter) && key in finder
    ensures Wf(Retire(storage, finder, key), finder - {key}, counter)
    ensures LiveView(Retire(storage, finder, key), finder - {key}) == LiveView(storage, finder) - {key}
  {
    var s', f' := Retire(storage, finder, key), finder - {key};
    var c := finder[key];
    forall k | k in f' ensures f'[k] in s' && s'[f'[k]].key == k && s'[f'[k]].slot.Live? {
      assert finder[k] != c;
    }
    forall d | d in s' && s'[d].slot.Live? ensures s'[d].key in f' && f'[s'[d].key] == d {
      assert d != c;
    }
    assert Wf(s', f', counter);
    var v, v' := LiveView(storage, finder), LiveView(s', f');
    forall k | k in f' ensures v'[k] == v[k] {
      assert finder[k] != c;
    }
    assert v' == v - {key};
  }

  /** Adding a live entry for an unindexed key under the next counter keeps the invariant
      and adds exactly that key. */
  lemma PushKeepsWf<T>(storage: map<nat, Entry<T>>, finder: map<string, nat>, counter: nat,
                       key: string, item: T, priority: Priority)
    requires Wf(storage, finder, counter) && key !in finder
    ensures Wf(storage[counter := Entry(priority, counter, key, Live(item))], finder[key := counter], counter + 1)
    ensures LiveView(storage[counter := Entry(priority, counter, key, Live(item))], finder[key := counter])
         == LiveView(storage, finder)[key := LiveEntry(priority, counter, item)]
  {
    var s', f' := storage[counter := Entry(priority, counter, key, Live(item))], finder[key := counter];
    assert counter !in storage;
    forall k | k in f' ensures f'[k] in s' && s'[f'[k]].key == k && s'[f'[k]].slot.Live? {
      if k != key {
        assert finder[k] in storage;
      }
    }
    assert Wf(s', f', counter + 1);
    var v, v' := LiveView(storage, finder), LiveView(s', f');
    forall k | k in f' ensures v'[k] == v[key := LiveEntry(priority, counter, item)][k] {
      if k != key {
        assert finder[k] in storage;
      }
    }
    assert v' == v[key := LiveEntry(priority, counter, item)];
  }

  /** Popping a tombstone keeps the invariant and the live set. */
  lemma DropTombstoneKeepsWf<T>(storage: map<nat, Entry<T>>, finder: map<string, nat>, counter: nat, c: nat)
    requires Wf(storage, finder, counter) && c in storage && storage[c].slot.Tombstone?
    ensures Wf(storage - {c}, finder, counter)
    ensures LiveView(storage - {c}, finder) == LiveView(storage, finder)
  {
    var s' := storage - {c};
    forall k | k in finder ensures finder[k] in s' {
      assert storage[finder[k]].slot.Live?;
    }
    assert Wf(s', finder, counter);
    var v, v' := LiveView(storage, finder), LiveView(s', finder);
    forall k | k in finder ensures v'[k] == v[k] {
      assert finder[k] != c;
    }
    assert v' == v;
  }

  /** Popping a live entry and unregistering its key keeps the invariant and drops that key. */
  lemma DropLiveKeepsWf<T>(storage: map<nat, Entry<T>>, finder: map<string, nat>, counter: nat, c: nat)
    requires Wf(storage, finder, counter) && c in storage && storage[c].slot.Live?
    ensures Wf(storage - {c}, finder - {storage[c].key}, counter)
    ensures LiveView(storage - {c}, finder - {storage[c].key}) == LiveView(storage, finder) - {storage[c].key}
  {
    var key := storage[c].key;
    var s', f' := storage - {c}, finder - {key};
    forall k | k in f' ensures f'[k] in s' {
      assert storage[finder[k]].key == k;
    }
    assert Wf(s', f', counter);
    var v, v' := LiveView(storage, finder), LiveView(s', f');
    forall k | k in f' ensures v'[k] == v[k] {
      assert storage[finder[k]].key == k;
    }
    assert v' == v - {key};
  }

  /** When the physical minimum is live, its key is the least live key. */
  lemma LiveMinIsLeast<T>(storage: map<nat, Entry<T>>, finder: map<string, nat>, counter: nat, c: nat)
    requires Wf(storage, finder, counter) && IsMinIn(storage, c) && storage[c].slot.Live?
    ensures IsLeast(LiveView(storage, finder), storage[c].key)
    ensures LiveView(storage, finder)[storage[c].key] == LiveEntry(storage[c].priority, c, storage[c].slot.item)
  {
    var live := LiveView(storage, finder);
    var key := storage[c].key;
    forall j | j in live && j != key
      ensures Before(live[key].priority, live[key].count, live[j].priority, live[j].count)
    {
      assert finder[j] in storage && finder[j] != c;
    }
  }

  /** Storage with only leading tombstones popped is everything from its minimum onwards. */
  lemma DrainedIsFrom<T>(store0: map<nat, Entry<T>>, storage: map<nat, Entry<T>>, c: nat)
    requires Drained(store0, storage) && IsMinIn(storage, c)
    requires forall d :: d in storage ==> storage[d].count == d
    ensures storage == From(store0, storage[c].priority, c)
  {
    var p := storage[c].priority;
    var rest := From(store0, p, c);
    forall d | d in store0
      ensures d in storage <==> d in rest
    {
      if d in storage && d != c {
        assert Before(p, c, storage[d].priority, d);
      }
    }
  }

  /** With nothing stored, nothing is indexed. */
  lemma EmptyStorageNothingLive<T>(storage: map<nat, Entry<T>>, finder: map<string, nat>)
    requires Indexed(storage, finder) && storage == map[]
    ensures finder == map[]
  {
    assert forall k :: k !in finder;
  }

  class BinaryHeap<T> {
    /** Physical entries, live or tombstoned, by insertion counter. */
    var storage: map<nat, Entry<T>>
    /** The live index: key to the counter of its live entry. */
    var entryFinder: map<string, nat>
    /** The next insertion counter. */
    var counter: nat

    /** The abstract contents: each live key with its priority, counter and item. */
    ghost var Contents: map<string, LiveEntry<T>>

    ghost predicate Valid()
      reads this
    {
      Wf(storage, entryFinder, counter) && Contents == LiveView(storage, entryFinder)
    }

    constructor ()
      ensures Valid() && Contents == map[]
      ensures storage == map[] && counter == 0
    {
      storage := map[];
      entryFinder := map[];
      counter := 0;
      Contents := map[];
    }

    /** The number of live keys. */
    function Len(): (n: nat)
      reads this
      requires Valid()
      ensures n == |Contents|
    {
      |entryFinder|
    }

    function IsEmpty(): (b: bool)
      reads this
      requires Valid()
      ensures b <==> Contents == map[]
    {
      assert |Contents| == |entryFinder|;
      |entryFinder| == 0
    }

    /** Inserts or updates `key`: a live entry for it is tombstoned first, then a new entry
        with the next counter becomes its live entry. */
    method Insert(key: string, item: T, priority: Priority)
      requires Valid()
      modifies this
      ensures Valid()
      ensures counter == old(counter) + 1
      ensures Contents == old(Contents)[key := LiveEntry(priority, old(counter), item)]
      ensures |Contents| == old(|Contents|) + (if key in old(Contents) then 0 else 1)
      ensures storage == old(Retire(storage, entryFinder, key))[old(counter) := Entry(priority, old(counter), key, Live(item))]
    {
      ghost var live0 := Contents;
      if key in entryFinder {
        var _ := Remove(key);
      }
      Push(key, item, priority);
      SizeAfterUpdate(live0, key, LiveEntry(priority, old(counter), item));
      assert (live0 - {key})[key := LiveEntry(priority, old(counter), item)]
          == live0[key := LiveEntry(priority, old(counter), item)];
    }

    /** Adds the live entry of an unindexed key under the next counter. */
    method Push(key: string, item: T, priority: Priority)
      requires Valid() && key !in entryFinder
      modifies this
      ensures Valid()
      ensures counter == old(counter) + 1
      ensures Contents == old(Contents)[key := LiveEntry(priority, old(counter), item)]
      ensures storage == old(storage)[old(counter) := Entry(priority, old(counter), key, Live(item))]
    {
      PushKeepsWf(storage, entryFinder, counter, key, item, priority);
      storage := storage[counter := Entry(priority, counter, key, Live(item))];
      entryFinder := entryFinder[key := counter];
      Contents := Contents[key := LiveEntry(priority, counter, item)];
      counter := counter + 1;
    }

    /** Unregisters `key` and tombstones its entry; fails when `key` is not live. */
    method Remove(key: string) returns (r: Outcome<HeapError>)
      requires Valid()
      modifies this
      ensures Valid() && counter == old(counter)
      ensures r == if key in old(Contents) then Pass else Fail(KeyNotFound)
      ensures Contents == old(Contents) - {key}
      ensures entryFinder == old(entryFinder) - {key}
      ensures r.Pass? ==> |Contents| == old(|Contents|) - 1
      ensures storage == old(Retire(storage, entryFinder, key))
    {
      if key !in entryFinder {
        assert Contents - {key} == Contents;
        return Fail(KeyNotFound);
      }
      RetireKeepsWf(storage, entryFinder, counter, key);
      SizeAfterRemoval(Contents, key);
      var c := entryFinder[key];
      entryFinder := entryFinder - {key};
      storage := storage[c := storage[c].(slot := Tombstone)];
      Contents := Contents - {key};
      r := Pass;
    }

    /** The counter of the physical entry that is least in heap order. */
    method MinCounter() returns (c: nat)
      requires Valid() && storage != map[]
      ensures IsMinIn(storage, c)
    {
      var rest := storage.Keys;
      c :| c in rest;
      rest := rest - {c};
      while rest != {}
        invariant rest <= storage.Keys && c in storage && c !in rest
        invariant forall d :: d in storage && d != c && d !in rest ==>
                    Before(storage[c].priority, c, storage[d].priority, d)
        decreases |rest|
      {
        var d :| d in rest;
        if Before(storage[d].priority, d, storage[c].priority, c) {
          c := d;
        }
        rest := rest - {d};
      }
    }

    /** Pops physical minima while they are tombstones. Afterwards either the storage is
        empty or its minimum `c` is live; the live set is unchanged. */
    method SkipTombstones() returns (found: bool, c: nat)
      requires Valid()
      modifies this
      ensures Valid() && counter == old(counter) && entryFinder == old(entryFinder)
      ensures Contents == old(Contents)
      ensures Drained(old(storage), storage)
      ensures found ==> IsMinIn(storage, c) && storage[c].slot.Live?
      ensures !found ==> storage == map[] && Contents == map[]
    {
      c := 0;
      while storage != map[]
        invariant Valid() && counter == old(counter) && entryFinder == old(entryFinder)
        invariant Contents == old(Contents)
        invariant Drained(old(storage), storage)
        decreases |storage|
      {
        c := MinCounter();
        if storage[c].slot.Live? {
          return true, c;
        }
        DropTombstoneKeepsWf(storage, entryFinder, counter, c);
        storage := storage - {c};
      }
      EmptyStorageNothingLive(storage, entryFinder);
      found := false;
    }

    /** Pops physical minima, discarding tombstones, until a live entry comes out; that key
        is unregistered and its item returned. Fails, with the storage drained, when nothing
        is live. */
    method ExtractMin() returns (r: Result<T, HeapError>, ghost key: string)
      requires Valid()
      modifies this
      ensures Valid() && counter == old(counter)
      ensures r.Failure? <==> old(Contents) == map[]
      ensures r.Failure? ==> r.error == EmptyHeap && storage == map[] && Contents == map[]
      ensures r.Success? ==> IsLeast(old(Contents), key) && r.value == old(Contents)[key].item
      ensures r.Success? ==> Contents == old(Contents) - {key}
      ensures r.Success? ==>
        storage == From(old(storage), old(Contents)[key].priority, old(Contents)[key].count) - {old(Contents)[key].count}
    {
      var found, c := SkipTombstones();
      if !found {
        return Failure(EmptyHeap), "";
      }
      var e := storage[c];
      LiveMinIsLeast(storage, entryFinder, counter, c);
      DrainedIsFrom(old(storage), storage, c);
      DropLiveKeepsWf(storage, entryFinder, counter, c);
      key := e.key;
      storage := storage - {c};
      entryFinder := entryFinder - {e.key};
      Contents := Contents - {e.key};
      r := Success(e.slot.item);
    }

    /** The priority of the entry ExtractMin would return, leaving the live set as it is;
        only tombstones that come before that entry are discarded. */
    method PeekMinPriority() returns (r: Result<Priority, HeapError>, ghost key: string)
      requires Valid()
      modifies this
      ensures Valid() && counter == old(counter) && Contents == old(Contents)
      ensures r.Failure? <==> Contents == map[]
      ensures r.Failure? ==> r.error == EmptyHeap && storage == map[]
      ensures r.Success? ==> IsLeast(Contents, key) && r.value == Contents[key].priority
      ensures r.Success? ==> storage == From(old(storage), r.value, Contents[key].count)
    {
      var found, c := SkipTombstones();
      if !found {
        return Failure(EmptyHeap), "";
      }
      LiveMinIsLeast(storage, entryFinder, counter, c);
      DrainedIsFrom(old(storage), storage, c);
      key := storage[c].key;
      r := Success(storage[c].priority);
    }
  }
}
