/**
 * src/entity/generational_index.rs: an allocator of slot indices that tags each reuse of a
 * slot with a new generation. Freed slots are kept on a stack and handed out again before the
 * entry list grows. Generations are unbounded here.
 */
module GenerationalIndices {
  import opened Sequences

  /** A handle: a slot and the generation it was handed out with. */
  datatype GenerationalIndex = GenerationalIndex(index: nat, generation: nat)

  /** One slot: whether it is handed out, and how often it has been reused. */
  datatype AllocatorEntry = AllocatorEntry(isLive: bool, generation: nat)
  {
    /**
     * `AllocatorEntry::update`: the slot becomes live under the next generation, which is
     * also returned.
     */
    function Update(): (r: (AllocatorEntry, nat))
      ensures r.0.isLive && r.0.generation == generation + 1 && r.1 == r.0.generation
    {
      var entry := this.(isLive := true, generation := generation + 1);
      (entry, entry.generation)
    }
  }

  /**
   * The allocator's invariant as its doc comment intends it: `free` lists each slot that is not
   * live exactly once, and nothing else.
   */
  predicate FreeListExact(entries: seq<AllocatorEntry>, free: seq<nat>) {
    NoDuplicates(free) &&
    (forall k :: 0 <= k < |free| ==> free[k] < |entries| && !entries[free[k]].isLive) &&
    (forall i :: 0 <= i < |entries| && !entries[i].isLive ==> i in free)
  }

  /** Generations of the slots `before` already had are no smaller in `after`. */
  predicate GenerationsKept(before: seq<AllocatorEntry>, after: seq<AllocatorEntry>) {
    |before| <= |after| &&
    forall i :: 0 <= i < |before| ==> before[i].generation <= after[i].generation
  }

  class GenerationalIndexAllocator {
    var entries: seq<AllocatorEntry>
    var free: seq<nat>

    ghost predicate Valid()
      reads this
    {
      FreeListExact(entries, free)
    }

    /** An allocator with no slots. */
    constructor ()
      ensures Valid() && entries == [] && free == []
    {
      entries := [];
      free := [];
    }

    /**
     * `is_live`: whether the handle's slot is handed out. The handle's generation is not
     * consulted. Under the invariant a slot is live exactly when it is not on the free stack.
     */
    function IsLive(index: GenerationalIndex): (live: bool)
      reads this
      requires index.index < |entries|
      ensures Valid() ==> (live <==> index.index !in free)
    {
      entries[index.index].isLive
    }

    /**
     * `allocate`: the most recently freed slot, made live under its next generation; with no
     * free slot, a new live slot of generation 0 at the end. Either way the handle is live.
     */
    method Allocate() returns (index: GenerationalIndex)
      requires Valid()
      modifies this
      ensures Valid()
      ensures old(free) == [] ==>
        index == GenerationalIndex(old(|entries|), 0) &&
        entries == old(entries) + [AllocatorEntry(true, 0)] && free == []
      ensures old(free) != [] ==>
        var i := old(free[|free| - 1]);
        index.index == i && free == old(free[..|free| - 1]) &&
        entries == old(entries[i := AllocatorEntry(true, entries[i].generation + 1)]) &&
        index.generation == entries[i].generation
      ensures index.index < |entries| && IsLive(index)
      ensures GenerationsKept(old(entries), entries)
    {
      if free != [] {
        var i := free[|free| - 1];
        free := free[..|free| - 1];
        var updated := entries[i].Update();
        entries := entries[i := updated.0];
        index := GenerationalIndex(i, updated.1);
        assert FreeListExact(entries, free) by {
          forall j | 0 <= j < |entries| && !entries[j].isLive
            ensures j in free
          {
            assert j in old(free);
            var k :| 0 <= k < |old(free)| && old(free)[k] == j;
            assert k != |old(free)| - 1;
            assert free[k] == j;
          }
        }
      } else {
        index := GenerationalIndex(|entries|, 0);
        entries := entries + [AllocatorEntry(true, 0)];
      }
    }

    /**
     * `deallocate`, with the slot written back as its doc comment intends: a live slot becomes not
     * live, is pushed onto the free stack and `true` is returned; otherwise `false` and nothing
     * changes.
     */
    method Deallocate(index: GenerationalIndex) returns (released: bool)
      requires Valid() && index.index < |entries|
      modifies this
      ensures Valid()
      ensures released <==> old(entries[index.index].isLive)
      ensures released ==>
        entries == old(entries[index.index := entries[index.index].(isLive := false)]) &&
        free == old(free) + [index.index]
      ensures !released ==> entries == old(entries) && free == old(free)
      ensures GenerationsKept(old(entries), entries)
    {
      var entry := entries[index.index];
      if entry.isLive == false {
        released := false;
      } else {
        assert index.index !in free;
        entries := entries[index.index := entry.(isLive := false)];
        free := free + [index.index];
        released := true;
      }
    }

    /**
     * `deallocate` as line 52 writes it: the entry is read into a local, so the flag is cleared
     * on that copy only. A live slot stays live, is still pushed onto the free stack and `true`
     * is returned.
     */
    method DeallocateAsWritten(index: GenerationalIndex) returns (released: bool)
      requires index.index < |entries|
      modifies this`free
      ensures released <==> old(entries[index.index].isLive)
      ensures free == if released then old(free) + [index.index] else old(free)
    {
      var entry := entries[index.index];
      if entry.isLive == false {
        released := false;
      } else {
        entry := entry.(isLive := false);
        free := free + [index.index];
        released := true;
      }
    }
  }

  /**
   * Releasing a live slot as line 52 is written always breaks the invariant: the slot is on the
   * free stack while still live, so `allocate` would hand it out a second time.
   */
  lemma AsWrittenBreaksFreeList(entries: seq<AllocatorEntry>, free: seq<nat>, i: nat)
    requires FreeListExact(entries, free) && i < |entries| && entries[i].isLive
    ensures !FreeListExact(entries, free + [i])
  {
    assert (free + [i])[|free|] == i;
  }

  /** The smallest case: one live slot, released once as written. */
  lemma AsWrittenCounterexample()
    ensures FreeListExact([AllocatorEntry(true, 0)], [])
    ensures !FreeListExact([AllocatorEntry(true, 0)], [0])
  {
    AsWrittenBreaksFreeList([AllocatorEntry(true, 0)], [], 0);
  }
}
