/** A player's stock of pigs beside the board (pig-hole/src/pig_collection.rs): one entity per pig, resized by a pending signed delta. */
module PigHoleCollection {
  import opened Ecs

  /** The ids `n` consecutive spawns hand out, starting from `start`. */
  function Spawned(start: nat, n: nat): (s: seq<Entity>)
    ensures |s| == n
  {
    seq(n, k requires 0 <= k < n => Entity(start + k))
  }

  /** Freshly spawned pigs are none of the pigs that existed before, and all of them are distinct. */
  lemma SpawnedAreNew(existing: seq<Entity>, start: nat, n: nat)
    requires AllBelow(existing, start)
    ensures forall k :: 0 <= k < n ==> Spawned(start, n)[k] !in existing
    ensures forall j, k :: 0 <= j < k < n ==> Spawned(start, n)[j] != Spawned(start, n)[k]
    ensures AllBelow(existing + Spawned(start, n), start + n)
  {
  }

  /** `PigCollection`: the pending change in size and the pig entities in display order. */
  class PigCollection {
    var modifyBy: int
    var pigs: seq<Entity>

    /**
     * One collection's step of `update_pig_collection`: a positive delta spawns that many
     * pigs after the existing ones, a negative one despawns the last pigs, and the delta is
     * reset. The source's `pig_count - delta.abs()` underflows when more pigs are to go
     * than there are.
     */
    method Update(allocator: EntityAllocator)
      requires modifyBy < 0 ==> -modifyBy <= |pigs|
      modifies this, allocator
      ensures modifyBy == 0
      ensures old(modifyBy) > 0 ==> pigs == old(pigs) + Spawned(old(allocator.next), old(modifyBy))
      ensures old(modifyBy) > 0 ==> allocator.next == old(allocator.next) + old(modifyBy)
      ensures old(modifyBy) <= 0 ==> pigs == old(pigs)[..|old(pigs)| + old(modifyBy)]
      ensures old(modifyBy) <= 0 ==> allocator.next == old(allocator.next)
      ensures AllBelow(old(pigs), old(allocator.next)) ==> AllBelow(pigs, allocator.next)
    {
      var pigCount := |pigs|;
      var delta := modifyBy;
      if delta > 0 {
        var i := 0;
        while i < delta
          invariant 0 <= i <= delta
          invariant allocator.next == old(allocator.next) + i
          invariant pigs == old(pigs) + Spawned(old(allocator.next), i)
          invariant modifyBy == old(modifyBy)
        {
          var pig := allocator.Spawn();
          pigs := pigs + [pig];
          i := i + 1;
        }
        if AllBelow(old(pigs), old(allocator.next)) {
          SpawnedAreNew(old(pigs), old(allocator.next), delta);
        }
      } else if delta < 0 {
        pigs := pigs[..pigCount + delta];
      }
      modifyBy := 0;
    }
  }

  /** How many pigs a pending delta spawns. */
  function SpawnCount(delta: int): (n: nat)
    ensures n == 0 <==> delta <= 0
    ensures delta > 0 ==> n == delta
  {
    if delta > 0 then delta else 0
  }

  /**
   * Id ranges laid end to end, as `UpdatePigCollections` hands them out: collection `k`
   * spawns from `bounds[k]` up to `bounds[k + 1]`, so an earlier collection's ids all lie below
   * a later collection's and no id is spawned twice.
   */
  lemma {:induction false} SpawnRangesDisjoint(bounds: seq<nat>, deltas: seq<int>, j: nat, k: nat)
    requires |bounds| == |deltas| + 1 && j < k < |deltas|
    requires forall m :: 0 <= m < |deltas| ==> bounds[m + 1] == bounds[m] + SpawnCount(deltas[m])
    ensures bounds[j] + SpawnCount(deltas[j]) <= bounds[k]
    ensures forall a, b :: 0 <= a < SpawnCount(deltas[j]) && 0 <= b < SpawnCount(deltas[k]) ==>
      Spawned(bounds[j], SpawnCount(deltas[j]))[a] != Spawned(bounds[k], SpawnCount(deltas[k]))[b]
    decreases k - j
  {
    if j + 1 < k {
      SpawnRangesDisjoint(bounds, deltas, j, k - 1);
    }
  }

  /** `c` after its update from `pigs` and `delta`, its spawned ids running from `start` up to `end`. */
  ghost predicate Updated(c: PigCollection, pigs: seq<Entity>, delta: int, start: nat, end: nat)
    reads c
  {
    && c.modifyBy == 0
    && end == start + SpawnCount(delta)
    && (delta <= 0 ==> -delta <= |pigs| && c.pigs == pigs[..|pigs| + delta])
    && (delta > 0 ==> c.pigs == pigs + Spawned(start, delta))
    && (AllBelow(pigs, start) ==> AllBelow(c.pigs, end))
  }

  /**
   * `update_pig_collection` over every collection, in query order. The collection at `k` spawns
   * its pigs with consecutive ids from `bounds[k]` up to `bounds[k + 1]`: the first collection
   * starts at the allocator's counter, each later one where the one before it stopped, and the
   * allocator ends at the last bound. Ids that were older than the allocator stay older than it.
   */
  method UpdatePigCollections(collections: seq<PigCollection>, allocator: EntityAllocator) returns (ghost bounds: seq<nat>)
    requires forall j, k :: 0 <= j < k < |collections| ==> collections[j] != collections[k]
    requires forall k :: 0 <= k < |collections| ==> collections[k].modifyBy < 0 ==> -collections[k].modifyBy <= |collections[k].pigs|
    modifies collections, allocator
    ensures |bounds| == |collections| + 1
    ensures bounds[0] == old(allocator.next) && allocator.next == bounds[|collections|]
    ensures forall k :: 0 <= k < |collections| ==> collections[k].modifyBy == 0
    ensures forall k :: 0 <= k < |collections| ==> bounds[k + 1] == bounds[k] + SpawnCount(old(collections[k].modifyBy))
    ensures forall k :: 0 <= k < |collections| && old(collections[k].modifyBy) <= 0 ==>
      collections[k].pigs == old(collections[k].pigs)[..|old(collections[k].pigs)| + old(collections[k].modifyBy)]
    ensures forall k :: 0 <= k < |collections| && old(collections[k].modifyBy) > 0 ==>
      collections[k].pigs == old(collections[k].pigs) + Spawned(bounds[k], old(collections[k].modifyBy))
    ensures (forall k :: 0 <= k < |collections| ==> AllBelow(old(collections[k].pigs), old(allocator.next))) ==>
      forall k :: 0 <= k < |collections| ==> AllBelow(collections[k].pigs, allocator.next)
  {
    ghost var fresh0 := forall k :: 0 <= k < |collections| ==> AllBelow(old(collections[k].pigs), old(allocator.next));
    bounds := [allocator.next];
    var i := 0;
    while i < |collections|
      invariant 0 <= i <= |collections|
      invariant |bounds| == i + 1 && bounds[0] == old(allocator.next) && bounds[i] == allocator.next
      invariant old(allocator.next) <= allocator.next
      invariant forall k :: 0 <= k < i ==>
        Updated(collections[k], old(collections[k].pigs), old(collections[k].modifyBy), bounds[k], bounds[k + 1])
      invariant forall k :: i <= k < |collections| ==>
        collections[k].modifyBy == old(collections[k].modifyBy) && collections[k].pigs == old(collections[k].pigs)
      invariant forall k :: 0 <= k <= i ==> old(allocator.next) <= bounds[k] <= allocator.next
    {
      collections[i].Update(allocator);
      bounds := bounds + [allocator.next];
      i := i + 1;
    }
    forall k | 0 <= k < |collections|
      ensures collections[k].modifyBy == 0
      ensures bounds[k + 1] == bounds[k] + SpawnCount(old(collections[k].modifyBy))
      ensures old(collections[k].modifyBy) <= 0 ==>
        collections[k].pigs == old(collections[k].pigs)[..|old(collections[k].pigs)| + old(collections[k].modifyBy)]
      ensures old(collections[k].modifyBy) > 0 ==>
        collections[k].pigs == old(collections[k].pigs) + Spawned(bounds[k], old(collections[k].modifyBy))
    {
      assert Updated(collections[k], old(collections[k].pigs), old(collections[k].modifyBy), bounds[k], bounds[k + 1]);
    }
    if fresh0 {
      forall k | 0 <= k < |collections|
        ensures AllBelow(collections[k].pigs, allocator.next)
      {
        AllBelowRaised(old(collections[k].pigs), old(allocator.next), bounds[k]);
        assert Updated(collections[k], old(collections[k].pigs), old(collections[k].modifyBy), bounds[k], bounds[k + 1]);
        AllBelowRaised(collections[k].pigs, bounds[k + 1], allocator.next);
      }
    }
  }

  /** Grid cell of the n-th pig of a collection: pigs fill two rows, column by column. */
  datatype Cell = Cell(column: nat, row: nat)

  /** The integer part of `get_relative_position_of_nth_pig`. */
  function NthPigCell(n: nat): (cell: Cell)
    ensures 2 * cell.column + cell.row == n && cell.row < 2
  {
    Cell(n / 2, n % 2)
  }
}
