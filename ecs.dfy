/** The game engine's entities, as far as the model needs them: opaque ids, and fresh ones for every spawn. */
module Ecs {
  datatype Entity = Entity(id: nat)

  /** Every id in `entities` was handed out before `next`. */
  predicate AllBelow(entities: seq<Entity>, next: nat) {
    forall k :: 0 <= k < |entities| ==> entities[k].id < next
  }

  /** Ids below one counter are below any later one. */
  lemma AllBelowRaised(entities: seq<Entity>, next: nat, later: nat)
    requires AllBelow(entities, next) && next <= later
    ensures AllBelow(entities, later)
  {
  }

  /** Entity creation (`spawn`): each call hands out an id no earlier call handed out. */
  class EntityAllocator {
    var next: nat

    constructor ()
      ensures next == 0
    {
      next := 0;
    }

    method Spawn() returns (e: Entity)
      modifies this
      ensures e == Entity(old(next)) && next == old(next) + 1
    {
      e := Entity(next);
      next := next + 1;
    }
  }
}
