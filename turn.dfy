/** The turn rotation of pig-hole/src/turn.rs: a round-robin index over a fixed player order. */
module PigHoleTurn {
  import opened Wrappers
  import opened Ecs

  /** Where the rotation stands: the turn number and the index of the player on turn. */
  datatype Position = Position(number: nat, index: nat)

  /** One `start_next_players_turn` among `len` players: the next index, wrapping to 0 and starting the next turn. */
  function Next(p: Position, len: nat): (q: Position) {
    if p.index + 1 >= len then Position(p.number + 1, 0) else Position(p.number, p.index + 1)
  }

  /** `k` calls of `start_next_players_turn`. */
  function Advance(p: Position, len: nat, k: nat): (q: Position)
    decreases k
  {
    if k == 0 then p else Advance(Next(p, len), len, k - 1)
  }

  lemma {:induction false} AdvanceCompose(p: Position, len: nat, a: nat, b: nat)
    ensures Advance(p, len, a + b) == Advance(Advance(p, len, a), len, b)
    decreases a
  {
    if a > 0 {
      AdvanceCompose(Next(p, len), len, a - 1, b);
    }
  }

  /** Within a turn the index just counts up. */
  lemma {:induction false} AdvanceWithinTurn(p: Position, len: nat, k: nat)
    requires p.index + k < len
    ensures Advance(p, len, k) == Position(p.number, p.index + k)
    decreases k
  {
    if k > 0 {
      AdvanceWithinTurn(Next(p, len), len, k - 1);
    }
  }

  /** After as many calls as there are players, the same player is on turn again and the turn number has grown by exactly one. */
  lemma FullRound(p: Position, len: nat)
    requires p.index < len
    ensures Advance(p, len, len) == Position(p.number + 1, p.index)
  {
    var toLast := len - 1 - p.index;
    AdvanceWithinTurn(p, len, toLast);
    AdvanceCompose(p, len, toLast, 1);
    var wrapped := Advance(p, len, toLast + 1);
    assert wrapped == Position(p.number + 1, 0);
    AdvanceWithinTurn(wrapped, len, p.index);
    AdvanceCompose(p, len, toLast + 1, p.index);
  }

  /** The index stays within the player order and the turn number never decreases. */
  lemma {:induction false} AdvanceInRange(p: Position, len: nat, k: nat)
    requires p.index < len
    ensures Advance(p, len, k).index < len
    ensures Advance(p, len, k).number >= p.number
    decreases k
  {
    if k > 0 {
      AdvanceInRange(Next(p, len), len, k - 1);
    }
  }

  /** `Turn`: the turn number, the order of the players and whose turn it is. */
  class Turn {
    var number: nat
    var playerOrder: seq<Entity>
    var currentPlayerIndex: nat

    ghost predicate Valid()
      reads this
    {
      number >= 1 && (playerOrder != [] ==> currentPlayerIndex < |playerOrder|)
    }

    function Pos(): Position
      reads this
    {
      Position(number, currentPlayerIndex)
    }

    /** `Turn::new`: turn 1, first player of the given order. */
    constructor (playerOrder: seq<Entity>)
      ensures Valid()
      ensures number == 1 && currentPlayerIndex == 0 && this.playerOrder == playerOrder
    {
      number := 1;
      this.playerOrder := playerOrder;
      currentPlayerIndex := 0;
    }

    /** `Turn::get_min_actions`: the first two turns demand that many actions; turn 0 panics. */
    function GetMinActions(): (r: Option<nat>)
      reads this
      requires number != 0
      ensures r.Some? <==> number <= 2
      ensures r.Some? ==> r.value == number && 1 <= r.value <= 2
    {
      if number <= 2 then Some(number) else None
    }

    /** `Turn::get_current_player`; panics on an empty player order. */
    function GetCurrentPlayer(): (e: Entity)
      reads this
      requires Valid() && playerOrder != []
      ensures e in playerOrder
    {
      playerOrder[currentPlayerIndex]
    }

    /** `Turn::get_turn_number`: turns are counted from 1, so a valid turn never reports 0. */
    function GetTurnNumber(): (n: nat)
      reads this
      ensures Valid() ==> n >= 1
    {
      number
    }

    /** `Turn::start_next_players_turn`: moves to the next player, wrapping to the first one and starting the next turn. */
    method StartNextPlayersTurn() returns (current: Entity)
      requires Valid() && playerOrder != []
      modifies this
      ensures Valid() && playerOrder == old(playerOrder)
      ensures Pos() == Next(old(Pos()), |playerOrder|)
      ensures current == GetCurrentPlayer()
    {
      currentPlayerIndex := currentPlayerIndex + 1;
      if currentPlayerIndex >= |playerOrder| {
        currentPlayerIndex := 0;
        number := number + 1;
      }
      current := GetCurrentPlayer();
    }
  }
}
