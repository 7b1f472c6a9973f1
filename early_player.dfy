/**
 * The earlier player logic of src/player.rs: a single rule in which a selecting player
 * places one pig in the outer trough it selects and then throws the dice, with a ghost pig
 * previewing the trough under the cursor.
 *
 * As in the later player module, the board file defining `Pig`, `PigStatus` and
 * `Pig::is_occupied` is not part of this model, and `occupied` stands for `is_occupied`.
 */
module EarlyPlayer {
  import opened Wrappers
  import opened Ints
  import opened Search

  datatype PigStatus = Empty | Occupied | Ghost

  /** A trough: its outer trough number, and a slot standing for the rest of its identity on the board. */
  datatype Trough = Trough(group: u8, slot: nat)

  datatype Pig = Pig(trough: Trough, status: PigStatus)

  datatype PlayerState = Selecting(outerTrough: u8) | ThrowingDice

  datatype Player = Player(state: PlayerState)

  /** The player `spawn_player` creates. */
  const NewPlayer: Player := Player(Selecting(3))

  /** The trough clicked this frame and the trough under the cursor. */
  datatype Actions = Actions(selectedTrough: Option<Pig>, hoveredTrough: Option<Pig>)

  /** `is_valid_for_placement`. */
  predicate IsValidForPlacement(pig: Pig, outerTrough: u8, occupied: PigStatus -> bool) {
    pig.trough.group == outerTrough && !occupied(pig.status)
  }

  /** The first pig equal to `target`, when it is valid for placement in `outerTrough`. */
  function PlacementTarget(pigs: seq<Pig>, target: Pig, outerTrough: u8, occupied: PigStatus -> bool): (r: Option<nat>)
    ensures r.Some? ==> r.value < |pigs| && pigs[r.value] == target && IsValidForPlacement(target, outerTrough, occupied)
    ensures r.None? ==> target !in pigs || !IsValidForPlacement(target, outerTrough, occupied)
    ensures r.Some? ==> forall j :: 0 <= j < r.value ==> pigs[j] != target
    ensures target in pigs && IsValidForPlacement(target, outerTrough, occupied) ==> r.Some?
  {
    var k := FirstIndexOf(pigs, target);
    if k.Some? && IsValidForPlacement(pigs[k.value], outerTrough, occupied) then k else None
  }

  function SetStatusAt(pigs: seq<Pig>, target: Option<nat>, status: PigStatus): (r: seq<Pig>)
    requires target.Some? ==> target.value < |pigs|
    ensures |r| == |pigs|
    ensures forall k :: 0 <= k < |pigs| && target != Some(k) ==> r[k] == pigs[k]
  {
    if target.Some? then pigs[target.value := pigs[target.value].(status := status)] else pigs
  }

  function ClearedGhosts(pigs: seq<Pig>): (r: seq<Pig>)
    ensures |r| == |pigs|
  {
    seq(|pigs|, k requires 0 <= k < |pigs| => if pigs[k].status == Ghost then pigs[k].(status := Empty) else pigs[k])
  }

  function ClearedGhostsExcept(pigs: seq<Pig>, exception: Trough): (r: seq<Pig>)
    ensures |r| == |pigs|
  {
    seq(|pigs|, k requires 0 <= k < |pigs| =>
      if pigs[k].status == Ghost && pigs[k].trough != exception then pigs[k].(status := Empty) else pigs[k])
  }

  /** `clear_ghosts`. */
  method ClearGhosts(pigs: array<Pig>)
    modifies pigs
    ensures pigs[..] == ClearedGhosts(old(pigs[..]))
  {
    var i := 0;
    while i < pigs.Length
      invariant 0 <= i <= pigs.Length
      invariant forall k :: 0 <= k < i ==> pigs[k] == ClearedGhosts(old(pigs[..]))[k]
      invariant forall k :: i <= k < pigs.Length ==> pigs[k] == old(pigs[k])
    {
      if pigs[i].status == Ghost {
        pigs[i] := pigs[i].(status := Empty);
      }
      i := i + 1;
    }
  }

  /** `clear_ghosts_except`. */
  method ClearGhostsExcept(pigs: array<Pig>, exception: Pig)
    modifies pigs
    ensures pigs[..] == ClearedGhostsExcept(old(pigs[..]), exception.trough)
  {
    var i := 0;
    while i < pigs.Length
      invariant 0 <= i <= pigs.Length
      invariant forall k :: 0 <= k < i ==> pigs[k] == ClearedGhostsExcept(old(pigs[..]), exception.trough)[k]
      invariant forall k :: i <= k < pigs.Length ==> pigs[k] == old(pigs[k])
    {
      if pigs[i].status == Ghost && pigs[i].trough != exception.trough {
        pigs[i] := pigs[i].(status := Empty);
      }
      i := i + 1;
    }
  }

  /** The board and the player after `place_pig` has handled one player. */
  datatype Outcome = Outcome(pigs: seq<Pig>, player: Player)

  function PlaceOutcome(pigs: seq<Pig>, actions: Actions, player: Player, occupied: PigStatus -> bool): (o: Outcome)
    ensures |o.pigs| == |pigs|
  {
    match player.state
    case ThrowingDice => Outcome(pigs, player)
    case Selecting(n) =>
      if actions.selectedTrough.Some? then
        var target := PlacementTarget(pigs, actions.selectedTrough.value, n, occupied);
        if target.Some? then Outcome(ClearedGhosts(SetStatusAt(pigs, target, Occupied)), Player(ThrowingDice))
        else Outcome(pigs, player)
      else if actions.hoveredTrough.Some? then
        var hovered := actions.hoveredTrough.value;
        Outcome(ClearedGhostsExcept(SetStatusAt(pigs, PlacementTarget(pigs, hovered, n, occupied), Ghost), hovered.trough), player)
      else Outcome(ClearedGhosts(pigs), player)
  }

  /**
   * What one player's handling promises: a player throwing the dice changes nothing. A valid
   * selection occupies that pig, moves the player on to the dice and empties every ghost. A
   * hover makes the hovered pig a ghost when it is valid and empties the ghosts of every other
   * trough. With neither, every ghost is emptied. In each case every other pig is unchanged.
   */
  lemma PlaceOutcomeEffects(pigs: seq<Pig>, actions: Actions, player: Player, occupied: PigStatus -> bool)
    ensures var o := PlaceOutcome(pigs, actions, player, occupied);
      && (player.state == ThrowingDice ==> o == Outcome(pigs, player))
      && (player.state.Selecting? && actions.selectedTrough.Some? ==>
            var target := PlacementTarget(pigs, actions.selectedTrough.value, player.state.outerTrough, occupied);
            if target.Some? then
              && o.player == Player(ThrowingDice)
              && o.pigs[target.value] == pigs[target.value].(status := Occupied)
              && (forall k :: 0 <= k < |pigs| && k != target.value && pigs[k].status == Ghost ==>
                    o.pigs[k] == pigs[k].(status := Empty))
              && (forall k :: 0 <= k < |pigs| && k != target.value && pigs[k].status != Ghost ==> o.pigs[k] == pigs[k])
            else o == Outcome(pigs, player))
      && (player.state.Selecting? && actions.selectedTrough.None? && actions.hoveredTrough.Some? ==>
            var hovered := actions.hoveredTrough.value;
            var target := PlacementTarget(pigs, hovered, player.state.outerTrough, occupied);
            && o.player == player
            && (target.Some? ==> o.pigs[target.value] == pigs[target.value].(status := Ghost))
            && (forall k :: 0 <= k < |pigs| && target != Some(k) && pigs[k].status == Ghost && pigs[k].trough != hovered.trough ==>
                  o.pigs[k] == pigs[k].(status := Empty))
            && (forall k :: 0 <= k < |pigs| && target != Some(k) && (pigs[k].status != Ghost || pigs[k].trough == hovered.trough) ==>
                  o.pigs[k] == pigs[k]))
      && (player.state.Selecting? && actions.selectedTrough.None? && actions.hoveredTrough.None? ==>
            && o.player == player
            && (forall k :: 0 <= k < |pigs| && pigs[k].status == Ghost ==> o.pigs[k] == pigs[k].(status := Empty))
            && (forall k :: 0 <= k < |pigs| && pigs[k].status != Ghost ==> o.pigs[k] == pigs[k]))
  {
  }

  /**
   * A selecting player moves on to the dice exactly when the trough it clicked is on the board
   * and valid for placement: in its outer trough and not occupied.
   */
  lemma SelectionMovesOn(pigs: seq<Pig>, actions: Actions, player: Player, occupied: PigStatus -> bool)
    requires player.state.Selecting?
    ensures PlaceOutcome(pigs, actions, player, occupied).player.state == ThrowingDice <==>
      actions.selectedTrough.Some? && actions.selectedTrough.value in pigs
      && IsValidForPlacement(actions.selectedTrough.value, player.state.outerTrough, occupied)
  {
  }

  /** A newly spawned player places its first pig in outer trough 3, and in no other. */
  lemma NewPlayerPlacesInTroughThree(pigs: seq<Pig>, actions: Actions, occupied: PigStatus -> bool)
    ensures PlaceOutcome(pigs, actions, NewPlayer, occupied).player.state == ThrowingDice ==>
      && actions.selectedTrough.Some? && actions.selectedTrough.value in pigs
      && actions.selectedTrough.value.trough.group == 3
  {
    SelectionMovesOn(pigs, actions, NewPlayer, occupied);
  }

  /** `place_pig` for the player at `i`. */
  method PlaceForPlayer(pigs: array<Pig>, actions: Actions, players: array<Player>, i: nat, occupied: PigStatus -> bool)
    requires i < players.Length
    modifies pigs, players
    ensures var o := PlaceOutcome(old(pigs[..]), actions, old(players[i]), occupied);
      pigs[..] == o.pigs && players[..] == old(players[..])[i := o.player]
  {
    match players[i].state {
      case ThrowingDice =>
      case Selecting(n) =>
        if actions.selectedTrough.Some? {
          var found := FindFirst(pigs, actions.selectedTrough.value);
          if found.Some? && IsValidForPlacement(pigs[found.value], n, occupied) {
            pigs[found.value] := pigs[found.value].(status := Occupied);
            players[i] := Player(ThrowingDice);
            ClearGhosts(pigs);
          }
        } else if actions.hoveredTrough.Some? {
          var hovered := actions.hoveredTrough.value;
          var found := FindFirst(pigs, hovered);
          if found.Some? && IsValidForPlacement(pigs[found.value], n, occupied) {
            pigs[found.value] := pigs[found.value].(status := Ghost);
          }
          ClearGhostsExcept(pigs, hovered);
        } else {
          ClearGhosts(pigs);
        }
    }
  }

  /** The board and the players after `place_pig` has handled `players` in order. */
  function SystemOutcome(pigs: seq<Pig>, actions: Actions, players: seq<Player>, occupied: PigStatus -> bool): (r: (seq<Pig>, seq<Player>))
    ensures |r.0| == |pigs| && |r.1| == |players|
    ensures (forall k :: 0 <= k < |players| ==> players[k].state == ThrowingDice) ==> r == (pigs, players)
  {
    if players == [] then (pigs, [])
    else
      var before := SystemOutcome(pigs, actions, players[..|players| - 1], occupied);
      var o := PlaceOutcome(before.0, actions, players[|players| - 1], occupied);
      assert players[..|players| - 1] + [players[|players| - 1]] == players;
      (o.pigs, before.1 + [o.player])
  }

  /** Over a whole frame, a player either keeps its state or moves from selecting on to the dice. */
  lemma {:induction false} SystemOutcomeStates(pigs: seq<Pig>, actions: Actions, players: seq<Player>, occupied: PigStatus -> bool)
    ensures var r := SystemOutcome(pigs, actions, players, occupied);
      forall k :: 0 <= k < |players| ==>
        r.1[k] == players[k] || (players[k].state.Selecting? && r.1[k].state == ThrowingDice)
  {
    if players != [] {
      var n := |players| - 1;
      SystemOutcomeStates(pigs, actions, players[..n], occupied);
      var before := SystemOutcome(pigs, actions, players[..n], occupied);
      PlaceOutcomeEffects(before.0, actions, players[n], occupied);
    }
  }

  /** `place_pig`: every player in turn. */
  method PlacePig(pigs: array<Pig>, actions: Actions, players: array<Player>, occupied: PigStatus -> bool)
    modifies pigs, players
    ensures (pigs[..], players[..]) == SystemOutcome(old(pigs[..]), actions, old(players[..]), occupied)
  {
    var i := 0;
    while i < players.Length
      invariant 0 <= i <= players.Length
      invariant (pigs[..], players[..i]) == SystemOutcome(old(pigs[..]), actions, old(players[..])[..i], occupied)
      invariant players[i..] == old(players[..])[i..]
    {
      ghost var prefix := players[..i];
      assert old(players[..])[..i + 1][..i] == old(players[..])[..i];
      assert players[i] == old(players[..])[..i + 1][i];
      PlaceForPlayer(pigs, actions, players, i, occupied);
      assert players[..i] == prefix;
      assert players[..i + 1] == prefix + [players[i]];
      i := i + 1;
    }
    assert players[..i] == players[..];
    assert old(players[..])[..i] == old(players[..]);
  }
}
