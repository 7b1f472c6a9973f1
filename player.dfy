/**
 * The player logic of pig-hole/src/player.rs: placing pigs in the rolled group, collecting
 * a full group, ghosts that preview a move, the end of a turn, the buttons and the win rule.
 *
 * The board file that defines `Pig`, `PigStatus` and `Pig::is_occupied` is not part of this
 * model: the statuses below are the ones this file uses, and `occupied` stands for
 * `is_occupied` wherever it is consulted.
 */
module PigHolePlayer {
  import opened Wrappers
  import opened Ecs
  import opened Ints
  import opened Search
  import opened PigHoleTurn
  import opened IngameMenu
  import opened PigHoleCollection

  datatype PigStatus = Empty | Occupied | PlacementGhost | RemovalGhost

  /** A trough: its dice group, and a slot standing for the rest of its identity on the board. */
  datatype Trough = Trough(group: u8, slot: nat)

  datatype Pig = Pig(trough: Trough, status: PigStatus)

  datatype PlayerState =
    | PlacingInGroup(group: u8)
    | CollectingGroup(group: u8)
    | Thinking
    | ThrowingDice
    | Waiting
    | Won
    | Lost

  datatype Player = Player(state: PlayerState, pigCount: u32, actionCount: nat)

  /** `Player::default`. */
  const DefaultPlayer: Player := Player(Thinking, 20, 0)

  /** The pig clicked this frame and the pig under the cursor, as the input system records them. */
  datatype Actions = Actions(selectedPig: Option<Pig>, hoveredTrough: Option<Pig>)

  /** `is_valid_for_placement`. */
  predicate IsValidForPlacement(pig: Pig, group: u8, occupied: PigStatus -> bool) {
    pig.trough.group == group && !occupied(pig.status)
  }

  /** The pig a click or hover acts on: the first pig equal to `target`, when it is valid for placement in `group`. */
  function PlacementTarget(pigs: seq<Pig>, target: Pig, group: u8, occupied: PigStatus -> bool): (r: Option<nat>)
    ensures r.Some? ==> r.value < |pigs| && pigs[r.value] == target && IsValidForPlacement(target, group, occupied)
    ensures r.None? ==> target !in pigs || !IsValidForPlacement(target, group, occupied)
    ensures r.Some? ==> forall j :: 0 <= j < r.value ==> pigs[j] != target
    ensures target in pigs && IsValidForPlacement(target, group, occupied) ==> r.Some?
  {
    var k := FirstIndexOf(pigs, target);
    if k.Some? && IsValidForPlacement(pigs[k.value], group, occupied) then k else None
  }

  /** `pigs` with the status of the pig at `target`, if any, replaced by `status`. */
  function SetStatusAt(pigs: seq<Pig>, target: Option<nat>, status: PigStatus): (r: seq<Pig>)
    requires target.Some? ==> target.value < |pigs|
    ensures |r| == |pigs|
    ensures forall k :: 0 <= k < |pigs| && target != Some(k) ==> r[k] == pigs[k]
  {
    if target.Some? then pigs[target.value := pigs[target.value].(status := status)] else pigs
  }

  // ---------------------------------------------------------------------------------------
  // Ghosts

  /** What `clear_ghosts` does to one status. */
  function ClearedStatus(s: PigStatus): PigStatus {
    match s
    case PlacementGhost => Empty
    case RemovalGhost => Occupied
    case _ => s
  }

  function ClearedGhosts(pigs: seq<Pig>): (r: seq<Pig>)
    ensures |r| == |pigs|
  {
    seq(|pigs|, k requires 0 <= k < |pigs| => pigs[k].(status := ClearedStatus(pigs[k].status)))
  }

  /** Clearing ghosts turns placement ghosts back into empty troughs and removal ghosts back into occupied ones, touches nothing else, and leaves no ghost. */
  lemma ClearedGhostsEffect(pigs: seq<Pig>)
    ensures var r := ClearedGhosts(pigs);
      forall k :: 0 <= k < |pigs| ==>
        && r[k].trough == pigs[k].trough
        && (pigs[k].status == PlacementGhost ==> r[k].status == Empty)
        && (pigs[k].status == RemovalGhost ==> r[k].status == Occupied)
        && (pigs[k].status in {Empty, Occupied} ==> r[k].status == pigs[k].status)
        && r[k].status in {Empty, Occupied}
    ensures ClearedGhosts(ClearedGhosts(pigs)) == ClearedGhosts(pigs)
  {
  }

  /** What `clear_ghosts_except` keeps: placement ghosts in the excepted trough; other placement ghosts become empty. */
  function ClearedGhostsExcept(pigs: seq<Pig>, exception: Trough): (r: seq<Pig>)
    ensures |r| == |pigs|
  {
    seq(|pigs|, k requires 0 <= k < |pigs| =>
      if pigs[k].status == PlacementGhost && pigs[k].trough != exception then pigs[k].(status := Empty) else pigs[k])
  }

  lemma ClearedGhostsExceptEffect(pigs: seq<Pig>, exception: Trough)
    ensures var r := ClearedGhostsExcept(pigs, exception);
      && (forall k :: 0 <= k < |pigs| && r[k].status == PlacementGhost ==> r[k].trough == exception)
      && (forall k :: 0 <= k < |pigs| && r[k] != pigs[k] ==> pigs[k].status == PlacementGhost && r[k].status == Empty)
      && (forall k :: 0 <= k < |pigs| && pigs[k].trough == exception ==> r[k] == pigs[k])
  {
  }

  /** `clear_ghosts`. */
  method ClearGhosts(pigs: array<Pig>)
    modifies pigs
    ensures pigs[..] == ClearedGhosts(old(pigs[..]))
  {
    var i := 0;
    while i < pigs.Length
      invariant 0 <= i <= pigs.Length
      invariant forall k :: 0 <= k < i ==> pigs[k] == old(pigs[k]).(status := ClearedStatus(old(pigs[k]).status))
      invariant forall k :: i <= k < pigs.Length ==> pigs[k] == old(pigs[k])
    {
      match pigs[i].status {
        case PlacementGhost => pigs[i] := pigs[i].(status := Empty);
        case RemovalGhost => pigs[i] := pigs[i].(status := Occupied);
        case _ =>
      }
      i := i + 1;
    }
  }

  /** `clear_ghosts_except`. */
  method ClearGhostsExcept(pigs: array<Pig>, exception: Pig)
    modifies pigs
    ensures pigs[..] == ClearedGhostsExcept(old(pigs[..]), exception.trough)
  {
    var i := 0;
    while i < pigs.Length
      invariant 0 <= i <= pigs.Length
      invariant forall k :: 0 <= k < i ==> pigs[k] == ClearedGhostsExcept(old(pigs[..]), exception.trough)[k]
      invariant forall k :: i <= k < pigs.Length ==> pigs[k] == old(pigs[k])
    {
      if pigs[i].status == PlacementGhost && pigs[i].trough != exception.trough {
        pigs[i] := pigs[i].(status := Empty);
      }
      i := i + 1;
    }
  }

  /** Every pig of `group` gets `status`. */
  function GroupSetTo(pigs: seq<Pig>, group: u8, status: PigStatus): (r: seq<Pig>)
    ensures |r| == |pigs|
  {
    seq(|pigs|, k requires 0 <= k < |pigs| =>
      if pigs[k].trough.group == group then pigs[k].(status := status) else pigs[k])
  }

  /** Sets the status of every pig of `group`, as the collecting loops of `select_pig` do. */
  method SetGroupStatus(pigs: array<Pig>, group: u8, status: PigStatus)
    modifies pigs
    ensures pigs[..] == GroupSetTo(old(pigs[..]), group, status)
  {
    var k := 0;
    while k < pigs.Length
      invariant 0 <= k <= pigs.Length
      invariant forall j :: 0 <= j < k ==> pigs[j] == GroupSetTo(old(pigs[..]), group, status)[j]
      invariant forall j :: k <= j < pigs.Length ==> pigs[j] == old(pigs[j])
    {
      if pigs[k].trough.group == group {
        pigs[k] := pigs[k].(status := status);
      }
      k := k + 1;
    }
  }

  // ---------------------------------------------------------------------------------------
  // Dice

  /** Every pig of `group` is occupied. */
  predicate GroupFull(pigs: seq<Pig>, group: u8, occupied: PigStatus -> bool) {
    forall k :: 0 <= k < |pigs| && pigs[k].trough.group == group ==> occupied(pigs[k].status)
  }

  /** `is_group_full`: stops at the first unoccupied pig of the group. */
  method IsGroupFull(pigs: array<Pig>, group: u8, occupied: PigStatus -> bool) returns (full: bool)
    ensures full <==> GroupFull(pigs[..], group, occupied)
  {
    var i := 0;
    while i < pigs.Length
      invariant 0 <= i <= pigs.Length
      invariant GroupFull(pigs[..i], group, occupied)
    {
      if !occupied(pigs[i].status) && pigs[i].trough.group == group {
        return false;
      }
      assert pigs[..i + 1] == pigs[..i] + [pigs[i]];
      i := i + 1;
    }
    assert pigs[..i] == pigs[..];
    return true;
  }

  /** The state a dice roll leads to: collect the group when it is full, otherwise place in it. */
  function RolledState(pigs: seq<Pig>, roll: u8, occupied: PigStatus -> bool): (s: PlayerState)
    ensures s == CollectingGroup(roll) <==> GroupFull(pigs, roll, occupied)
    ensures s == PlacingInGroup(roll) <==> !GroupFull(pigs, roll, occupied)
  {
    if GroupFull(pigs, roll, occupied) then CollectingGroup(roll) else PlacingInGroup(roll)
  }

  /**
   * `throw_dice`: every player throwing the dice moves on to the group rolled. The random
   * roll (1 to 6) of each player is a parameter.
   */
  method ThrowDice(players: array<Player>, pigs: array<Pig>, rolls: seq<u8>, occupied: PigStatus -> bool)
    requires |rolls| == players.Length
    requires forall k :: 0 <= k < |rolls| ==> 1 <= rolls[k] <= 6
    modifies players
    ensures forall k :: 0 <= k < players.Length ==>
      players[k] == if old(players[k]).state == ThrowingDice
                    then old(players[k]).(state := RolledState(pigs[..], rolls[k], occupied))
                    else old(players[k])
  {
    var i := 0;
    while i < players.Length
      invariant 0 <= i <= players.Length
      invariant forall k :: 0 <= k < i ==>
        players[k] == if old(players[k]).state == ThrowingDice
                      then old(players[k]).(state := RolledState(pigs[..], rolls[k], occupied))
                      else old(players[k])
      invariant forall k :: i <= k < players.Length ==> players[k] == old(players[k])
    {
      if players[i].state == ThrowingDice {
        var full := IsGroupFull(pigs, rolls[i], occupied);
        players[i] := players[i].(state := if full then CollectingGroup(rolls[i]) else PlacingInGroup(rolls[i]));
      }
      i := i + 1;
    }
  }

  // ---------------------------------------------------------------------------------------
  // Turns

  /** Turn state the player systems can use: a valid rotation with at least one player. */
  ghost predicate TurnReady(turn: Turn)
    reads turn
  {
    turn.Valid() && turn.playerOrder != []
  }

  /** `end_turn`: the player's actions are reset, the next player is on turn, and the player waits. */
  method EndTurn(players: array<Player>, i: nat, turn: Turn)
    requires i < players.Length && TurnReady(turn)
    modifies players, turn
    ensures TurnReady(turn) && turn.playerOrder == old(turn.playerOrder)
    ensures turn.Pos() == Next(old(turn.Pos()), |turn.playerOrder|)
    ensures players[..] == old(players[..])[i := old(players[i]).(actionCount := 0, state := Waiting)]
  {
    players[i] := players[i].(actionCount := 0);
    var _ := turn.StartNextPlayersTurn();
    players[i] := players[i].(state := Waiting);
  }

  /** Adds `delta` to the `modify_by` of every pig collection. */
  method AdjustCollections(collections: seq<PigCollection>, delta: int)
    requires forall j, k :: 0 <= j < k < |collections| ==> collections[j] != collections[k]
    modifies collections
    ensures forall k :: 0 <= k < |collections| ==>
      collections[k].modifyBy == old(collections[k].modifyBy) + delta && collections[k].pigs == old(collections[k].pigs)
  {
    var i := 0;
    while i < |collections|
      invariant 0 <= i <= |collections|
      invariant forall k :: 0 <= k < i ==>
        collections[k].modifyBy == old(collections[k].modifyBy) + delta && collections[k].pigs == old(collections[k].pigs)
      invariant forall k :: i <= k < |collections| ==>
        collections[k].modifyBy == old(collections[k].modifyBy) && collections[k].pigs == old(collections[k].pigs)
    {
      collections[i].modifyBy := collections[i].modifyBy + delta;
      i := i + 1;
    }
  }

  predicate Distinct(collections: seq<PigCollection>) {
    forall j, k :: 0 <= j < k < |collections| ==> collections[j] != collections[k]
  }

  /** Whether the placement that makes `actionCount` actions ends the turn: only when the turn demands a minimum and it is reached. */
  predicate PlacementEndsTurn(actionCount: nat, minActions: Option<nat>) {
    minActions.Some? && actionCount >= minActions.value
  }

  // ---------------------------------------------------------------------------------------
  // select_pig

  /** Lines 99-115 of `select_pig`: placing the pig at `k` for player `i`. */
  method PlaceSelected(pigs: array<Pig>, k: nat, players: array<Player>, i: nat,
                       collections: seq<PigCollection>, turn: Turn)
    requires k < pigs.Length && i < players.Length && TurnReady(turn) && Distinct(collections)
    modifies pigs, players, turn, collections
    ensures TurnReady(turn) && turn.playerOrder == old(turn.playerOrder)
    ensures pigs[..] == ClearedGhosts(old(pigs[..])[k := old(pigs[k]).(status := Occupied)])
    ensures forall j :: 0 <= j < players.Length && j != i ==> players[j] == old(players[j])
    ensures players[i].pigCount == SaturatingSub(old(players[i].pigCount), 1)
    ensures !PlacementEndsTurn(old(players[i].actionCount) + 1, old(turn.GetMinActions())) ==>
      && players[i].state == Thinking && players[i].actionCount == old(players[i].actionCount) + 1
      && turn.Pos() == old(turn.Pos())
    ensures PlacementEndsTurn(old(players[i].actionCount) + 1, old(turn.GetMinActions())) ==>
      && players[i].state == Waiting && players[i].actionCount == 0
      && turn.Pos() == Next(old(turn.Pos()), |turn.playerOrder|)
    ensures forall c :: 0 <= c < |collections| ==>
      collections[c].modifyBy == old(collections[c].modifyBy) - 1 && collections[c].pigs == old(collections[c].pigs)
  {
    pigs[k] := pigs[k].(status := Occupied);
    players[i] := players[i].(actionCount := players[i].actionCount + 1);
    match turn.GetMinActions() {
      case Some(minActions) =>
        if players[i].actionCount < minActions {
          players[i] := players[i].(state := Thinking);
        } else {
          EndTurn(players, i, turn);
        }
      case None =>
        players[i] := players[i].(state := Thinking);
    }
    players[i] := players[i].(pigCount := SaturatingSub(players[i].pigCount, 1));
    AdjustCollections(collections, -1);
    ClearGhosts(pigs);
  }

  /** The `PlacingInGroup(group)` arm of `select_pig` for player `i`. */
  method SelectWhilePlacing(pigs: array<Pig>, actions: Actions, players: array<Player>, i: nat,
                            collections: seq<PigCollection>, turn: Turn, occupied: PigStatus -> bool)
    requires i < players.Length && players[i].state.PlacingInGroup?
    requires TurnReady(turn) && Distinct(collections)
    modifies pigs, players, turn, collections
    ensures TurnReady(turn) && turn.playerOrder == old(turn.playerOrder)
    ensures forall j :: 0 <= j < players.Length && j != i ==> players[j] == old(players[j])
    // a click on a pig valid for placement places it
    ensures actions.selectedPig.Some? ==>
      var target := PlacementTarget(old(pigs[..]), actions.selectedPig.value, old(players[i].state.group), occupied);
      if target.Some? then
        && pigs[..] == ClearedGhosts(SetStatusAt(old(pigs[..]), target, Occupied))
        && players[i].pigCount == SaturatingSub(old(players[i].pigCount), 1)
        && (forall c :: 0 <= c < |collections| ==> collections[c].modifyBy == old(collections[c].modifyBy) - 1)
        && (if PlacementEndsTurn(old(players[i].actionCount) + 1, old(turn.GetMinActions()))
            then players[i].state == Waiting && players[i].actionCount == 0
                 && turn.Pos() == Next(old(turn.Pos()), |turn.playerOrder|)
            else players[i].state == Thinking && players[i].actionCount == old(players[i].actionCount) + 1
                 && turn.Pos() == old(turn.Pos()))
      else
        pigs[..] == old(pigs[..]) && players[i] == old(players[i]) && turn.Pos() == old(turn.Pos())
        && forall c :: 0 <= c < |collections| ==> collections[c].modifyBy == old(collections[c].modifyBy)
    // hovering turns a valid pig into a placement ghost and clears the other troughs' ghosts
    ensures actions.selectedPig.None? && actions.hoveredTrough.Some? ==>
      var hovered := actions.hoveredTrough.value;
      var target := PlacementTarget(old(pigs[..]), hovered, old(players[i].state.group), occupied);
      && pigs[..] == ClearedGhostsExcept(SetStatusAt(old(pigs[..]), target, PlacementGhost), hovered.trough)
      && players[i] == old(players[i]) && turn.Pos() == old(turn.Pos())
    // with neither, all ghosts are cleared
    ensures actions.selectedPig.None? && actions.hoveredTrough.None? ==>
      pigs[..] == ClearedGhosts(old(pigs[..])) && players[i] == old(players[i]) && turn.Pos() == old(turn.Pos())
    ensures actions.selectedPig.None? ==>
      forall c :: 0 <= c < |collections| ==> collections[c].modifyBy == old(collections[c].modifyBy)
    ensures forall c :: 0 <= c < |collections| ==> collections[c].pigs == old(collections[c].pigs)
  {
    var group := players[i].state.group;
    if actions.selectedPig.Some? {
      var found := FindFirst(pigs, actions.selectedPig.value);
      if found.Some? && IsValidForPlacement(pigs[found.value], group, occupied) {
        PlaceSelected(pigs, found.value, players, i, collections, turn);
      }
    } else if actions.hoveredTrough.Some? {
      var hovered := actions.hoveredTrough.value;
      var found := FindFirst(pigs, hovered);
      if found.Some? && IsValidForPlacement(pigs[found.value], group, occupied) {
        pigs[found.value] := pigs[found.value].(status := PlacementGhost);
      }
      ClearGhostsExcept(pigs, hovered);
    } else {
      ClearGhosts(pigs);
    }
  }

  /** Number of pigs of `group`. */
  function CountInGroup(pigs: seq<Pig>, group: u8): (n: nat)
    ensures n <= |pigs|
  {
    if pigs == [] then 0
    else CountInGroup(pigs[..|pigs| - 1], group) + (if pigs[|pigs| - 1].trough.group == group then 1 else 0)
  }

  /** The count is zero exactly when no pig belongs to the group, that is when collecting it empties nothing. */
  lemma {:induction false} CountInGroupZero(pigs: seq<Pig>, group: u8)
    ensures CountInGroup(pigs, group) == 0 <==> forall k :: 0 <= k < |pigs| ==> pigs[k].trough.group != group
  {
    if pigs != [] {
      CountInGroupZero(pigs[..|pigs| - 1], group);
    }
  }

  /**
   * Lines 130-143 of `select_pig` as written: every pig of the group is emptied and, inside
   * the same loop, `end_turn` runs once for each of them, so the turn advances once per pig.
   */
  method CollectSelectedAsWritten(pigs: array<Pig>, players: array<Player>, i: nat, group: u8,
                                  collections: seq<PigCollection>, turn: Turn)
    requires i < players.Length && TurnReady(turn) && Distinct(collections)
    modifies pigs, players, turn, collections
    ensures TurnReady(turn) && turn.playerOrder == old(turn.playerOrder)
    ensures pigs[..] == GroupSetTo(old(pigs[..]), group, Empty)
    ensures turn.Pos() == Advance(old(turn.Pos()), |turn.playerOrder|, CountInGroup(old(pigs[..]), group))
    ensures forall j :: 0 <= j < players.Length && j != i ==> players[j] == old(players[j])
    ensures players[i].pigCount == SaturatingAdd(old(players[i].pigCount), group as u32)
    ensures CountInGroup(old(pigs[..]), group) > 0 ==> players[i].state == Waiting && players[i].actionCount == 0
    ensures CountInGroup(old(pigs[..]), group) == 0 ==>
      players[i].state == old(players[i].state) && players[i].actionCount == old(players[i].actionCount)
    ensures forall c :: 0 <= c < |collections| ==>
      collections[c].modifyBy == old(collections[c].modifyBy) + group as int && collections[c].pigs == old(collections[c].pigs)
  {
    var k := 0;
    while k < pigs.Length
      modifies pigs, players, turn
      invariant 0 <= k <= pigs.Length
      invariant TurnReady(turn) && turn.playerOrder == old(turn.playerOrder)
      invariant forall j :: 0 <= j < k ==> pigs[j] == GroupSetTo(old(pigs[..]), group, Empty)[j]
      invariant forall j :: k <= j < pigs.Length ==> pigs[j] == old(pigs[j])
      invariant turn.Pos() == Advance(old(turn.Pos()), |turn.playerOrder|, CountInGroup(old(pigs[..])[..k], group))
      invariant forall j :: 0 <= j < players.Length && j != i ==> players[j] == old(players[j])
      invariant players[i].pigCount == old(players[i].pigCount)
      invariant CountInGroup(old(pigs[..])[..k], group) > 0 ==> players[i].state == Waiting && players[i].actionCount == 0
      invariant CountInGroup(old(pigs[..])[..k], group) == 0 ==>
        players[i].state == old(players[i].state) && players[i].actionCount == old(players[i].actionCount)
    {
      ghost var before := old(pigs[..])[..k];
      assert old(pigs[..])[..k + 1][..k] == before;
      if pigs[k].trough.group == group {
        pigs[k] := pigs[k].(status := Empty);
        AdvanceCompose(old(turn.Pos()), |turn.playerOrder|, CountInGroup(before, group), 1);
        EndTurn(players, i, turn);
      }
      k := k + 1;
    }
    assert old(pigs[..])[..k] == old(pigs[..]);
    players[i] := players[i].(pigCount := SaturatingAdd(players[i].pigCount, group as u32));
    AdjustCollections(collections, group as int);
  }

  /**
   * With two players, collecting a group of two pigs as written advances the turn twice and
   * hands it back to the collector, where advancing once would pass it to the opponent.
   */
  lemma CollectingTwoPigsSkipsOpponent(pigs: seq<Pig>, p: Position)
    requires CountInGroup(pigs, 2) == 2 && p.index < 2
    ensures Advance(p, 2, CountInGroup(pigs, 2)).index == p.index
    ensures Next(p, 2).index != p.index
  {
    FullRound(p, 2);
  }

  /** Collecting with the turn ended once, after the group has been emptied. */
  method CollectSelected(pigs: array<Pig>, players: array<Player>, i: nat, group: u8,
                         collections: seq<PigCollection>, turn: Turn)
    requires i < players.Length && TurnReady(turn) && Distinct(collections)
    modifies pigs, players, turn, collections
    ensures TurnReady(turn) && turn.playerOrder == old(turn.playerOrder)
    ensures pigs[..] == GroupSetTo(old(pigs[..]), group, Empty)
    ensures turn.Pos() == Next(old(turn.Pos()), |turn.playerOrder|)
    ensures players[..] == old(players[..])[i := Player(Waiting, SaturatingAdd(old(players[i].pigCount), group as u32), 0)]
    ensures forall c :: 0 <= c < |collections| ==>
      collections[c].modifyBy == old(collections[c].modifyBy) + group as int && collections[c].pigs == old(collections[c].pigs)
  {
    SetGroupStatus(pigs, group, Empty);
    EndTurn(players, i, turn);
    players[i] := players[i].(pigCount := SaturatingAdd(players[i].pigCount, group as u32));
    AdjustCollections(collections, group as int);
  }

  /**
   * The `CollectingGroup(group)` arm of `select_pig` for player `i`, with the turn ended
   * once. `abort` is the source's early `return`, which also skips the remaining players.
   */
  method SelectWhileCollecting(pigs: array<Pig>, actions: Actions, players: array<Player>, i: nat,
                               collections: seq<PigCollection>, turn: Turn, occupied: PigStatus -> bool)
    returns (abort: bool)
    requires i < players.Length && players[i].state.CollectingGroup?
    requires TurnReady(turn) && Distinct(collections)
    modifies pigs, players, turn, collections
    ensures TurnReady(turn) && turn.playerOrder == old(turn.playerOrder)
    ensures forall j :: 0 <= j < players.Length && j != i ==> players[j] == old(players[j])
    ensures forall c :: 0 <= c < |collections| ==> collections[c].pigs == old(collections[c].pigs)
    // a click outside the group stops the system; a click in it collects the whole group
    ensures actions.selectedPig.Some? ==>
      var group := old(players[i].state.group);
      if actions.selectedPig.value.trough.group != group then
        && abort && pigs[..] == old(pigs[..]) && players[i] == old(players[i]) && turn.Pos() == old(turn.Pos())
        && forall c :: 0 <= c < |collections| ==> collections[c].modifyBy == old(collections[c].modifyBy)
      else
        && !abort
        && pigs[..] == GroupSetTo(old(pigs[..]), group, Empty)
        && players[i] == Player(Waiting, SaturatingAdd(old(players[i].pigCount), group as u32), 0)
        && turn.Pos() == Next(old(turn.Pos()), |turn.playerOrder|)
        && forall c :: 0 <= c < |collections| ==> collections[c].modifyBy == old(collections[c].modifyBy) + group as int
    // hovering the group marks all of its pigs for removal
    ensures actions.selectedPig.None? && actions.hoveredTrough.Some? ==>
      var group := old(players[i].state.group);
      var hovered := actions.hoveredTrough.value;
      && players[i] == old(players[i]) && turn.Pos() == old(turn.Pos())
      && (abort <==> hovered.trough.group != group)
      && pigs[..] == if abort then old(pigs[..])
                     else GroupSetTo(SetStatusAt(old(pigs[..]), PlacementTarget(old(pigs[..]), hovered, group, occupied), PlacementGhost), group, RemovalGhost)
    ensures actions.selectedPig.None? && actions.hoveredTrough.None? ==>
      !abort && pigs[..] == ClearedGhosts(old(pigs[..])) && players[i] == old(players[i]) && turn.Pos() == old(turn.Pos())
    ensures actions.selectedPig.None? ==>
      forall c :: 0 <= c < |collections| ==> collections[c].modifyBy == old(collections[c].modifyBy)
  {
    var group := players[i].state.group;
    abort := false;
    if actions.selectedPig.Some? {
      if actions.selectedPig.value.trough.group != group {
        return true;
      }
      CollectSelected(pigs, players, i, group, collections, turn);
    } else if actions.hoveredTrough.Some? {
      var hovered := actions.hoveredTrough.value;
      if hovered.trough.group != group {
        return true;
      }
      var found := FindFirst(pigs, hovered);
      if found.Some? && IsValidForPlacement(pigs[found.value], group, occupied) {
        pigs[found.value] := pigs[found.value].(status := PlacementGhost);
      }
      SetGroupStatus(pigs, group, RemovalGhost);
    } else {
      ClearGhosts(pigs);
    }
  }

  /**
   * `select_pig`: each player placing or collecting acts on this frame's click or hover; a
   * click or hover outside the group being collected ends the system for all players.
   */
  method SelectPig(pigs: array<Pig>, actions: Actions, players: array<Player>,
                   collections: seq<PigCollection>, turn: Turn, occupied: PigStatus -> bool)
    requires TurnReady(turn) && Distinct(collections)
    modifies pigs, players, turn, collections
    ensures TurnReady(turn) && turn.playerOrder == old(turn.playerOrder)
    ensures forall j :: 0 <= j < players.Length && !old(players[j]).state.PlacingInGroup? && !old(players[j]).state.CollectingGroup? ==>
      players[j] == old(players[j])
    ensures forall c :: 0 <= c < |collections| ==> collections[c].pigs == old(collections[c].pigs)
  {
    var i := 0;
    while i < players.Length
      invariant 0 <= i <= players.Length
      invariant TurnReady(turn) && turn.playerOrder == old(turn.playerOrder)
      invariant forall j :: 0 <= j < players.Length && !old(players[j]).state.PlacingInGroup? && !old(players[j]).state.CollectingGroup? ==>
        players[j] == old(players[j])
      invariant forall j :: i <= j < players.Length ==> players[j] == old(players[j])
      invariant forall c :: 0 <= c < |collections| ==> collections[c].pigs == old(collections[c].pigs)
    {
      match players[i].state {
        case PlacingInGroup(_) =>
          SelectWhilePlacing(pigs, actions, players, i, collections, turn, occupied);
        case CollectingGroup(_) =>
          var abort := SelectWhileCollecting(pigs, actions, players, i, collections, turn, occupied);
          if abort {
            return;
          }
        case _ =>
      }
      i := i + 1;
    }
  }

  // ---------------------------------------------------------------------------------------
  // Buttons

  /** `sync_interaction_model` for one player: the requests act on a thinking player, then its state decides what the buttons allow. */
  method SyncPlayer(players: array<Player>, i: nat, rollDice: InteractionModel<()>, endTurn: InteractionModel<()>, turn: Turn)
    requires i < players.Length && TurnReady(turn) && rollDice != endTurn
    modifies players, rollDice, endTurn, turn
    ensures TurnReady(turn) && turn.playerOrder == old(turn.playerOrder)
    ensures
      var p := old(players[i]);
      var afterRoll := if old(rollDice.request).Some? && p.state == Thinking then ThrowingDice else p.state;
      var ended := old(endTurn.request).Some? && afterRoll == Thinking;
      && players[..] == old(players[..])[i := if ended then p.(actionCount := 0, state := Waiting) else p.(state := afterRoll)]
      && turn.Pos() == if ended then Next(old(turn.Pos()), |turn.playerOrder|) else old(turn.Pos())
    ensures rollDice.isAllowed <==> players[i].state == Thinking
    ensures endTurn.isAllowed <==> players[i].state == Thinking && turn.number > 2 && players[i].actionCount > 0
    ensures rollDice.request == if rollDice.isAllowed then old(rollDice.request) else None
    ensures endTurn.request == if endTurn.isAllowed then old(endTurn.request) else None
  {
    if rollDice.GetInteraction().Some? {
      if players[i].state == Thinking {
        players[i] := players[i].(state := ThrowingDice);
      }
    }
    if endTurn.GetInteraction().Some? {
      if players[i].state == Thinking {
        EndTurn(players, i, turn);
      }
    }
    match players[i].state {
      case Thinking =>
        rollDice.Allow();
        if turn.GetMinActions().None? && players[i].actionCount > 0 {
          endTurn.Allow();
        } else {
          endTurn.Deny();
        }
      case _ =>
        rollDice.Deny();
        endTurn.Deny();
    }
  }

  /** The players, the turn position and both buttons' interaction models while `sync_interaction_model` runs. */
  datatype SyncState = SyncState(players: seq<Player>, pos: Position,
                                 rollAllowed: bool, rollRequest: Option<()>,
                                 endAllowed: bool, endRequest: Option<()>)

  /** What `sync_interaction_model` does for the player at `i`, among `len` players in the turn order. */
  function SyncStep(s: SyncState, i: nat, len: nat): (r: SyncState)
    requires i < |s.players|
    ensures |r.players| == |s.players|
  {
    var p := s.players[i];
    var afterRoll := if s.rollRequest.Some? && p.state == Thinking then ThrowingDice else p.state;
    var ended := s.endRequest.Some? && afterRoll == Thinking;
    var q := if ended then p.(actionCount := 0, state := Waiting) else p.(state := afterRoll);
    var pos := if ended then Next(s.pos, len) else s.pos;
    var rollAllowed := q.state == Thinking;
    var endAllowed := q.state == Thinking && pos.number > 2 && q.actionCount > 0;
    SyncState(s.players[i := q], pos,
              rollAllowed, if rollAllowed then s.rollRequest else None,
              endAllowed, if endAllowed then s.endRequest else None)
  }

  /** The state after `sync_interaction_model` has handled the first `k` players. */
  function SyncUpTo(s: SyncState, k: nat, len: nat): (r: SyncState)
    requires k <= |s.players|
    ensures |r.players| == |s.players|
    decreases k
  {
    if k == 0 then s else SyncStep(SyncUpTo(s, k - 1, len), k - 1, len)
  }

  /** The player at `j` was thinking and now throws the dice. */
  predicate Rolled(before: seq<Player>, after: seq<Player>, j: nat)
    requires j < |before| && j < |after|
  {
    before[j].state == Thinking && after[j].state == ThrowingDice
  }

  /** The player at `j` was thinking and now waits: its turn was ended. */
  predicate Ended(before: seq<Player>, after: seq<Player>, j: nat)
    requires j < |before| && j < |after|
  {
    before[j].state == Thinking && after[j].state == Waiting
  }

  /** Players the pass has not reached yet are untouched. */
  lemma {:induction false} SyncLeavesRestAlone(s: SyncState, k: nat, len: nat)
    requires k <= |s.players|
    ensures forall j :: k <= j < |s.players| ==> SyncUpTo(s, k, len).players[j] == s.players[j]
  {
    if k > 0 {
      SyncLeavesRestAlone(s, k - 1, len);
    }
  }

  /**
   * A player as `Player::default` creates it, handled with no request pending: it stays as it
   * is, may roll the dice, and may not end its turn, having taken no action yet.
   */
  lemma DefaultPlayerMayOnlyRoll(s: SyncState, i: nat, len: nat)
    requires i < |s.players| && s.players[i] == DefaultPlayer
    requires s.rollRequest == None && s.endRequest == None
    ensures var r := SyncStep(s, i, len);
      r.players == s.players && r.rollAllowed && !r.endAllowed && r.pos == s.pos
  {
  }

  /**
   * One pass of `sync_interaction_model` serves a roll request once: the first thinking player
   * takes it and the button is then denied, so at most one player starts throwing the dice.
   */
  lemma {:induction false} SyncRollsOnce(s: SyncState, k: nat, len: nat)
    requires k <= |s.players|
    ensures var r := SyncUpTo(s, k, len);
      && (forall j1, j2 :: 0 <= j1 < j2 < k ==> !(Rolled(s.players, r.players, j1) && Rolled(s.players, r.players, j2)))
      && ((exists j :: 0 <= j < k && Rolled(s.players, r.players, j)) ==> r.rollRequest == None)
  {
    if k > 0 {
      var i := k - 1;
      SyncRollsOnce(s, i, len);
      SyncLeavesRestAlone(s, i, len);
      var before := SyncUpTo(s, i, len);
      var r := SyncUpTo(s, k, len);
      assert forall j :: 0 <= j < i ==> (Rolled(s.players, r.players, j) <==> Rolled(s.players, before.players, j));
      if Rolled(s.players, r.players, i) {
        assert before.rollRequest.Some?;
      }
    }
  }

  /**
   * Likewise an end-turn request: at most one player's turn is ended in one pass, and the turn
   * advances once if that happens and not at all otherwise.
   */
  lemma {:induction false} SyncEndsOnce(s: SyncState, k: nat, len: nat)
    requires k <= |s.players|
    ensures var r := SyncUpTo(s, k, len);
      && (forall j1, j2 :: 0 <= j1 < j2 < k ==> !(Ended(s.players, r.players, j1) && Ended(s.players, r.players, j2)))
      && ((exists j :: 0 <= j < k && Ended(s.players, r.players, j)) ==> r.endRequest == None && r.pos == Next(s.pos, len))
      && (!(exists j :: 0 <= j < k && Ended(s.players, r.players, j)) ==> r.pos == s.pos)
  {
    if k > 0 {
      var i := k - 1;
      SyncEndsOnce(s, i, len);
      SyncLeavesRestAlone(s, i, len);
      var before := SyncUpTo(s, i, len);
      var r := SyncUpTo(s, k, len);
      assert forall j :: 0 <= j < i ==> (Ended(s.players, r.players, j) <==> Ended(s.players, before.players, j));
      if Ended(s.players, r.players, i) {
        assert before.endRequest.Some?;
      }
    }
  }

  /**
   * What a pass does to each player and to the buttons: only thinking players change, each to
   * thinking, throwing the dice or waiting and with its pigs kept; the buttons end up as the
   * last player handled allows; and a request stays pending only while its button is allowed.
   */
  lemma {:induction false} SyncOutcomeStates(s: SyncState, k: nat, len: nat)
    requires k <= |s.players|
    ensures var r := SyncUpTo(s, k, len);
      && (forall j :: 0 <= j < |s.players| && s.players[j].state != Thinking ==> r.players[j] == s.players[j])
      && (forall j :: 0 <= j < |s.players| && s.players[j].state == Thinking ==>
            r.players[j].state in {Thinking, ThrowingDice, Waiting} && r.players[j].pigCount == s.players[j].pigCount)
      && (k > 0 ==>
            && (r.rollAllowed <==> r.players[k - 1].state == Thinking)
            && (r.endAllowed <==> r.players[k - 1].state == Thinking && r.pos.number > 2 && r.players[k - 1].actionCount > 0))
      && ((s.rollRequest.Some? ==> s.rollAllowed) ==> (r.rollRequest.Some? ==> r.rollAllowed))
      && ((s.endRequest.Some? ==> s.endAllowed) ==> (r.endRequest.Some? ==> r.endAllowed))
  {
    if k > 0 {
      var i := k - 1;
      SyncOutcomeStates(s, i, len);
      SyncLeavesRestAlone(s, i, len);
    }
  }

  /**
   * `sync_interaction_model`: every player in turn; the buttons end up as the last player's
   * state allows, and a button stays consistent (a request only while allowed).
   */
  method SyncInteractionModel(players: array<Player>, rollDice: InteractionModel<()>, endTurn: InteractionModel<()>, turn: Turn)
    requires TurnReady(turn) && rollDice != endTurn
    requires rollDice.Valid() && endTurn.Valid()
    modifies players, rollDice, endTurn, turn
    ensures TurnReady(turn) && turn.playerOrder == old(turn.playerOrder)
    ensures rollDice.Valid() && endTurn.Valid()
    ensures forall j :: 0 <= j < players.Length && old(players[j]).state != Thinking ==> players[j] == old(players[j])
    ensures forall j :: 0 <= j < players.Length && old(players[j]).state == Thinking ==>
      players[j].state in {Thinking, ThrowingDice, Waiting} && players[j].pigCount == old(players[j].pigCount)
    ensures players.Length > 0 ==>
      var last := players[players.Length - 1];
      && (rollDice.isAllowed <==> last.state == Thinking)
      && (endTurn.isAllowed <==> last.state == Thinking && turn.number > 2 && last.actionCount > 0)
    ensures players.Length == 0 ==> rollDice.isAllowed == old(rollDice.isAllowed) && endTurn.isAllowed == old(endTurn.isAllowed)
    ensures SyncState(players[..], turn.Pos(), rollDice.isAllowed, rollDice.request, endTurn.isAllowed, endTurn.request)
      == SyncUpTo(SyncState(old(players[..]), old(turn.Pos()), old(rollDice.isAllowed), old(rollDice.request),
                            old(endTurn.isAllowed), old(endTurn.request)), players.Length, |turn.playerOrder|)
  {
    ghost var start := SyncState(players[..], turn.Pos(), rollDice.isAllowed, rollDice.request, endTurn.isAllowed, endTurn.request);
    var i := 0;
    while i < players.Length
      invariant 0 <= i <= players.Length
      invariant TurnReady(turn) && turn.playerOrder == old(turn.playerOrder)
      invariant SyncState(players[..], turn.Pos(), rollDice.isAllowed, rollDice.request, endTurn.isAllowed, endTurn.request)
        == SyncUpTo(start, i, |turn.playerOrder|)
    {
      SyncPlayer(players, i, rollDice, endTurn, turn);
      i := i + 1;
    }
    SyncOutcomeStates(start, i, |turn.playerOrder|);
  }

  // ---------------------------------------------------------------------------------------
  // Resuming and winning

  /**
   * `resume_turn`: the player on turn stops waiting. `entities[k]` is the entity of
   * `players[k]`; `found` is false where the source panics because no player has the
   * current entity, and then nothing changes.
   */
  method ResumeTurn(players: array<Player>, entities: seq<Entity>, turn: Turn) returns (found: bool)
    requires |entities| == players.Length && TurnReady(turn)
    modifies players
    ensures found <==> turn.GetCurrentPlayer() in entities
    ensures !found ==> players[..] == old(players[..])
    ensures found ==>
      var k := FirstIndexOf(entities, turn.GetCurrentPlayer()).value;
      players[..] == old(players[..])[k := if old(players[k]).state == Waiting then old(players[k]).(state := Thinking) else old(players[k])]
  {
    var k := FirstIndexOf(entities, turn.GetCurrentPlayer());
    if k.None? {
      return false;
    }
    if players[k.value].state == Waiting {
      players[k.value] := players[k.value].(state := Thinking);
    }
    return true;
  }

  /** Whether some player has placed all of their pigs. */
  predicate GameEnded(players: seq<Player>) {
    exists j :: 0 <= j < |players| && players[j].pigCount == 0
  }

  /** The state `check_win_condition` leaves a player in. */
  function WinState(p: Player, ended: bool): (s: PlayerState) {
    if p.pigCount == 0 then Won else if ended && p.state != Won then Lost else p.state
  }

  function WinOutcome(players: seq<Player>): (r: seq<Player>)
    ensures |r| == |players|
  {
    seq(|players|, k requires 0 <= k < |players| => players[k].(state := WinState(players[k], GameEnded(players))))
  }

  /**
   * Once a player has no pigs left, every player has either won or lost, and the winners
   * are exactly those without pigs and those who had already won; otherwise nothing changes.
   * Running the check again changes nothing.
   */
  lemma WinOutcomeSettles(players: seq<Player>)
    ensures var r := WinOutcome(players);
      GameEnded(players) ==> forall k :: 0 <= k < |r| ==>
        && r[k].state in {Won, Lost}
        && (r[k].state == Won <==> players[k].pigCount == 0 || players[k].state == Won)
    ensures !GameEnded(players) ==> WinOutcome(players) == players
    ensures WinOutcome(WinOutcome(players)) == WinOutcome(players)
  {
  }

  /** `check_win_condition`. */
  method CheckWinCondition(players: array<Player>)
    modifies players
    ensures players[..] == WinOutcome(old(players[..]))
  {
    var gameEnded := false;
    var i := 0;
    while i < players.Length
      invariant 0 <= i <= players.Length
      invariant gameEnded <==> GameEnded(old(players[..])[..i])
      invariant forall k :: 0 <= k < i ==>
        players[k] == if old(players[k]).pigCount == 0 then old(players[k]).(state := Won) else old(players[k])
      invariant forall k :: i <= k < players.Length ==> players[k] == old(players[k])
    {
      assert old(players[..])[..i + 1] == old(players[..])[..i] + [old(players[i])];
      if players[i].pigCount == 0 {
        players[i] := players[i].(state := Won);
        gameEnded := true;
      }
      i := i + 1;
    }
    assert old(players[..])[..i] == old(players[..]);
    if gameEnded {
      ghost var won := players[..];
      i := 0;
      while i < players.Length
        invariant 0 <= i <= players.Length
        invariant forall k :: 0 <= k < i ==> players[k] == WinOutcome(old(players[..]))[k]
        invariant forall k :: i <= k < players.Length ==> players[k] == won[k]
      {
        if players[i].state != Won {
          players[i] := players[i].(state := Lost);
        }
        i := i + 1;
      }
    }
  }
}
