# pig-hole in Dafny

pig-hole is a multiplayer dice game written in Rust on the Bevy engine. Players take turns
rolling a die. The board of `src/board.rs` has one trough for the "pig hole", mould 6.1, and
mounds 2 to 5 with as many troughs as their number; its mound 1 gets no mould id. A player
whose rolled group has a free trough places a pig there. A player whose rolled group is full
collects all of that group's pigs. The first player with no pigs left wins. Clients connect
to a game server through a matchmaker. The connect token carries the player's name and lobby
in a 256-byte user-data block.

This project models the logic core of the game and proves properties of the model:

- **`SharedModels`** (`shared-models/src/lib.rs`) covers the `ConnectionData` record of
  username and lobby name:
  - its validating constructor;
  - its byte encoding into the user-data block, as a method over a zero-initialised array;
  - its decoding.

  Strings are UTF-8 byte sequences, checked against the well-formedness table of Unicode
  (Table 3-7, in `Utf8`). The round trip is proved for every valid record. So are the byte
  layout and the test cases, including the emoji strings.
- **`PigHoleTurn`** (`pig-hole/src/turn.rs`) covers the `Turn` resource: the player order,
  the current player's index, the turn number and the minimum number of actions. Several
  advances of the rotation are described by the functions `Next` and `Advance`.
- **`PigHolePlayer`** (`pig-hole/src/player.rs`) covers the player systems:
  - selecting pigs to place or collect, with placement and removal ghosts;
  - ending a turn and throwing the dice;
  - keeping the roll-dice and end-turn buttons in step with the player's state;
  - resuming the current player's turn;
  - the win rule.

  The pig and player queries are arrays, and the `Turn` resource is a class instance.
- **`IngameMenu`** (`src/ingame_menu.rs`) covers:
  - the `InteractionModel` behind each button;
  - the button view model;
  - the handling of button interaction events;
  - the colour a button is drawn in.
- **`PigHoleCollection`** (`pig-hole/src/pig_collection.rs`) covers the side-board pig
  collections. Their `modify_by` delta grows or shrinks the list of pig entities. `Ecs`
  supplies fresh entity ids.
- **`EarlyPlayer`** (`src/player.rs`) covers the earlier single-rule player: select a trough,
  place a pig, then throw the dice.
- **`Board`** (`src/board.rs`) covers the guarded `MouldId` constructor and the moulds the
  board is built from.
- **`Search`** covers `find_mut_pig`, shared by both player modules: the first element equal
  to a needle.

## Model

| member | source | states |
|---|---|---|
| SharedModels.LayoutConstants | shared-models/src/lib.rs:22-28 | a header part is 1 byte, the header 2 bytes and a data part 127 bytes; the header and both parts fit in the 256-byte block |
| SharedModels.DataPartFitsSlot | shared-models/src/lib.rs:30-32 | a data part is valid exactly when it fits its slot: the username ends before the lobby slot, the lobby within the 256-byte block |
| SharedModels.TryNew | shared-models/src/lib.rs:30-44 | None exactly when either field is longer than 127 bytes; otherwise both strings are stored verbatim and the record is valid |
| SharedModels.UserData | shared-models/src/lib.rs:46-64 | the encoding is always exactly 256 bytes, for every record, valid or not |
| SharedModels.WriteSlice | shared-models/src/lib.rs:57-62 | writing into a slice of the buffer stores the bytes that fit, reports how many, and leaves the rest of the buffer unchanged |
| SharedModels.ToNetcodeUserData | shared-models/src/lib.rs:46-64 | the zero-initialised array, after the two header writes and the two slot writes, holds exactly the encoding, 256 bytes long |
| SharedModels.UserDataLayout | shared-models/src/lib.rs:47-62 | for a valid record: byte 0 is the username length and byte 1 the lobby length; the username is at offset 2 and the lobby at offset 129; every other byte is 0 |
| SharedModels.FromUserData | shared-models/src/lib.rs:66-84 | decoding succeeds exactly when both header lengths keep their slices inside the block and both slices are UTF-8; the username is then the slice at offset 2 and the lobby the slice at offset 129, each as long as its header byte |
| SharedModels.RoundTrip | shared-models/src/lib.rs:66-84 | decoding the encoding of any valid record gives back that record |
| SharedModels.EncodeAfterDecode | shared-models/src/lib.rs:46-84 | a zero-padded block with in-range lengths that decodes is valid and re-encodes to the same bytes |
| SharedModels.OversizedUsernameDecodes | shared-models/src/lib.rs:76-78 | a block whose username length is 128 decodes, to a record that the constructor would have refused |
| SharedModels.FromUserDataChecked | shared-models/src/lib.rs:66-84 | the decoder with the length guard: any length above 127 is refused, and every result is valid and agrees with the decoder as written |
| SharedModels.CheckedDecoderAgrees | shared-models/src/lib.rs:66-84 | the checked decoder is the decoder as written restricted to valid results, and round-trips every valid record |
| SharedModels.PlainDataCases | shared-models/src/lib.rs:91-117 | ("username", "lobby") is accepted, encodes to 256 bytes and round-trips |
| SharedModels.LongUsernameRejected | shared-models/src/lib.rs:97-102 | a username of 300 bytes "a" is refused |
| SharedModels.WeirdDataCase | shared-models/src/lib.rs:119-133 | the emoji username and lobby are well-formed UTF-8, are accepted and round-trip |
| PigHoleTurn.Turn.constructor | pig-hole/src/turn.rs:32-38 | a new turn is turn 1 with the first player current and the given order kept |
| PigHoleTurn.Turn.GetMinActions | pig-hole/src/turn.rs:39-45 | Some(n) exactly for turns 1 and 2, None from turn 3 on |
| PigHoleTurn.Turn.StartNextPlayersTurn | pig-hole/src/turn.rs:47-54 | the index moves on by one and wraps to 0, which increments the number; the order is unchanged, the index stays in range and the new current player is returned |
| PigHoleTurn.Turn.GetTurnNumber | pig-hole/src/turn.rs:60-62 | turns are counted from 1, so a valid turn never reports 0 |
| PigHoleTurn.Turn.GetCurrentPlayer | pig-hole/src/turn.rs:56-58 | the current player is a member of the player order |
| PigHoleTurn.AdvanceCompose | pig-hole/src/turn.rs:47-54 | advancing a+b times is advancing a times, then b times |
| PigHoleTurn.AdvanceWithinTurn | pig-hole/src/turn.rs:47-54 | advances that stay before the end of the order only move the index |
| PigHoleTurn.FullRound | pig-hole/src/turn.rs:47-54 | after as many advances as there are players, the same player is current and the number is one higher |
| PigHoleTurn.AdvanceInRange | pig-hole/src/turn.rs:47-54 | any number of advances keeps the index in range and never decreases the turn number |
| PigHolePlayer.PlacementTarget | pig-hole/src/player.rs:199-205 | the pig acted on is the first equal to the needle, and there is one exactly when the needle is on the board and `is_valid_for_placement` holds for it (right group, not occupied) |
| PigHolePlayer.ClearedGhostsEffect | pig-hole/src/player.rs:207-215 | clearing maps placement ghosts to empty and removal ghosts to occupied; it keeps other statuses and every trough, leaves no ghost, and is idempotent |
| PigHolePlayer.ClearGhosts | pig-hole/src/player.rs:207-215 | the loop leaves exactly the cleared board |
| PigHolePlayer.ClearedGhostsExceptEffect | pig-hole/src/player.rs:217-224 | afterwards only the excepted trough holds placement ghosts; the only change is a placement ghost becoming empty; pigs in the excepted trough are untouched |
| PigHolePlayer.ClearGhostsExcept | pig-hole/src/player.rs:217-224 | the loop leaves exactly the board with the other troughs' placement ghosts emptied |
| PigHolePlayer.IsGroupFull | pig-hole/src/player.rs:190-197 | true exactly when every pig of the group is occupied |
| PigHolePlayer.RolledState | pig-hole/src/player.rs:179-183 | the roll leads to collecting the group exactly when it is full, and otherwise to placing in it |
| PigHolePlayer.ThrowDice | pig-hole/src/player.rs:173-188 | every player throwing the dice moves to the state its roll leads to; other players are unchanged |
| PigHolePlayer.EndTurn | pig-hole/src/player.rs:167-171 | the player's action count becomes 0 and it waits; the turn advances exactly once |
| PigHolePlayer.SetGroupStatus | pig-hole/src/player.rs:134-135 | every pig of the group gets the status and no other pig changes |
| PigHolePlayer.AdjustCollections | pig-hole/src/player.rs:112-114 | every collection's pending delta moves by the amount and its pig list is untouched (also lines 141-143) |
| PigHolePlayer.PlaceSelected | pig-hole/src/player.rs:99-115 | the pig is occupied and ghosts are cleared; one action is counted; the pig count drops by one, saturating at 0; every collection's delta drops by one; the player thinks again, unless the minimum is reached, when the turn ends |
| PigHolePlayer.SelectWhilePlacing | pig-hole/src/player.rs:95-128 | a click on a valid pig places it and any other click changes nothing; a hover ghosts a valid pig and clears the other troughs' placement ghosts; with neither, all ghosts are cleared |
| PigHolePlayer.CountInGroupZero | pig-hole/src/player.rs:134-137 | the number of pigs the collecting loop visits is zero exactly when no pig belongs to the group |
| PigHolePlayer.CollectSelectedAsWritten | pig-hole/src/player.rs:130-143 | the group is emptied, but the turn advances once per pig of the group; the pig count grows by the group number and so does each collection's delta; with no pig in the group the player's state and action count are unchanged |
| PigHolePlayer.CollectingTwoPigsSkipsOpponent | pig-hole/src/player.rs:134-137 | with two players and a group of two pigs, the as-written advance leaves the collector on turn, where advancing once would pass the turn on |
| PigHolePlayer.CollectSelected | pig-hole/src/player.rs:130-143 | the group is emptied and the turn advances exactly once; the player waits with the group's pigs added, saturating; each collection's delta grows by the group number |
| PigHolePlayer.SelectWhileCollecting | pig-hole/src/player.rs:129-161 | a click or hover outside the group stops the system and changes nothing; a click in it collects the group; a hover in it marks the group for removal; with neither, all ghosts are cleared |
| PigHolePlayer.SelectPig | pig-hole/src/player.rs:86-165 | only players that are placing or collecting change; the turn stays valid with the same order; the collections' pig lists are untouched |
| PigHolePlayer.SyncPlayer | pig-hole/src/player.rs:231-256 | a roll request sends a thinking player to the dice, and an end-turn request ends a thinking player's turn; roll is then allowed exactly while thinking, and end turn while thinking with no minimum and at least one action; a denied button loses its request |
| PigHolePlayer.DefaultPlayerMayOnlyRoll | pig-hole/src/player.rs:25-33 | a default player, with no request pending, is left as it is, may roll the dice and may not end its turn |
| PigHolePlayer.SyncRollsOnce | pig-hole/src/player.rs:231-256 | in one pass at most one thinking player takes a roll request, after which no roll request is pending |
| PigHolePlayer.SyncEndsOnce | pig-hole/src/player.rs:231-256 | in one pass at most one thinking player's turn is ended; the turn advances once if that happens and not at all otherwise |
| PigHolePlayer.SyncOutcomeStates | pig-hole/src/player.rs:231-256 | only thinking players change, each to thinking, the dice or waiting with its pigs kept; the buttons end as the last player allows; a request stays only on an allowed button |
| PigHolePlayer.SyncInteractionModel | pig-hole/src/player.rs:226-258 | the players, the turn and both buttons end exactly as handling each player in order does; hence only thinking players change, the buttons follow the last player, and a request stays only on an allowed button |
| PigHolePlayer.ResumeTurn | pig-hole/src/player.rs:260-267 | the current player, found by its entity, stops waiting and nothing else changes; a missing current player is reported |
| PigHolePlayer.WinOutcomeSettles | pig-hole/src/player.rs:269-284 | once a player has no pigs, every player has won or lost, and the winners are those without pigs and those who had already won; otherwise nothing changes; the rule is idempotent |
| PigHolePlayer.CheckWinCondition | pig-hole/src/player.rs:269-284 | the two loops leave exactly the outcome of the win rule |
| Search.FirstIndexOf | pig-hole/src/player.rs:199-201 | the index found holds the needle and no earlier element does; none exactly when the needle is absent |
| Search.FindFirst | pig-hole/src/player.rs:199-201 | the search over the array stops at the first match, as specified |
| Search.FirstIndexIsUnique | pig-hole/src/player.rs:199-201 | the first occurrence is determined by the sequence: any index holding the needle with none before it is the one found |
| IngameMenu.InteractionModel.constructor | src/ingame_menu.rs:62-66 | a new model is not allowed and has no request |
| IngameMenu.InteractionModel.Interact | src/ingame_menu.rs:68-72 | the value becomes the request only while allowed; the allowed flag is unchanged and the invariant is kept |
| IngameMenu.InteractionModel.Allow | src/ingame_menu.rs:74-76 | allowed, with the request unchanged |
| IngameMenu.InteractionModel.Deny | src/ingame_menu.rs:78-81 | not allowed, with no request |
| IngameMenu.InteractionModel.IsAllowed | src/ingame_menu.rs:83-85 | a pending request implies the interaction is allowed |
| IngameMenu.InteractionModel.GetInteraction | src/ingame_menu.rs:87-89 | reading does not consume the request, and a pending request implies allowed |
| IngameMenu.ButtonViewModel.constructor | src/ingame_menu.rs:52-60 | a button starts enabled and not hovered |
| IngameMenu.ViewModel.constructor | src/ingame_menu.rs:36-50 | two separate buttons labelled "Roll Dice" and "End Turn" and no info lines |
| IngameMenu.HoverAfterSplit | src/ingame_menu.rs:287-293 | handling two batches of events is handling the first, then the second |
| IngameMenu.HandleButtonInteraction | src/ingame_menu.rs:279-294 | the hover flag follows the last hover event; a click makes a request only while allowed; the text, the enabled flag and the allowed flag stay |
| IngameMenu.SyncInteractionModel | src/ingame_menu.rs:202-208 | each button is enabled exactly when its model allows it; hover flags and labels are unchanged |
| IngameMenu.ColorFor | src/ingame_menu.rs:245-255 | inactive exactly when disabled, hovered exactly when enabled and hovered, normal otherwise |
| PigHoleCollection.PigCollection.Update | pig-hole/src/pig_collection.rs:26-47 | the delta is reset to 0; a positive delta appends that many fresh entities and a negative one drops that many from the end; the prefix is kept and fresh ids stay above all held ones |
| PigHoleCollection.UpdatePigCollections | pig-hole/src/pig_collection.rs:21-49 | every delta is reset; a negative one drops that many pigs from the end; a positive one appends consecutive ids, collection after collection from the allocator's counter, which ends past the last; ids older than the counter stay older |
| PigHoleCollection.SpawnRangesDisjoint | pig-hole/src/pig_collection.rs:26-38 | the id ranges handed to the collections lie end to end, so no id is spawned for two collections |
| PigHoleCollection.SpawnedAreNew | pig-hole/src/pig_collection.rs:33-36 | spawned entities are distinct and differ from every entity already held |
| PigHoleCollection.NthPigCell | pig-hole/src/pig_collection.rs:68-69 | the n-th pig is in column n/2 and row n mod 2 |
| Ecs.EntityAllocator.Spawn | pig-hole/src/pig_collection.rs:34-36 | each spawned entity gets the next unused id |
| EarlyPlayer.PlacementTarget | src/player.rs:94-100 | the pig acted on is the first equal to the needle, and there is one exactly when the needle is on the board and `is_valid_for_placement` holds for it |
| EarlyPlayer.ClearGhosts | src/player.rs:102-109 | every ghost becomes empty and nothing else changes |
| EarlyPlayer.ClearGhostsExcept | src/player.rs:111-118 | every ghost outside the excepted trough becomes empty and nothing else changes |
| EarlyPlayer.PlaceOutcomeEffects | src/player.rs:62-92 | a player throwing the dice changes nothing; a valid selection occupies the pig, moves the player to the dice and empties every ghost; a hover ghosts the valid hovered pig and empties the ghosts of other troughs; with neither, every ghost is emptied; every other pig is unchanged |
| EarlyPlayer.SelectionMovesOn | src/player.rs:68-76 | a selecting player moves on to the dice exactly when the clicked trough is on the board and valid for placement (lines 98-100) |
| EarlyPlayer.NewPlayerPlacesInTroughThree | src/player.rs:53-60 | a newly spawned player can only place its pig in outer trough 3 |
| EarlyPlayer.PlaceForPlayer | src/player.rs:68-90 | one player's handling leaves the board and the player as the outcome describes |
| EarlyPlayer.SystemOutcome | src/player.rs:62-92 | handling the players in order keeps the board and player counts, and changes nothing when every player is throwing the dice |
| EarlyPlayer.SystemOutcomeStates | src/player.rs:67-91 | over a frame, each player either keeps its state or moves from selecting to the dice |
| EarlyPlayer.PlacePig | src/player.rs:62-92 | the system leaves the board and the players as handling each player in order does |
| Board.NewMouldId | src/board.rs:16-27 | fails exactly when inner > outer or outer > 6; otherwise stores both unchanged |
| Board.LessIsStrictTotalOrder | src/board.rs:10-14 | the derived order, outer first and then inner, is a strict total order |
| Board.BoardMouldsAreValid | src/board.rs:81-216 | every mould the board is built from passes both guards |

## Left out

- Network I/O, the matchmaker's HTTP and Redis lobby handling, connect-token generation,
  crypto keys, clocks and UUIDs are not modelled. Neither are the client/server demo,
  rendering, assets, cameras and the menu screens.
- The capacity of the user-data block, 256 bytes, is the renet library's
  `NETCODE_USER_DATA_BYTES`. That library is not part of this model, and the value is
  written in as a constant.
- matchmaker/src/server_connection.rs:18 unwraps `try_new`, so an oversized name panics
  there. pig-hole/src/networking.rs:77-80 builds a `ConnectionData` directly, without the
  length check. Neither caller is modelled.
- The encoder takes `as u8` truncation and the short write into a fixed slice as the source
  performs them. A panic of the decoder is the result `None`: a slice out of range, or the
  `unwrap` of the UTF-8 check.
- Usizes, and the i32 `modify_by`, are unbounded integers. The overflow panics of debug builds
  are not modelled. The u32 pig count is modelled with its saturating operations.
- The `Pig`, `PigStatus` and `Trough` types, and `Pig::is_occupied`, are defined in a board
  module of the later game that is not part of this model. The statuses are those the player
  systems use. Occupancy is a parameter, `occupied`. A trough is its group plus an opaque
  slot for the rest of its identity.
- The random dice roll is a parameter, one value from 1 to 6 per player.
- Bevy's ECS is modelled as follows:
  - a query is an array iterated in index order;
  - despawn commands, parenting and `Name` components are not modelled;
  - entity ids come from a counter.

  The floating-point translation of the n-th pig is reduced to its integer column and row.
- The `Display` implementations, the info text of the menu, and the text copied into a
  button by `present_button` are not modelled.
- PigHolePlayer.SelectPig: the contract states the frame (who may change) but not the
  combined effect of several players acting on one board in one frame. Each player's effect
  is stated in full by SelectWhilePlacing and SelectWhileCollecting. The corrected
  collecting arm is used.
- PigHolePlayer.ResumeTurn: where the source panics because no player has the current
  entity, the model reports `false` and changes nothing.
- PigHoleTurn.Turn.GetCurrentPlayer: requires a non-empty order with the index in range.
  The source panics on an empty order, which the model excludes.
- PigHoleTurn.Turn.StartNextPlayersTurn: requires a non-empty order for the same reason.
- PigHoleTurn.Turn.GetMinActions: requires a turn number other than 0. The source panics on
  turn 0, which the turn invariant rules out.
- PigHoleCollection.PigCollection.Update: requires that a negative delta removes no more
  pigs than the collection holds. The source underflows or panics otherwise.
- PigHoleCollection.UpdatePigCollections: has the same requirement for every collection.

## Findings

| source | as written | input that shows it | evidently intended | confidence | as-written member | corrected member |
|---|---|---|---|---|---|---|
| shared-models/src/lib.rs:76-78 | the username slice is read with the header length unchecked (SharedModels.FromUserData); lengths 128 to 254 stay inside the 256-byte block and run into the lobby slot | header [128, 0], then 128 bytes "a", then zeros: it decodes to a 128-byte username, which `try_new` refuses and the encoder truncates | refuse a header length above 127, as `try_new` does | not executed | SharedModels.OversizedUsernameDecodes | SharedModels.FromUserDataChecked |
| pig-hole/src/player.rs:134-137 | `end_turn` is called inside the loop over the collected group, once per pig (PigHolePlayer.CollectSelectedAsWritten) | two players, collecting group 2 with both of its pigs occupied: the turn advances twice and the collector is on turn again | end the collector's turn once, after the group is emptied | not executed | PigHolePlayer.CollectingTwoPigsSkipsOpponent | PigHolePlayer.CollectSelected |
