/** The in-game menu of src/ingame_menu.rs: the allow/deny/request gate behind each button, and the button's view model. */
module IngameMenu {
  import opened Wrappers

  /** `InteractionModel<T>`: whether an interaction is allowed and the request it is holding. */
  class InteractionModel<T> {
    var isAllowed: bool
    var request: Option<T>

    /** A pending request implies the interaction is allowed. */
    ghost predicate Valid()
      reads this
    {
      request.Some? ==> isAllowed
    }

    /** `InteractionModel::default`: not allowed, nothing requested. */
    constructor ()
      ensures Valid() && !isAllowed && request == None
    {
      isAllowed := false;
      request := None;
    }

    /** `interact`: records the request only while the interaction is allowed. */
    method Interact(value: T)
      modifies this
      ensures isAllowed == old(isAllowed)
      ensures request == if old(isAllowed) then Some(value) else old(request)
      ensures old(Valid()) ==> Valid()
    {
      if isAllowed {
        request := Some(value);
      }
    }

    /** `allow`: permits the interaction and keeps any pending request. */
    method Allow()
      modifies this
      ensures isAllowed && request == old(request)
      ensures Valid()
    {
      isAllowed := true;
    }

    /** `deny`: forbids the interaction and drops any pending request. */
    method Deny()
      modifies this
      ensures !isAllowed && request == None
      ensures Valid()
    {
      isAllowed := false;
      request := None;
    }

    /** `is_allowed`: a pending request implies the interaction is allowed. */
    function IsAllowed(): (b: bool)
      reads this
      ensures Valid() && request.Some? ==> b
    {
      isAllowed
    }

    /** `get_interaction`: a copy of the pending request; reading does not consume it. */
    function GetInteraction(): (r: Option<T>)
      reads this
      ensures Valid() && r.Some? ==> IsAllowed()
    {
      request
    }
  }

  /** `ButtonViewModel`: what one button shows. */
  class ButtonViewModel {
    var isEnabled: bool
    var isHovered: bool
    var text: string

    /** `ButtonViewModel::default` with the given label: enabled and not hovered. */
    constructor (text: string)
      ensures isEnabled && !isHovered && this.text == text
    {
      isEnabled := true;
      isHovered := false;
      this.text := text;
    }
  }

  /** `ViewModel`: the dice-roll and end-turn buttons and the info text. */
  class ViewModel {
    const diceRollButton: ButtonViewModel
    const endTurnButton: ButtonViewModel
    var infoTextLines: seq<string>

    /** `ViewModel::default`. */
    constructor ()
      ensures fresh(diceRollButton) && fresh(endTurnButton)
      ensures diceRollButton.text == "Roll Dice" && endTurnButton.text == "End Turn"
      ensures diceRollButton.isEnabled && !diceRollButton.isHovered
      ensures endTurnButton.isEnabled && !endTurnButton.isHovered
      ensures infoTextLines == []
    {
      diceRollButton := new ButtonViewModel("Roll Dice");
      endTurnButton := new ButtonViewModel("End Turn");
      infoTextLines := [];
    }
  }

  /** The engine's `Interaction` of a button; `Idle` is its `Interaction::None`. */
  datatype Interaction = Clicked | Hovered | Idle

  /** The hover flag after a run of interaction events, starting from `hovered`: the last hover or idle event decides. */
  function HoverAfter(events: seq<Interaction>, hovered: bool): (h: bool)
  {
    if events == [] then hovered
    else match events[|events| - 1]
      case Clicked => HoverAfter(events[..|events| - 1], hovered)
      case Hovered => true
      case Idle => false
  }

  /** Handling the events of two frames one after the other is the same as handling them all at once. */
  lemma {:induction false} HoverAfterSplit(first: seq<Interaction>, second: seq<Interaction>, hovered: bool)
    ensures HoverAfter(first + second, hovered) == HoverAfter(second, HoverAfter(first, hovered))
    decreases |second|
  {
    if second == [] {
      assert first + second == first;
    } else {
      var last := |second| - 1;
      assert (first + second)[..|first + second| - 1] == first + second[..last];
      HoverAfterSplit(first, second[..last], hovered);
    }
  }

  /** `handle_button_interaction`: a click requests the interaction, hovering and leaving set the hover flag. */
  method HandleButtonInteraction(events: seq<Interaction>, view: ButtonViewModel, model: InteractionModel<()>)
    modifies view, model
    ensures view.isHovered == HoverAfter(events, old(view.isHovered))
    ensures view.isEnabled == old(view.isEnabled) && view.text == old(view.text)
    ensures model.isAllowed == old(model.isAllowed)
    ensures model.request == if old(model.isAllowed) && Clicked in events then Some(()) else old(model.request)
  {
    var i := 0;
    while i < |events|
      invariant 0 <= i <= |events|
      invariant view.isHovered == HoverAfter(events[..i], old(view.isHovered))
      invariant view.isEnabled == old(view.isEnabled) && view.text == old(view.text)
      invariant model.isAllowed == old(model.isAllowed)
      invariant model.request == if old(model.isAllowed) && Clicked in events[..i] then Some(()) else old(model.request)
    {
      assert events[..i + 1][..i] == events[..i];
      match events[i] {
        case Clicked => model.Interact(());
        case Hovered => view.isHovered := true;
        case Idle => view.isHovered := false;
      }
      i := i + 1;
    }
    assert events[..i] == events;
  }

  /** `sync_interaction_model` of the menu: each button is enabled exactly when its interaction is allowed. */
  method SyncInteractionModel(rollDice: InteractionModel<()>, endTurn: InteractionModel<()>, view: ViewModel)
    requires view.diceRollButton != view.endTurnButton
    modifies view.diceRollButton, view.endTurnButton
    ensures view.diceRollButton.isEnabled == rollDice.IsAllowed()
    ensures view.endTurnButton.isEnabled == endTurn.IsAllowed()
    ensures view.diceRollButton.isHovered == old(view.diceRollButton.isHovered)
    ensures view.endTurnButton.isHovered == old(view.endTurnButton.isHovered)
    ensures view.diceRollButton.text == old(view.diceRollButton.text)
    ensures view.endTurnButton.text == old(view.endTurnButton.text)
  {
    view.diceRollButton.isEnabled := rollDice.IsAllowed();
    view.endTurnButton.isEnabled := endTurn.IsAllowed();
  }

  /** The three colours of `ButtonColors`. */
  datatype ButtonColor = NormalColor | InactiveColor | HoveredColor

  /** The colour `present_button` gives a button. */
  function ColorFor(isEnabled: bool, isHovered: bool): (c: ButtonColor)
    ensures c == InactiveColor <==> !isEnabled
    ensures c == HoveredColor <==> isEnabled && isHovered
    ensures c == NormalColor <==> isEnabled && !isHovered
  {
    if isEnabled then
      if isHovered then HoveredColor else NormalColor
    else InactiveColor
  }
}
