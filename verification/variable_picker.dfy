/**
 * The tap-to-select state of the variable picker (docs/js/variable-picker.js).
 * A `Card` is a `.variable-card` element; a `Picker` holds the script's
 * module-level selection (`selectedVariable`, `selectedCard`) together with
 * the configuration of one `initVariablePicker` call. Browser events become
 * method calls, and every call of the `onDrop` callback is appended to `drops`.
 */
module VariablePicker {
  import opened Wrappers

  /** The `zoneType` each drop zone passes on. */
  datatype Zone = Predictor | Response

  /** A variable card: its `data-var`, whether it is dimmed, and what the script has done to it. */
  class Card {
    /** `card.dataset.var`; `None` when the attribute is missing. */
    const varName: Option<string>
    /** Whether the card had the `dimmed` class when it was set up. */
    const dimmed: bool
    /** The `selected` class. */
    var selected: bool
    /** `card.dataset.pickerSetup` */
    var pickerSetup: bool
    /** How many times the script has attached its event handlers to the card. */
    var handlers: nat

    constructor (varName: Option<string>, dimmed: bool)
      ensures this.varName == varName && this.dimmed == dimmed
      ensures !selected && !pickerSetup && handlers == 0
    {
      this.varName := varName;
      this.dimmed := dimmed;
      selected := false;
      pickerSetup := false;
      handlers := 0;
    }
  }

  class Picker {
    /** `isTouchDevice`: taps select and place; otherwise cards are dragged. */
    const touch: bool
    /** The optional `validateDrop(variable, zone)` callback. */
    const validate: Option<(string, Zone) -> bool>
    var selectedVariable: Option<string>
    var selectedCard: Card?
    /** The cards that have received handlers. */
    var cards: set<Card>
    /** The calls of `onDrop(variable, zone)` so far, oldest first. */
    var drops: seq<(string, Zone)>

    /** The selected card, if any, carries `selected` and supplies the selected variable. */
    ghost predicate Valid()
      reads this, selectedCard
    {
      (selectedCard == null ==> selectedVariable.None?)
      && (selectedCard != null ==> selectedCard in cards && selectedCard.selected && selectedVariable == selectedCard.varName)
    }

    /** Among the cards with handlers, exactly the selected card has the `selected` class. */
    ghost predicate OnlySelected()
      reads this, cards
    {
      forall c :: c in cards ==> (c.selected <==> c == selectedCard)
    }

    /** `!selectedVariable`: null, a missing `data-var` and the empty name all count as nothing selected. */
    predicate NoVariable()
      reads this
    {
      selectedVariable.None? || selectedVariable.value == ""
    }

    /** `!validateDrop || validateDrop(variable, zone)` */
    predicate Accepts(variable: string, zone: Zone)
      reads this
    {
      validate.None? || validate.value(variable, zone)
    }

    /** `initVariablePicker` before any card is set up: nothing selected, nothing dropped. */
    constructor (touch: bool, validate: Option<(string, Zone) -> bool>)
      ensures this.touch == touch && this.validate == validate
      ensures selectedVariable.None? && selectedCard == null && cards == {} && drops == []
      ensures Valid() && OnlySelected()
    {
      this.touch := touch;
      this.validate := validate;
      selectedVariable := None;
      selectedCard := null;
      cards := {};
      drops := [];
    }

    /** `clearSelection()`: both fields become null and the previous card loses `selected`. */
    method ClearSelection()
      requires Valid()
      modifies this, selectedCard
      ensures Valid()
      ensures selectedVariable.None? && selectedCard == null
      ensures old(selectedCard) != null ==> !old(selectedCard).selected
      ensures cards == old(cards) && drops == old(drops)
      ensures old(OnlySelected()) ==> forall c :: c in cards ==> !c.selected
      ensures forall c :: c in cards ==> c.pickerSetup == old(c.pickerSetup) && c.handlers == old(c.handlers)
    {
      if selectedCard != null {
        selectedCard.selected := false;
      }
      selectedVariable := None;
      selectedCard := null;
    }

    /**
     * `setupVariableCards(pool)`: each card not yet marked is marked; dimmed
     * cards get nothing more, the others get the handlers of the current mode.
     */
    method SetupVariableCards(pool: seq<Card>)
      requires Valid()
      modifies this, set c | c in pool
      ensures Valid()
      ensures selectedVariable == old(selectedVariable) && selectedCard == old(selectedCard) && drops == old(drops)
      ensures forall c :: c in pool ==> c.pickerSetup && c.selected == old(c.selected)
      ensures forall c :: c in pool ==> c.handlers == old(c.handlers) + (if old(c.pickerSetup) || c.dimmed then 0 else 1)
      ensures cards == old(cards) + set c | c in pool && !old(c.pickerSetup) && !c.dimmed
    {
      var i := 0;
      while i < |pool|
        invariant i <= |pool|
        invariant Valid()
        invariant selectedVariable == old(selectedVariable) && selectedCard == old(selectedCard) && drops == old(drops)
        invariant forall c :: c in pool ==> c.selected == old(c.selected)
        invariant forall c :: c in pool[..i] ==> c.pickerSetup
        invariant forall c :: c in pool[..i] ==> c.handlers == old(c.handlers) + (if old(c.pickerSetup) || c.dimmed then 0 else 1)
        invariant forall c :: c in pool && c !in pool[..i] ==> c.pickerSetup == old(c.pickerSetup) && c.handlers == old(c.handlers)
        invariant cards == old(cards) + set c | c in pool[..i] && !old(c.pickerSetup) && !c.dimmed
      {
        var card := pool[i];
        assert pool[..i + 1] == pool[..i] + [card];
        if !card.pickerSetup {
          card.pickerSetup := true;
          if !card.dimmed {
            card.handlers := card.handlers + 1;
            cards := cards + {card};
          }
        }
        i := i + 1;
      }
      assert pool[..i] == pool;
    }

    /**
     * A tap on a card in touch mode: the selected card is deselected; any
     * other card replaces the selection.
     */
    method TapCard(card: Card)
      requires touch && card in cards
      requires Valid()
      modifies this, card, selectedCard
      ensures Valid()
      ensures old(selectedCard) == card ==> selectedCard == null && selectedVariable.None? && !card.selected
      ensures old(selectedCard) != card ==> selectedCard == card && selectedVariable == card.varName && card.selected
      ensures old(selectedCard) != card && old(selectedCard) != null ==> !old(selectedCard).selected
      ensures cards == old(cards) && drops == old(drops)
      ensures old(OnlySelected()) ==> OnlySelected()
      ensures forall c :: c in cards ==> c.pickerSetup == old(c.pickerSetup) && c.handlers == old(c.handlers)
    {
      if selectedCard == card {
        ClearSelection();
        return;
      }
      ClearSelection();
      selectedVariable := card.varName;
      selectedCard := card;
      card.selected := true;
    }

    /**
     * A tap on a drop zone in touch mode. With no variable selected nothing
     * happens; otherwise the selection is cleared and `onDrop` is called with
     * the selected variable when `validateDrop` accepts it.
     */
    method TapZone(zone: Zone)
      requires touch
      requires Valid()
      modifies this, selectedCard
      ensures Valid() && cards == old(cards)
      ensures old(NoVariable()) ==> selectedVariable == old(selectedVariable) && selectedCard == old(selectedCard) && drops == old(drops)
      ensures old(NoVariable()) && old(selectedCard) != null ==> old(selectedCard).selected
      ensures !old(NoVariable()) ==> selectedVariable.None? && selectedCard == null
      ensures !old(NoVariable()) && old(selectedCard) != null ==> !old(selectedCard).selected
      ensures !old(NoVariable()) ==>
        var v := old(selectedVariable).value;
        drops == old(drops) + (if Accepts(v, zone) then [(v, zone)] else [])
      ensures forall c :: c in cards ==> c.pickerSetup == old(c.pickerSetup) && c.handlers == old(c.handlers)
    {
      if selectedVariable.None? || selectedVariable.value == "" {
        return;
      }
      var v := selectedVariable.value;
      if validate.Some? && !validate.value(v, zone) {
        ClearSelection();
        return;
      }
      ClearSelection();
      drops := drops + [(v, zone)];
    }

    /** A drop of a dragged card on a zone on a desktop: `onDrop` only when `validateDrop` is absent or accepts. */
    method DesktopDrop(variable: string, zone: Zone)
      requires !touch
      modifies this
      ensures selectedVariable == old(selectedVariable) && selectedCard == old(selectedCard) && cards == old(cards)
      ensures drops == old(drops) + (if Accepts(variable, zone) then [(variable, zone)] else [])
    {
      if validate.Some? && !validate.value(variable, zone) {
        return;
      }
      drops := drops + [(variable, zone)];
    }
  }
}
