/** How the widget shows its history: each entry becomes one view, chosen by the first
    of its fields that is truthy, in the order text, buttons, component. An entry with
    none of them shows nothing. */
module Render {
  import opened Js
  import opened History

  /** One rendered button: it shows `button.title`, and its click handler remembers the
      position `owner` its entry had when the history was rendered. */
  datatype ButtonView = ButtonView(owner: int, button: Button)

  datatype View =
    | TextView(direction: Direction, text: string)
    | ButtonsView(buttons: seq<ButtonView>)
    | ComponentView(component: Component)
    | Blank

  /** The view of entry `e` at position `idx`. Text wins whenever it is truthy, even if
      the entry also has buttons or a component; buttons win over a component; the
      buttons view shows every button in order, each tied to `idx`. */
  function Classify(e: Entry, idx: int): (v: View)
    ensures v.TextView? <==> Truthy(e.text)
    ensures v.ButtonsView? <==> !Truthy(e.text) && e.buttons.Defined?
    ensures v.ComponentView? <==> !Truthy(e.text) && e.buttons.Undefined? && e.component.Defined?
    ensures v.Blank? <==> !Truthy(e.text) && e.buttons.Undefined? && e.component.Undefined?
    ensures v.TextView? ==> v.direction == e.direction && Defined(v.text) == e.text
    ensures v.ButtonsView? ==>
              |v.buttons| == |e.buttons.value| &&
              forall k :: 0 <= k < |v.buttons| ==>
                v.buttons[k] == ButtonView(idx, e.buttons.value[k])
    ensures v.ComponentView? ==> Defined(v.component) == e.component
  {
    if Truthy(e.text) then TextView(e.direction, e.text.value)
    else if e.buttons.Defined? then
      ButtonsView(seq(|e.buttons.value|, k requires 0 <= k < |e.buttons.value| =>
                        ButtonView(idx, e.buttons.value[k])))
    else if e.component.Defined? then ComponentView(e.component.value)
    else Blank
  }

  /** `msgHistory.map(...)`: one view per entry, in history order. */
  function RenderHistory(h: History): (vs: seq<View>)
    ensures |vs| == |h|
  {
    seq(|h|, i requires 0 <= i < |h| => Classify(h[i], i))
  }

  /** `b` is one of the buttons on screen for history `h`. */
  predicate OnScreen(h: History, b: ButtonView) {
    exists i, k :: 0 <= i < |h| && RenderHistory(h)[i].ButtonsView? &&
      0 <= k < |RenderHistory(h)[i].buttons| && RenderHistory(h)[i].buttons[k] == b
  }

  /** A button on screen belongs to an entry inside the history that shows as buttons,
      and that entry really offers that button. */
  lemma OnScreenOwner(h: History, b: ButtonView)
    requires OnScreen(h, b)
    ensures 0 <= b.owner < |h|
    ensures !Truthy(h[b.owner].text) && h[b.owner].buttons.Defined?
    ensures b.button in h[b.owner].buttons.value
  {
    var i, k :| 0 <= i < |h| && RenderHistory(h)[i].ButtonsView? &&
      0 <= k < |RenderHistory(h)[i].buttons| && RenderHistory(h)[i].buttons[k] == b;
    assert b == ButtonView(i, h[i].buttons.value[k]);
  }

  /** Every button an entry offers is on screen, tied to that entry's position. */
  lemma ButtonsAreOnScreen(h: History, i: int, k: int)
    requires 0 <= i < |h| && !Truthy(h[i].text) && h[i].buttons.Defined?
    requires 0 <= k < |h[i].buttons.value|
    ensures OnScreen(h, ButtonView(i, h[i].buttons.value[k]))
  {
    assert RenderHistory(h)[i].buttons[k] == ButtonView(i, h[i].buttons.value[k]);
  }

  /** Pushing an entry leaves every existing view as it was and adds the new entry's
      view at the end. */
  lemma RenderAfterPush(h: History, m: Msg, now: int)
    ensures RenderHistory(Push(h, m, now)) ==
            RenderHistory(h) + [Classify(Stamp(m, now), |h|)]
  {
    var r := Push(h, m, now);
    assert forall i :: 0 <= i < |h| ==> r[i] == h[i];
  }

  /** After removing the entry at `i`, the entries behind it are rendered at their new
      positions, so their buttons are tied to the positions they now have. */
  lemma RenderAfterRemove(h: History, i: int)
    requires 0 <= i < |h|
    ensures forall j :: 0 <= j < i ==> RenderHistory(RemoveAt(h, i))[j] == RenderHistory(h)[j]
    ensures forall j :: i < j < |h| ==> RenderHistory(RemoveAt(h, i))[j - 1] == Classify(h[j], j - 1)
  {
    var r := RemoveAt(h, i);
    RemoveInRange(h, i);
    forall j | 0 <= j < i
      ensures RenderHistory(r)[j] == RenderHistory(h)[j]
    {
      assert r[j] == h[j];
    }
    forall j | i < j < |h|
      ensures RenderHistory(r)[j - 1] == Classify(h[j], j - 1)
    {
      assert r[j - 1] == h[j];
    }
  }
}
