/** The message history of the widget: an ordered sequence of entries that is only ever
    extended at the end (`pushMsgToHistory`) or shortened by position
    (`removeMsgFromHistory`). Every update is a pure function of the previous history,
    as the functional `setMsgHistory` updaters of `index.js` are. */
module History {
  import opened Js

  /** `'in'` entries come from the agent, `'out'` entries from the local user. */
  datatype Direction = In | Out

  /** One button of an agent reply: `title` is shown, `payload` is sent back. */
  datatype Button = Button(title: string, payload: string)

  /** An opaque UI element that application code may place in the history. */
  datatype Component = Component(tag: nat)

  /** What a caller hands to `pushMsgToHistory`. A caller may supply its own `ts`,
      which then wins over the clock reading because it is spread after it. */
  datatype Msg = Msg(
    ts: Prop<int>,
    direction: Direction,
    text: Prop<string>,
    buttons: Prop<seq<Button>>,
    component: Prop<Component>)

  /** A stored history entry; its timestamp is always set. */
  datatype Entry = Entry(
    ts: int,
    direction: Direction,
    text: Prop<string>,
    buttons: Prop<seq<Button>>,
    component: Prop<Component>)

  type History = seq<Entry>

  /** An outbound text message, as the Send button and a button click push it. */
  function OutText(text: Prop<string>): Msg {
    Msg(Undefined, Out, text, Undefined, Undefined)
  }

  /** `{ts: now, ...m}`: the stored form of `m` at clock reading `now`. */
  function Stamp(m: Msg, now: int): Entry {
    Entry(ValueOr(m.ts, now), m.direction, m.text, m.buttons, m.component)
  }

  /** The stored forms of `ms`, in order, all at clock reading `now`. */
  function StampAll(ms: seq<Msg>, now: int): (es: seq<Entry>)
    ensures |es| == |ms|
  {
    seq(|ms|, k requires 0 <= k < |ms| => Stamp(ms[k], now))
  }

  /** The history the widget starts with: the configured initial message, outbound. */
  function Initial(initialMessage: Prop<string>, now: int): (h: History)
    ensures |h| == 1
    ensures h[0].direction == Out && h[0].text == initialMessage
    ensures h[0].buttons.Undefined? && h[0].component.Undefined?
  {
    [Stamp(OutText(initialMessage), now)]
  }

  /** `pushMsgToHistory(m)`: one new entry at the end, everything before it untouched. */
  function Push(h: History, m: Msg, now: int): (r: History)
    ensures |r| == |h| + 1
    ensures r[..|h|] == h
    ensures r[|h|] == Stamp(m, now)
  {
    h + [Stamp(m, now)]
  }

  /** Pushing the messages `ms` one after the other. */
  function PushAll(h: History, ms: seq<Msg>, now: int): (r: History)
    ensures r == h + StampAll(ms, now)
    decreases |ms|
  {
    if ms == [] then h
    else
      var r := PushAll(Push(h, ms[0], now), ms[1..], now);
      assert StampAll(ms, now) == [Stamp(ms[0], now)] + StampAll(ms[1..], now);
      r
  }

  /** `removeMsgFromHistory(i)`: `[...h.slice(0, i), ...h.slice(i + 1)]`. */
  function RemoveAt(h: History, i: int): (r: History)
    ensures 0 <= i < |h| ==> r == h[..i] + h[i + 1..]
    ensures i >= |h| ==> r == h
  {
    Slice(h, 0, i) + SliceFrom(h, i + 1)
  }

  /** Reference definition of deleting the element at position `k`, by recursion. */
  function DeleteAt<T>(s: seq<T>, k: nat): (r: seq<T>)
    requires k < |s|
    ensures |r| == |s| - 1
  {
    if k == 0 then s[1..] else [s[0]] + DeleteAt(s[1..], k - 1)
  }

  lemma {:induction false} DeleteAtIsSplice<T>(s: seq<T>, k: nat)
    requires k < |s|
    ensures DeleteAt(s, k) == s[..k] + s[k + 1..]
  {
    if k > 0 {
      DeleteAtIsSplice(s[1..], k - 1);
      assert s[1..][..k - 1] == s[1..k];
      assert s[1..][k..] == s[k + 1..];
      assert s[..k] == [s[0]] + s[1..k];
    }
  }

  /** What is left of `s` once the element at `k` is cut out, element by element. */
  lemma SpliceElements<T>(s: seq<T>, k: nat)
    requires k < |s|
    ensures |s[..k] + s[k + 1..]| == |s| - 1
    ensures forall j :: 0 <= j < k ==> (s[..k] + s[k + 1..])[j] == s[j]
    ensures forall j :: k < j < |s| ==> (s[..k] + s[k + 1..])[j - 1] == s[j]
    ensures multiset(s[..k] + s[k + 1..]) + multiset{s[k]} == multiset(s)
  {
    assert s == s[..k] + [s[k]] + s[k + 1..];
  }

  /** An index inside the history removes exactly the entry at that index: the length
      drops by one, entries before it keep their place, entries after it move down by
      one, and none is altered. */
  lemma RemoveInRange(h: History, i: int)
    requires 0 <= i < |h|
    ensures RemoveAt(h, i) == h[..i] + h[i + 1..]
    ensures RemoveAt(h, i) == DeleteAt(h, i)
    ensures |RemoveAt(h, i)| == |h| - 1
    ensures forall j :: 0 <= j < i ==> RemoveAt(h, i)[j] == h[j]
    ensures forall j :: i < j < |h| ==> RemoveAt(h, i)[j - 1] == h[j]
    ensures multiset(RemoveAt(h, i)) + multiset{h[i]} == multiset(h)
  {
    DeleteAtIsSplice(h, i);
    SpliceElements(h, i);
  }

  /** `slice` counts a negative index from the end, so `-n` with `2 <= n <= |h|`
      removes the `n`-th entry from the end. */
  lemma RemoveFromEnd(h: History, i: int)
    requires -|h| <= i < -1
    ensures RemoveAt(h, i) == h[..|h| + i] + h[|h| + i + 1..]
    ensures RemoveAt(h, i) == RemoveAt(h, |h| + i)
  {
  }

  /** The index `-1` is the odd one: `slice(0, -1)` drops the last entry while
      `slice(0)` keeps them all, so the history minus its last entry is followed by the
      whole history again. The widget never passes a negative index. */
  lemma RemoveMinusOne(h: History)
    requires |h| > 0
    ensures RemoveAt(h, -1) == h[..|h| - 1] + h
    ensures |RemoveAt(h, -1)| == 2 * |h| - 1
  {
  }

  /** An index before the start removes nothing. */
  lemma RemoveBeforeStart(h: History, i: int)
    requires i < -|h|
    ensures RemoveAt(h, i) == h
  {
  }

  /** Removing the entry that was just pushed gives back the history before the push. */
  lemma RemoveUndoesPush(h: History, m: Msg, now: int)
    ensures RemoveAt(Push(h, m, now), |h|) == h
  {
  }

  /** Removing an entry that was there before a push is the same as removing it first
      and pushing afterwards. */
  lemma RemoveBeforePush(h: History, m: Msg, now: int, i: int)
    requires 0 <= i < |h|
    ensures RemoveAt(Push(h, m, now), i) == Push(RemoveAt(h, i), m, now)
  {
    var p := Push(h, m, now);
    assert p[..i] == h[..i];
    assert p[i + 1..] == h[i + 1..] + [Stamp(m, now)];
  }

  /** Removal is by position, not by identity: removing at the same index twice removes
      two neighbouring entries, the second being the one that moved into the gap. */
  lemma RemoveTwice(h: History, i: int)
    requires 0 <= i && i + 1 < |h|
    ensures RemoveAt(RemoveAt(h, i), i) == h[..i] + h[i + 2..]
  {
    var r := RemoveAt(h, i);
    assert r[..i] == h[..i];
    assert r[i + 1..] == h[i + 2..];
  }
}
