/** The widget as a state machine. Its state is the draft in the input box and the
    message history; it changes on mount, on typing, on the Send button, on a reply
    button and on the arrival of an agent reply. Each change may also send requests to
    the agent (`msgAssistant`); the reply to a request arrives later as its own event. */
module Widget {
  import opened Js
  import opened History
  import opened Incoming
  import opened Render

  datatype State = State(draft: string, history: History)

  /** One `msgAssistant(message)` call. */
  datatype Request = Request(message: Prop<string>)

  /** The state after an event, and the requests the event sent, in order. */
  datatype Transition = Transition(next: State, sent: seq<Request>)

  /** What the widget reacts to once mounted; `now` is the clock reading of the event. */
  datatype Event =
    | Type(text: string)
    | Send(now: int)
    | Click(button: ButtonView, now: int)
    | Reply(body: seq<AgentMsg>, now: int)

  /** Mounting: an empty draft, a history holding only the initial message, outbound,
      which shows as text exactly when it is truthy; and that message goes to the agent. */
  function Mount(initialMessage: Prop<string>, now: int): (t: Transition)
    ensures t.next.draft == ""
    ensures |t.next.history| == 1
    ensures t.next.history[0].direction == Out && t.next.history[0].text == initialMessage
    ensures RenderHistory(t.next.history) ==
              [if Truthy(initialMessage) then TextView(Out, initialMessage.value) else Blank]
    ensures t.sent == [Request(initialMessage)]
  {
    var h := Initial(initialMessage, now);
    assert RenderHistory(h)[0] == Classify(h[0], 0);
    Transition(State("", h), [Request(initialMessage)])
  }

  /** The Send button: the draft goes to the agent and, as one new outbound entry, to
      the end of the history; the draft is then cleared. The new entry shows as the
      draft's text, or as nothing when the draft was empty. */
  function SendDraft(s: State, now: int): (t: Transition)
    ensures t.next.draft == ""
    ensures |t.next.history| == |s.history| + 1
    ensures t.next.history[..|s.history|] == s.history
    ensures t.next.history[|s.history|] == Entry(now, Out, Defined(s.draft), Undefined, Undefined)
    ensures RenderHistory(t.next.history) == RenderHistory(s.history) +
              [if s.draft != "" then TextView(Out, s.draft) else Blank]
    ensures t.sent == [Request(Defined(s.draft))]
  {
    var m := OutText(Defined(s.draft));
    RenderAfterPush(s.history, m, now);
    Transition(State("", Push(s.history, m, now)), [Request(Defined(s.draft))])
  }

  /** A reply button: its `payload` goes to the agent, the entry at the position the
      button remembers is removed, and its `title` is appended as an outbound entry. */
  function ClickButton(s: State, b: ButtonView, now: int): (t: Transition)
    ensures t.next.draft == s.draft
    ensures t.sent == [Request(Defined(b.button.payload))]
    ensures |t.next.history| > 0
    ensures 0 <= b.owner < |s.history| ==>
              |t.next.history| == |s.history| &&
              t.next.history[..|s.history| - 1] ==
                s.history[..b.owner] + s.history[b.owner + 1..]
    ensures b.owner >= |s.history| ==>
              |t.next.history| == |s.history| + 1 && t.next.history[..|s.history|] == s.history
    ensures t.next.history[|t.next.history| - 1] ==
              Entry(now, Out, Defined(b.button.title), Undefined, Undefined)
  {
    var h := Push(RemoveAt(s.history, b.owner), OutText(Defined(b.button.title)), now);
    Transition(State(s.draft, h), [Request(Defined(b.button.payload))])
  }

  /** An agent message without `custom` shows up after the existing views as its text,
      if truthy, and then its buttons, if present, tied to the position of their entry. */
  lemma IncomingRenders(h: History, m: AgentMsg, now: int, hook: CustomHook)
    requires m.custom.Undefined?
    ensures var vs := RenderHistory(HandleIncoming(h, m, now, hook));
      && vs[..|h|] == RenderHistory(h)
      && (Truthy(m.text) ==> vs[|h|] == TextView(In, m.text.value))
      && (m.buttons.Defined? ==>
            vs[|vs| - 1].ButtonsView? &&
            vs[|vs| - 1] == Classify(Entry(now, In, Undefined, m.buttons, Undefined), |vs| - 1))
      && |vs| == |h| + (if Truthy(m.text) then 1 else 0) + (if m.buttons.Defined? then 1 else 0)
  {
    var r := HandleIncoming(h, m, now, hook);
    var ms := FanOut(m);
    assert r == h + StampAll(ms, now);
    var vs := RenderHistory(r);
    assert forall j :: 0 <= j < |h| ==> vs[j] == Classify(h[j], j);
    if Truthy(m.text) {
      assert r[|h|] == Stamp(ms[0], now);
    }
    if m.buttons.Defined? {
      assert r[|r| - 1] == Stamp(ms[|ms| - 1], now);
    }
  }

  /** One event. Typing only replaces the draft; a reply only appends to the history;
      Send and a click each send exactly one request, the draft or the button's payload;
      every event but typing leaves the draft alone, except Send, which clears it. */
  function Step(s: State, e: Event, hook: CustomHook): (t: Transition)
    ensures e.Type? ==> t.next == State(e.text, s.history) && t.sent == []
    ensures e.Reply? ==>
              t.next.draft == s.draft && t.sent == [] &&
              |s.history| <= |t.next.history| && t.next.history[..|s.history|] == s.history
    ensures e.Send? ==> t.next.draft == "" && t.sent == [Request(Defined(s.draft))]
    ensures e.Click? ==>
              t.next.draft == s.draft && t.sent == [Request(Defined(e.button.button.payload))]
    ensures !e.Click? ==>
              |s.history| <= |t.next.history| && t.next.history[..|s.history|] == s.history
  {
    match e
    case Type(text) => Transition(s.(draft := text), [])
    case Send(now) => SendDraft(s, now)
    case Click(b, now) => ClickButton(s, b, now)
    case Reply(body, now) => Transition(s.(history := ApplyReply(s.history, body, now, hook)), [])
  }

  /** Events one after another; the requests of all of them, in order. */
  function Run(s: State, events: seq<Event>, hook: CustomHook): Transition
    decreases |events|
  {
    if events == [] then Transition(s, [])
    else
      var first := Step(s, events[0], hook);
      var rest := Run(first.next, events[1..], hook);
      Transition(rest.next, first.sent + rest.sent)
  }

  /** How many entries an event adds to the history when its click, if any, is on an
      entry inside the history. */
  function Growth(events: seq<Event>, hook: CustomHook): int
    decreases |events|
  {
    if events == [] then 0
    else
      var g := match events[0]
        case Type(_) => 0
        case Send(_) => 1
        case Click(_, _) => 0
        case Reply(body, now) => |ProducedAll(body, now, hook)|;
      g + Growth(events[1..], hook)
  }

  /** How many events send a request. */
  function Senders(events: seq<Event>): nat
    decreases |events|
  {
    if events == [] then 0
    else (if events[0].Send? || events[0].Click? then 1 else 0) + Senders(events[1..])
  }

  /** Every click in the run is on a button that is on screen when it is clicked. */
  predicate ClicksOnScreen(s: State, events: seq<Event>, hook: CustomHook)
    decreases |events|
  {
    events != [] ==>
      (events[0].Click? ==> OnScreen(s.history, events[0].button)) &&
      ClicksOnScreen(Step(s, events[0], hook).next, events[1..], hook)
  }

  /** Clicking a button on screen sends its payload, removes exactly the entry that
      offers it, keeps the length of the history, and leaves the button's title at the
      end, shown as text unless the title is empty. */
  lemma ClickOnScreen(s: State, b: ButtonView, now: int)
    requires OnScreen(s.history, b)
    ensures var h := ClickButton(s, b, now).next.history;
      && |h| == |s.history|
      && s.history[b.owner].buttons.Defined? && b.button in s.history[b.owner].buttons.value
      && h == s.history[..b.owner] + s.history[b.owner + 1..] +
                [Entry(now, Out, Defined(b.button.title), Undefined, Undefined)]
      && RenderHistory(h)[|h| - 1] ==
           (if b.button.title != "" then TextView(Out, b.button.title) else Blank)
    ensures ClickButton(s, b, now).sent == [Request(Defined(b.button.payload))]
  {
    OnScreenOwner(s.history, b);
    var t := ClickButton(s, b, now);
    var h := t.next.history;
    assert h == h[..|h| - 1] + [h[|h| - 1]];
    assert RenderHistory(h)[|h| - 1] == Classify(h[|h| - 1], |h| - 1);
  }

  /** Positions are not identities: a second click on the same, now stale, button
      removes the entry that moved into the freed position instead. */
  lemma StaleSecondClick(s: State, b: ButtonView, now1: int, now2: int)
    requires 0 <= b.owner && b.owner + 1 < |s.history|
    ensures var h := ClickButton(ClickButton(s, b, now1).next, b, now2).next.history;
      h == s.history[..b.owner] + s.history[b.owner + 2..] +
             [Entry(now1, Out, Defined(b.button.title), Undefined, Undefined),
              Entry(now2, Out, Defined(b.button.title), Undefined, Undefined)]
  {
    var i, h := b.owner, s.history;
    var m := OutText(Defined(b.button.title));
    var r := RemoveAt(h, i);
    var h1 := ClickButton(s, b, now1).next.history;
    assert h1 == Push(r, m, now1);
    RemoveBeforePush(r, m, now1, i);
    RemoveTwice(h, i);
    assert RemoveAt(h1, i) == Push(h[..i] + h[i + 2..], m, now1);
  }

  /** The requests of a run are one per Send and one per click, whatever the state. */
  lemma {:induction false} RunRequests(s: State, events: seq<Event>, hook: CustomHook)
    ensures |Run(s, events, hook).sent| == Senders(events)
    decreases |events|
  {
    if events != [] {
      RunRequests(Step(s, events[0], hook).next, events[1..], hook);
    }
  }

  /** A run without clicks only appends: the history it starts from is a prefix of the
      one it ends with. */
  lemma {:induction false} RunWithoutClicksAppends(s: State, events: seq<Event>, hook: CustomHook)
    requires forall k :: 0 <= k < |events| ==> !events[k].Click?
    ensures |s.history| <= |Run(s, events, hook).next.history|
    ensures Run(s, events, hook).next.history[..|s.history|] == s.history
    decreases |events|
  {
    if events != [] {
      var s1 := Step(s, events[0], hook).next;
      assert |s.history| <= |s1.history| && s1.history[..|s.history|] == s.history;
      RunWithoutClicksAppends(s1, events[1..], hook);
      var h := Run(s, events, hook).next.history;
      assert h[..|s1.history|] == s1.history;
      assert h[..|s.history|] == s1.history[..|s.history|];
    }
  }

  /** When every click is on a button on screen, the history ends up exactly as long as
      it started plus one entry per Send plus everything the replies produced: clicks
      replace an entry, typing adds none, and nothing is lost or duplicated. */
  lemma {:induction false} RunLength(s: State, events: seq<Event>, hook: CustomHook)
    requires ClicksOnScreen(s, events, hook)
    ensures |Run(s, events, hook).next.history| == |s.history| + Growth(events, hook)
    decreases |events|
  {
    if events != [] {
      var s1 := Step(s, events[0], hook).next;
      if events[0].Click? {
        ClickOnScreen(s, events[0].button, events[0].now);
      }
      RunLength(s1, events[1..], hook);
    }
  }

  /** The button scenario as the widget behaves: after the greeting and a reply that
      offers one button, the button is on screen; clicking it sends the payload and
      replaces the buttons entry by the button's title, so the buttons do not stay. */
  lemma ButtonScenario(hook: CustomHook)
    ensures var btn := Button("More info", "info");
      var s0 := Mount(Defined("Hi"), 0).next;
      var s1 := s0.(history := ApplyReply(s0.history, [AgentMsg(Undefined, Defined([btn]), Undefined)], 1, hook));
      && OnScreen(s1.history, ButtonView(1, btn))
      && ClickButton(s1, ButtonView(1, btn), 2).sent == [Request(Defined("info"))]
      && ClickButton(s1, ButtonView(1, btn), 2).next.history ==
           [Entry(0, Out, Defined("Hi"), Undefined, Undefined), Entry(2, Out, Defined("More info"), Undefined, Undefined)]
  {
    var btn := Button("More info", "info");
    var m := AgentMsg(Undefined, Defined([btn]), Undefined);
    var s0 := Mount(Defined("Hi"), 0).next;
    assert FanOut(m) == [Msg(Undefined, In, Undefined, Defined([btn]), Undefined)];
    assert ProducedAll([m], 1, hook) == [Entry(1, In, Undefined, Defined([btn]), Undefined)];
    var h1 := ApplyReply(s0.history, [m], 1, hook);
    assert h1 == [Entry(0, Out, Defined("Hi"), Undefined, Undefined), Entry(1, In, Undefined, Defined([btn]), Undefined)];
    ButtonsAreOnScreen(h1, 1, 0);
    RemoveInRange(h1, 1);
  }
}
