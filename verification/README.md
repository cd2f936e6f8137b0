# Message history of react-rasa-assistant, modelled in Dafny

The widget keeps a conversation with a Rasa agent as an ordered list of message
entries. Each entry has a direction (`in` from the agent, `out` from the user), a
timestamp, and one of: text, a list of buttons, or an application-supplied component.
This project models the history logic of `index.js` without React. It is a pure
transition system over `seq<Entry>`:

- `js.dfy` (module `Js`): absent-or-present fields, string truthiness, and
  `Array.prototype.slice` with its negative and clamped indices.
- `history.dfy` (module `History`): entries, the initial history, `pushMsgToHistory`
  and the positional `removeMsgFromHistory`.
- `incoming.dfy` (module `Incoming`): `handleIncoming` and a reply body handled with
  `forEach`. The functional `ApplyReply` and the loop `DeliverReply` are proved equal.
- `render.dfy` (module `Render`): how each entry is shown (text, then buttons, then
  component, otherwise nothing). Also which entry's position a rendered button
  remembers.
- `widget.dfy` (module `Widget`): the whole widget as events: mount, typing, Send,
  button click, reply arrival. It also tracks the requests each event sends to the agent.

What `index.js` does, and therefore what the model does:
- `index.js` has no session handling. The history starts with one outbound entry
  holding the initial message, and nothing ever resets it.
- Every reply button is handled the same way. A click removes the entry at the
  position the button captured at render time. While the history is as it was
  rendered, that entry is the button's owner (`Widget.ClickOnScreen`). A stale
  position removes whatever entry has moved there (`Widget.StaleSecondClick`).
- `custom` goes to `onCustomResponse` whenever it is truthy, even when the same
  message also carries text or buttons.
- A click sends the button's `payload` and shows its `title`. There is no fallback
  from one to the other.
- `onCustomResponse` has no default. If it is missing or throws, the exception leaves
  the reply's `forEach`. Entries already pushed stay, and the later messages of that
  reply are never handled.

## Model

| member | source | states |
|---|---|---|
| History.Initial | index.js:29-34 | the starting history has exactly one entry; it is outbound, holds the initial message as its text, and has no buttons or component |
| History.Push | index.js:36-38 | a push adds exactly one entry at the end, stamped with the clock unless the message brings its own `ts`; all earlier entries stay unchanged and in order |
| History.PushAll | index.js:36-38 | pushing several messages one after another is the same as appending all their stamped forms at once, in order |
| History.RemoveAt | index.js:40-44 | removing at a position inside the history splices out exactly that entry (`h[..i] + h[i+1..]`); a position at or past the end leaves the history unchanged |
| History.RemoveInRange | index.js:40-44 | for an index inside the history, removal gives `h[..i] + h[i+1..]`, which equals a recursive reference deletion; the length drops by one; entries before `i` stay put, entries after it move down by one, and the multiset loses exactly `h[i]` |
| History.RemoveFromEnd | index.js:40-44 | with slice semantics, a negative index from `-len` to `-2` removes the entry counted from the end |
| History.RemoveMinusOne | index.js:40-44 | index `-1` yields the history without its last entry followed by the whole history again; the widget never passes a negative index |
| History.RemoveBeforeStart | index.js:40-44 | an index below `-len` leaves the history unchanged |
| History.RemoveUndoesPush | index.js:36-44 | removing at the old length undoes a push |
| History.RemoveBeforePush | index.js:36-44 | removing an existing entry after a push is the same as removing it before the push and then pushing |
| History.RemoveTwice | index.js:40-44 | removing twice at the same index removes two neighbouring entries, because removal is by position and not by identity |
| Incoming.FanOut | index.js:49-54 | an agent message yields a text entry iff its text is truthy (so the empty string adds nothing), and a buttons entry iff its buttons are present; the text entry comes first, the buttons entry last; each entry is inbound and carries exactly one of the two, verbatim |
| Incoming.HandleIncoming | index.js:49-58 | handling a message appends its fan-out and then whatever the custom callback pushes, whether or not the callback then throws; without `custom` only the fan-out is appended; a message with none of the three fields leaves the history unchanged |
| Incoming.CustomOnlyThroughHook | index.js:56-57 | `custom` affects the history only through the callback: if the callback pushes nothing, the message is handled as if it had no `custom` field |
| Incoming.AbortDropsRest | index.js:46-57 | when the callback throws at element `k`, and at no element before it, the body is handled as if it ended at `k`; element `k`'s own entries are still appended |
| Incoming.NoCallbackStopsAtCustom | index.js:46-57 | with no `onCustomResponse`, a reply stops at its first element that carries `custom`; that element's text and buttons entries are still appended |
| Incoming.ApplyReply | index.js:46-57 | handling a reply body keeps the old history as a prefix and appends what each element produces, in body order, up to and including the first element whose callback throws |
| Incoming.ProducedAllConcat | index.js:46-57 | what a body split into two consecutive parts produces is what the first part produces, followed by what the second produces only if no element of the first throws |
| Incoming.ApplyReplySplit | index.js:46-57 | handling a body in two consecutive parts is the same as handling it at once; once an element of the first part throws, the second part is never handled |
| Incoming.ReplyWithoutCustom | index.js:46-54 | when no element has `custom`, a body of `n` elements adds at most `2n` entries, and all of them are inbound |
| Incoming.DeliverReply | index.js:46-57 | the `forEach` loop over the body, left when the callback throws, computes the same history as the functional definition |
| Render.Classify | index.js:63-80 | exactly one of text, buttons, component or nothing is shown; truthy text always wins, even with buttons; buttons beat a component; the view carries the entry's text and direction, or all its buttons in order, each tied to the entry's position, or its component |
| Render.RenderHistory | index.js:63-81 | there is one view per entry |
| Render.OnScreenOwner | index.js:63-77 | a button on screen remembers a position inside the history; the entry there shows as buttons and offers that button |
| Render.ButtonsAreOnScreen | index.js:67-77 | every button of an entry shown as buttons is on screen, tied to that entry's position |
| Render.RenderAfterPush | index.js:36-38 | after a push, all existing views are unchanged and the new entry's view comes last |
| Render.RenderAfterRemove | index.js:40-44 | after a removal, views before the gap are unchanged; the entries behind it are shown at their new positions, so their buttons remember the new positions |
| Widget.Mount | index.js:27-34 | mounting gives an empty draft and a one-entry history that shows the initial message as text iff it is truthy, and otherwise nothing; that message is sent to the agent (line 60) |
| Widget.SendDraft | index.js:85-90 | Send sends the draft, appends one outbound entry holding the draft, and clears the draft; the new entry shows as the draft's text, or as nothing when the draft was empty |
| Widget.ClickButton | index.js:72-76 | a click sends `payload` and leaves the draft alone; an in-range position is removed and the history length is unchanged; the last entry is outbound and holds `title` |
| Widget.IncomingRenders | index.js:49-80 | an agent message without `custom` shows, after the existing views, as its text if truthy and then as its buttons if present |
| Widget.Step | index.js:46-90 | typing only replaces the draft; a reply only appends and sends nothing; Send clears the draft and sends it; a click keeps the draft and sends the payload; every event except a click keeps the old history as a prefix |
| Widget.ClickOnScreen | index.js:63-76 | clicking a button on screen removes exactly the entry that offers it, keeps the length, shows the title last as text unless it is empty, and sends the payload |
| Widget.StaleSecondClick | index.js:72-76 | a second click with the same remembered position removes the entry that moved into that position |
| Widget.RunRequests | index.js:72-90 | in any run of events, the widget sends exactly one request per Send and one per click |
| Widget.RunWithoutClicksAppends | index.js:36-58 | a run without clicks only appends: the starting history is a prefix of the final one |
| Widget.RunLength | index.js:36-90 | when every click is on a button on screen, the final length is the starting length plus one per Send plus what the replies produced |
| Widget.ButtonScenario | index.js:49-76 | after greeting "Hi" and a reply with one button, clicking the button sends "info"; the history ends as the greeting plus the outbound title, with the buttons gone |

## Left out

- `msgRasa` and its `fetch`, JSON and promise handling (index.js:96-117) are network
  I/O. A request is modelled only as the message it carries; `rasaUrl` and `sender`
  are constants and are not modelled. A failed request produces no reply event.
- Asynchrony: the reply to a request arrives as its own `Reply` event at some later
  point. The order in which replies to different requests arrive is the caller's
  choice of event sequence.
- `Date.now()`: each event gets one abstract clock reading `now`, and every push made
  while handling that event uses it. `index.js` reads the clock once per push, so
  the model does not reason about clock values or React key collisions.
- React hooks, JSX, the default components and the `debug` logger (index.js:1-14,
  62-93) are UI plumbing. Only the choice of view and the button handlers' captured
  values are modelled.
- `onCustomResponse` is a foreign callback. It is modelled as a total function from
  the custom payload to the messages it pushes at once through the push capability
  it receives, plus whether it then throws. Pushes it makes later, or that depend on
  its own state, are not modelled. A callback that throws between two pushes is
  modelled as throwing after the pushes it made.
- An exception that leaves `forEach` rejects the `msgAssistant` promise. Nothing in
  `index.js` catches it, and it has no further effect on the history.
- The draft is modelled as the string the input component hands to `onChange`. The
  default `Input` (index.js:13, 83) passes a DOM event instead, and that is not
  modelled.
- Agent-message fields that `handleIncoming` does not read (images, attachments) are
  not modelled. A `custom` value that is falsy in JavaScript (`0`, `''`) counts as
  absent, and `text` is taken to be a string whenever it is present.
- Messages the callback pushes are taken to carry a direction, either in or out.
- Render.RenderHistory: its contract states only the number of views. What each view
  is comes from Render.Classify and the lemmas about rendering.
