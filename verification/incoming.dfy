/** What an agent reply does to the history. A reply body is a sequence of agent
    messages, each handled in order by `handleIncoming`: its text becomes one inbound
    entry, its buttons another, and its custom payload goes to the application's
    `onCustomResponse` callback together with the push capability. */
module Incoming {
  import opened Js
  import opened History

  /** The opaque `custom` value of an agent message. */
  datatype CustomPayload = CustomPayload(tag: nat)

  /** One element of a reply body; fields the widget does not read are not modelled. */
  datatype AgentMsg = AgentMsg(
    text: Prop<string>,
    buttons: Prop<seq<Button>>,
    custom: Prop<CustomPayload>)

  /** What one call of `onCustomResponse(custom, pushMsgToHistory)` does, as far as the
      history can tell: the messages it pushes through the capability, in order, and
      whether it then throws. */
  datatype HookResult = HookResult(pushed: seq<Msg>, throws: bool)

  type CustomHook = CustomPayload -> HookResult

  /** A widget mounted without `onCustomResponse`: calling `undefined` throws a
      `TypeError` before anything is pushed. */
  function NoCallback(c: CustomPayload): HookResult {
    HookResult([], true)
  }

  /** The entries `handleIncoming` pushes itself, before the callback runs. A text entry
      is there iff the text is truthy, so the empty string adds nothing, and it comes
      first; a buttons entry is there iff the buttons field is present, and it comes
      last. Each carries exactly one of the two, verbatim, and is inbound. */
  function FanOut(m: AgentMsg): (ms: seq<Msg>)
    ensures |ms| <= 2
    ensures Truthy(m.text) <==> |ms| > 0 && ms[0].text.Defined?
    ensures m.buttons.Defined? <==> |ms| > 0 && ms[|ms| - 1].buttons.Defined?
    ensures forall k :: 0 <= k < |ms| && ms[k].text.Defined? ==> k == 0 && ms[k].text == m.text
    ensures forall k :: 0 <= k < |ms| && ms[k].buttons.Defined? ==>
              k == |ms| - 1 && ms[k].buttons == m.buttons
    ensures forall k :: 0 <= k < |ms| ==>
              ms[k].text.Defined? != ms[k].buttons.Defined? &&
              ms[k].direction == In && ms[k].ts.Undefined? && ms[k].component.Undefined?
  {
    var textMsg := Msg(Undefined, In, m.text, Undefined, Undefined);
    if Truthy(m.text) then
      if m.buttons.Defined? then [textMsg, Msg(Undefined, In, Undefined, m.buttons, Undefined)] else [textMsg]
    else
      if m.buttons.Defined? then [Msg(Undefined, In, Undefined, m.buttons, Undefined)] else []
  }

  /** What the callback pushes for `m`: nothing unless `custom` is truthy. */
  function CustomPushes(m: AgentMsg, hook: CustomHook): seq<Msg> {
    if m.custom.Defined? then hook(m.custom.value).pushed else []
  }

  /** Handling `m` ends in an exception: `custom` is truthy and the callback throws. */
  predicate Aborts(m: AgentMsg, hook: CustomHook) {
    m.custom.Defined? && hook(m.custom.value).throws
  }

  /** No message of `body` ends in an exception. */
  predicate NoAbort(body: seq<AgentMsg>, hook: CustomHook) {
    forall k :: 0 <= k < |body| ==> !Aborts(body[k], hook)
  }

  /** Every entry handling `m` produces, in the order they are pushed. */
  function Produced(m: AgentMsg, now: int, hook: CustomHook): seq<Entry> {
    StampAll(FanOut(m), now) + StampAll(CustomPushes(m, hook), now)
  }

  /** `handleIncoming(m)`: the history grows by the fan-out of `m` followed by whatever
      the callback pushes; a message with none of the three fields changes nothing. When
      the callback throws, it does so after all of these pushes. */
  function HandleIncoming(h: History, m: AgentMsg, now: int, hook: CustomHook): (r: History)
    ensures r == h + Produced(m, now, hook)
    ensures m.custom.Undefined? ==> r == h + StampAll(FanOut(m), now)
    ensures !Truthy(m.text) && m.buttons.Undefined? && m.custom.Undefined? ==> r == h
  {
    PushAll(PushAll(h, FanOut(m), now), CustomPushes(m, hook), now)
  }

  /** `custom` reaches the history only through the callback: when the callback pushes
      nothing, a message is handled as if it had no `custom` field. */
  lemma CustomOnlyThroughHook(h: History, m: AgentMsg, now: int, hook: CustomHook)
    requires m.custom.Defined? && hook(m.custom.value).pushed == []
    ensures HandleIncoming(h, m, now, hook) == HandleIncoming(h, m.(custom := Undefined), now, hook)
  {
    assert FanOut(m.(custom := Undefined)) == FanOut(m);
    assert StampAll([], now) == [];
  }

  /** Everything a reply body produces, message after message, up to and including the
      first message whose callback throws. */
  function ProducedAll(body: seq<AgentMsg>, now: int, hook: CustomHook): seq<Entry>
    decreases |body|
  {
    if body == [] then []
    else Produced(body[0], now, hook) +
         (if Aborts(body[0], hook) then [] else ProducedAll(body[1..], now, hook))
  }

  /** `body.forEach(handleIncoming)`: the history grows by what each message produces,
      in body order, and nothing already in it changes. An exception thrown by the
      callback leaves `forEach`, so the messages after it are never handled. */
  function ApplyReply(h: History, body: seq<AgentMsg>, now: int, hook: CustomHook): (r: History)
    ensures r == h + ProducedAll(body, now, hook)
    decreases |body|
  {
    if body == [] then h
    else
      var h1 := HandleIncoming(h, body[0], now, hook);
      if Aborts(body[0], hook) then h1
      else
        var p, rest := Produced(body[0], now, hook), ProducedAll(body[1..], now, hook);
        var r := ApplyReply(h1, body[1..], now, hook);
        ConcatAssoc(h, p, rest);
        r
  }

  /** Whether the rest of a body is handled depends on its first message alone. */
  lemma NoAbortCons(a: seq<AgentMsg>, hook: CustomHook)
    requires a != []
    ensures NoAbort(a, hook) <==> !Aborts(a[0], hook) && NoAbort(a[1..], hook)
  {
    if !Aborts(a[0], hook) && NoAbort(a[1..], hook) {
      forall k | 0 <= k < |a|
        ensures !Aborts(a[k], hook)
      {
        if k > 0 {
          assert a[k] == a[1..][k - 1];
        }
      }
    }
  }

  /** What two consecutive parts of a body produce: what the first produces, followed by
      what the second produces only if no message of the first throws. */
  lemma {:induction false} ProducedAllConcat(a: seq<AgentMsg>, b: seq<AgentMsg>, now: int, hook: CustomHook)
    ensures ProducedAll(a + b, now, hook) ==
            ProducedAll(a, now, hook) + (if NoAbort(a, hook) then ProducedAll(b, now, hook) else [])
    decreases |a|
  {
    if a != [] {
      assert (a + b)[0] == a[0];
      assert (a + b)[1..] == a[1..] + b;
      NoAbortCons(a, hook);
      if !Aborts(a[0], hook) {
        ProducedAllConcat(a[1..], b, now, hook);
        var tail := if NoAbort(a, hook) then ProducedAll(b, now, hook) else [];
        calc {
          ProducedAll(a + b, now, hook);
          Produced(a[0], now, hook) + ProducedAll(a[1..] + b, now, hook);
          Produced(a[0], now, hook) + (ProducedAll(a[1..], now, hook) + tail);
          { ConcatAssoc(Produced(a[0], now, hook), ProducedAll(a[1..], now, hook), tail); }
          (Produced(a[0], now, hook) + ProducedAll(a[1..], now, hook)) + tail;
        }
      }
    } else {
      assert a + b == b;
    }
  }

  /** Applying a body in two parts is applying it at once, except that the second part
      is never handled once a message of the first part throws. */
  lemma {:induction false} ApplyReplySplit(h: History, a: seq<AgentMsg>, b: seq<AgentMsg>, now: int, hook: CustomHook)
    ensures ApplyReply(h, a + b, now, hook) ==
            if NoAbort(a, hook) then ApplyReply(ApplyReply(h, a, now, hook), b, now, hook)
            else ApplyReply(h, a, now, hook)
  {
    var pa, pb := ProducedAll(a, now, hook), ProducedAll(b, now, hook);
    ProducedAllConcat(a, b, now, hook);
    ConcatAssoc(h, pa, pb);
  }

  /** A throwing callback drops the rest of the reply: the body is handled as if it ended
      with the message that threw, whose own text and buttons entries are still there. */
  lemma AbortDropsRest(h: History, body: seq<AgentMsg>, k: int, now: int, hook: CustomHook)
    requires 0 <= k < |body| && NoAbort(body[..k], hook) && Aborts(body[k], hook)
    ensures ApplyReply(h, body, now, hook) == ApplyReply(h, body[..k + 1], now, hook)
    ensures ApplyReply(h, body, now, hook) ==
            ApplyReply(h, body[..k], now, hook) + Produced(body[k], now, hook)
  {
    var a := body[..k + 1];
    assert body == a + body[k + 1..];
    assert !NoAbort(a, hook) by { assert a[k] == body[k]; }
    ApplyReplySplit(h, a, body[k + 1..], now, hook);
    assert a == body[..k] + [body[k]];
    ApplyReplySplit(h, body[..k], [body[k]], now, hook);
  }

  /** Without the callback, a reply stops at its first message that carries `custom`. */
  lemma NoCallbackStopsAtCustom(h: History, body: seq<AgentMsg>, k: int, now: int)
    requires 0 <= k < |body| && body[k].custom.Defined?
    requires forall j :: 0 <= j < k ==> body[j].custom.Undefined?
    ensures ApplyReply(h, body, now, NoCallback) ==
            ApplyReply(h, body[..k], now, NoCallback) + StampAll(FanOut(body[k]), now)
  {
    assert NoAbort(body[..k], NoCallback) by {
      forall j | 0 <= j < k
        ensures !Aborts(body[..k][j], NoCallback)
      {
        assert body[..k][j] == body[j];
      }
    }
    AbortDropsRest(h, body, k, now, NoCallback);
    assert StampAll([], now) == [];
  }

  /** When no message carries `custom`, a reply adds between none and twice as many
      entries as it has messages, and all of them are inbound. */
  lemma {:induction false} ReplyWithoutCustom(h: History, body: seq<AgentMsg>, now: int, hook: CustomHook)
    requires forall k :: 0 <= k < |body| ==> body[k].custom.Undefined?
    ensures |ApplyReply(h, body, now, hook)| <= |h| + 2 * |body|
    ensures forall j :: |h| <= j < |ApplyReply(h, body, now, hook)| ==>
              ApplyReply(h, body, now, hook)[j].direction == In
    decreases |body|
  {
    if body != [] {
      var h1 := HandleIncoming(h, body[0], now, hook);
      ReplyWithoutCustom(h1, body[1..], now, hook);
    }
  }

  /** Handling the next message of a body that has not thrown yet extends what the
      handled prefix produced. */
  lemma DeliverOne(h: History, body: seq<AgentMsg>, k: nat, r: History, now: int, hook: CustomHook)
    requires k < |body| && NoAbort(body[..k], hook)
    requires r == h + ProducedAll(body[..k], now, hook)
    ensures HandleIncoming(r, body[k], now, hook) == h + ProducedAll(body[..k + 1], now, hook)
    ensures NoAbort(body[..k + 1], hook) <==> !Aborts(body[k], hook)
  {
    assert body[..k + 1] == body[..k] + [body[k]];
    ProducedAllConcat(body[..k], [body[k]], now, hook);
    assert ProducedAll([body[k]], now, hook) == Produced(body[k], now, hook) + [];
    ConcatAssoc(h, ProducedAll(body[..k], now, hook), Produced(body[k], now, hook));
    assert body[..k + 1][k] == body[k];
    assert forall j :: 0 <= j < k ==> body[..k + 1][j] == body[..k][j];
  }

  /** What the whole body produces, seen from a prefix of it. */
  lemma ProducedFromPrefix(body: seq<AgentMsg>, k: nat, now: int, hook: CustomHook)
    requires k <= |body|
    ensures ProducedAll(body, now, hook) ==
            ProducedAll(body[..k], now, hook) +
            (if NoAbort(body[..k], hook) then ProducedAll(body[k..], now, hook) else [])
  {
    assert body == body[..k] + body[k..];
    ProducedAllConcat(body[..k], body[k..], now, hook);
  }

  /** The reply handler as the loop the widget runs: one `handleIncoming` per message,
      left early when the callback throws. */
  method DeliverReply(h: History, body: seq<AgentMsg>, now: int, hook: CustomHook)
    returns (r: History)
    ensures r == h + ProducedAll(body, now, hook)
    ensures r == ApplyReply(h, body, now, hook)
  {
    r := h;
    var k := 0;
    while k < |body|
      invariant 0 <= k <= |body|
      invariant NoAbort(body[..k], hook)
      invariant r == h + ProducedAll(body[..k], now, hook)
    {
      DeliverOne(h, body, k, r, now, hook);
      r := HandleIncoming(r, body[k], now, hook);
      if Aborts(body[k], hook) {
        ProducedFromPrefix(body, k + 1, now, hook);
        return;
      }
      k := k + 1;
    }
    assert body[..k] == body;
  }
}
