/**
 The `/callback` endpoint: signature check, dispatch of the verified events
 to `handle_message`, and the response.

 Verifying the `X-Line-Signature` header and parsing the body belong to the
 messaging SDK. The model receives their outcome as a `Verification` value.
 The events arrive as a sequence in the order the SDK dispatches them, and
 every lemma below holds for any such order.
 */
module Webhook {
  import opened Wrappers
  import opened CharClasses
  import opened OtpSearch
  import opened MessageHandler

  /** A parsed webhook event. Only text messages have a registered handler. */
  datatype Event = TextMessage(replyToken: string, text: string) | OtherEvent

  /** The outcome of `handler.handle(body, signature)` before any handler runs. */
  datatype Verification = Verified(events: seq<Event>) | InvalidSignature

  /** A reply request sent back through the messaging API. */
  datatype Reply = Reply(token: string, text: string)

  /** `'OK'` with status 200, or `abort(...)` with the given status. */
  datatype Response = Ok(body: string) | Abort(status: nat)

  /** The slot and the replies produced by dispatching a batch of events. */
  datatype Dispatched = Dispatched(slot: Slot, replies: seq<Reply>)

  /** Everything one call of `callback` produces. */
  datatype Outcome = Outcome(response: Response, slot: Slot, replies: seq<Reply>)

  /**
   The events that reach `handle_message`: the handler is registered for text
   messages only. Together with `TextEventsAppend` this says that the text
   messages are kept, all of them and in their order, and nothing else.
   */
  function TextEvents(events: seq<Event>): (r: seq<Event>)
    ensures |r| <= |events|
    ensures forall e :: e in r <==> e in events && e.TextMessage?
  {
    if events == [] then []
    else if events[0].TextMessage? then [events[0]] + TextEvents(events[1..])
    else TextEvents(events[1..])
  }

  /** Selecting from a concatenation selects from each part, in order. */
  lemma {:induction false} TextEventsAppend(a: seq<Event>, b: seq<Event>)
    ensures TextEvents(a + b) == TextEvents(a) + TextEvents(b)
    decreases |a|
  {
    if a != [] {
      assert (a + b)[1..] == a[1..] + b;
      TextEventsAppend(a[1..], b);
    } else {
      assert a + b == b;
    }
  }

  /** `e` is a text message in which the search finds `code`. */
  ghost predicate CarriesCode(cls: Classes, e: Event, code: string)
  {
    e.TextMessage? && FindOtp(cls, e.text) == Some(code)
  }

  /** No text message of the batch contains a code. */
  ghost predicate NoCodeIn(cls: Classes, events: seq<Event>)
  {
    forall k :: 0 <= k < |events| ==> events[k].TextMessage? ==> FindOtp(cls, events[k].text).None?
  }

  /**
   Runs `handle_message` for each text message, one after the other, each
   seeing the slot the previous one left. Other events have no handler.
   */
  function Dispatch(cls: Classes, slot: Slot, events: seq<Event>): (d: Dispatched)
    ensures d.slot == slot
      || (d.slot.Holds? && exists k :: 0 <= k < |events| && CarriesCode(cls, events[k], d.slot.contents))
    decreases |events|
  {
    if events == [] then Dispatched(slot, [])
    else
      match events[0]
      case OtherEvent => Dispatch(cls, slot, events[1..])
      case TextMessage(token, text) =>
        var h := HandleMessage(cls, slot, text);
        var rest := Dispatch(cls, h.slot, events[1..]);
        Dispatched(rest.slot, [Reply(token, h.reply)] + rest.replies)
  }

  /** The reply each text message of a batch gets, in order. */
  function RepliesFor(cls: Classes, events: seq<Event>): (r: seq<Reply>)
    decreases |events|
  {
    if events == [] then []
    else
      match events[0]
      case OtherEvent => RepliesFor(cls, events[1..])
      case TextMessage(token, text) => [Reply(token, ReplyText(FindOtp(cls, text)))] + RepliesFor(cls, events[1..])
  }

  /** The replies of a batch do not depend on what the slot held before. */
  lemma {:induction false} DispatchRepliesIgnoreSlot(cls: Classes, slot: Slot, events: seq<Event>)
    ensures Dispatch(cls, slot, events).replies == RepliesFor(cls, events)
    decreases |events|
  {
    if events != [] {
      var next := if events[0].TextMessage? then HandleMessage(cls, slot, events[0].text).slot else slot;
      DispatchRepliesIgnoreSlot(cls, next, events[1..]);
    }
  }

  /** Replies to `a + b` are the replies to `a` followed by those to `b`. */
  lemma {:induction false} RepliesForAppend(cls: Classes, a: seq<Event>, b: seq<Event>)
    ensures RepliesFor(cls, a + b) == RepliesFor(cls, a) + RepliesFor(cls, b)
    decreases |a|
  {
    if a == [] {
      assert a + b == b;
    } else {
      assert (a + b)[0] == a[0];
      assert (a + b)[1..] == a[1..] + b;
      RepliesForAppend(cls, a[1..], b);
    }
  }

  /** Helper for `RepliesFollowMessages`, stated without the slot. */
  lemma {:induction false} RepliesForFollowMessages(cls: Classes, events: seq<Event>)
    ensures var r := RepliesFor(cls, events);
      |r| == |TextEvents(events)|
      && forall k :: 0 <= k < |r| ==>
        r[k] == Reply(TextEvents(events)[k].replyToken, ReplyText(FindOtp(cls, TextEvents(events)[k].text)))
    decreases |events|
  {
    if events != [] {
      RepliesForFollowMessages(cls, events[1..]);
      if events[0].TextMessage? {
        assert TextEvents(events) == [events[0]] + TextEvents(events[1..]);
      }
    }
  }

  /**
   Each text message gets exactly one reply, in order, addressed to its reply
   token and chosen from what the search found in that message.
   */
  lemma RepliesFollowMessages(cls: Classes, slot: Slot, events: seq<Event>)
    ensures var d := Dispatch(cls, slot, events);
      |d.replies| == |TextEvents(events)|
      && forall k :: 0 <= k < |d.replies| ==>
        d.replies[k] == Reply(TextEvents(events)[k].replyToken, ReplyText(FindOtp(cls, TextEvents(events)[k].text)))
  {
    DispatchRepliesIgnoreSlot(cls, slot, events);
    RepliesForFollowMessages(cls, events);
  }

  /** Reading any reply of a batch back gives the search result of its message. */
  lemma RepliesReportEachMessage(cls: Classes, slot: Slot, events: seq<Event>, k: nat)
    requires k < |TextEvents(events)|
    ensures k < |Dispatch(cls, slot, events).replies|
    ensures ReportedCode(Dispatch(cls, slot, events).replies[k].text) == FindOtp(cls, TextEvents(events)[k].text)
  {
    RepliesFollowMessages(cls, slot, events);
    ReplyRoundTrip(FindOtp(cls, TextEvents(events)[k].text));
  }

  /**
   Dispatching `a + b` is dispatching `a` and then `b` from where `a` left the
   slot: the same final slot, and `a`'s replies followed by `b`'s.
   */
  lemma DispatchAppend(cls: Classes, slot: Slot, a: seq<Event>, b: seq<Event>)
    ensures Dispatch(cls, slot, a + b).slot == Dispatch(cls, Dispatch(cls, slot, a).slot, b).slot
    ensures Dispatch(cls, slot, a + b).replies
      == Dispatch(cls, slot, a).replies + Dispatch(cls, Dispatch(cls, slot, a).slot, b).replies
  {
    DispatchAppendSlot(cls, slot, a, b);
    DispatchRepliesIgnoreSlot(cls, slot, a + b);
    DispatchRepliesIgnoreSlot(cls, slot, a);
    DispatchRepliesIgnoreSlot(cls, Dispatch(cls, slot, a).slot, b);
    RepliesForAppend(cls, a, b);
  }

  /** Helper for `DispatchAppend`: the slot part. */
  lemma {:induction false} DispatchAppendSlot(cls: Classes, slot: Slot, a: seq<Event>, b: seq<Event>)
    ensures Dispatch(cls, slot, a + b).slot == Dispatch(cls, Dispatch(cls, slot, a).slot, b).slot
    decreases |a|
  {
    if a == [] {
      assert a + b == b;
    } else {
      assert (a + b)[1..] == a[1..] + b;
      var next := if a[0].TextMessage? then HandleMessage(cls, slot, a[0].text).slot else slot;
      DispatchAppendSlot(cls, next, a[1..], b);
    }
  }

  /** A batch whose messages hold no code leaves the slot as it was. */
  lemma NoCodeKeepsSlot(cls: Classes, slot: Slot, events: seq<Event>)
    requires NoCodeIn(cls, events)
    ensures Dispatch(cls, slot, events).slot == slot
    decreases |events|
  {
  }

  /**
   Last write wins: the slot ends up holding the code of the last message in
   the batch that contains one, whatever came before it.
   */
  lemma LastCodeWins(cls: Classes, slot: Slot, before: seq<Event>, e: Event, after: seq<Event>, code: string)
    requires CarriesCode(cls, e, code)
    requires NoCodeIn(cls, after)
    ensures Dispatch(cls, slot, before + [e] + after).slot == Holds(code)
  {
    var mid := Dispatch(cls, slot, before).slot;
    DispatchAppendSlot(cls, slot, before + [e], after);
    DispatchAppendSlot(cls, slot, before, [e]);
    assert Dispatch(cls, mid, [e]).slot == Holds(code);
    NoCodeKeepsSlot(cls, Holds(code), after);
  }

  /** A batch keeps a valid slot valid. */
  lemma DispatchPreservesValidSlot(cls: Classes, slot: Slot, events: seq<Event>)
    requires ValidSlot(cls, slot)
    ensures ValidSlot(cls, Dispatch(cls, slot, events).slot)
    decreases |events|
  {
  }

  /**
   `callback`: on `InvalidSignatureError` the request is aborted with status
   400 before any event is handled; otherwise every event is dispatched and
   the response is `'OK'`.
   */
  function Callback(cls: Classes, slot: Slot, verification: Verification): (o: Outcome)
    ensures verification.InvalidSignature? ==> o.response == Abort(400) && o.slot == slot && o.replies == []
    ensures verification.Verified? ==> o.response == Ok("OK")
    ensures verification.Verified? ==>
      o.slot == slot
      || (o.slot.Holds? && exists k :: 0 <= k < |verification.events| && CarriesCode(cls, verification.events[k], o.slot.contents))
    ensures verification.Verified? ==> |o.replies| == |TextEvents(verification.events)|
    ensures verification.Verified? ==>
      o.slot == Dispatch(cls, slot, verification.events).slot
      && o.replies == Dispatch(cls, slot, verification.events).replies
  {
    match verification
    case InvalidSignature => Outcome(Abort(400), slot, [])
    case Verified(events) =>
      var d := Dispatch(cls, slot, events);
      RepliesFollowMessages(cls, slot, events);
      Outcome(Ok("OK"), d.slot, d.replies)
  }

  /** Whatever the request, a slot that was absent or a six-digit code stays so. */
  lemma CallbackPreservesValidSlot(cls: Classes, slot: Slot, verification: Verification)
    requires ValidSlot(cls, slot)
    ensures ValidSlot(cls, Callback(cls, slot, verification).slot)
  {
  }

  /**
   End to end: an accepted request whose last code-carrying text message
   holds `code` is answered `'OK'` and leaves `code` in the slot.
   */
  lemma AcceptedBatchStoresLastCode(cls: Classes, slot: Slot, before: seq<Event>, e: Event, after: seq<Event>, code: string)
    requires CarriesCode(cls, e, code)
    requires NoCodeIn(cls, after)
    ensures var o := Callback(cls, slot, Verified(before + [e] + after));
      o.response == Ok("OK") && o.slot == Holds(code)
  {
    LastCodeWins(cls, slot, before, e, after, code);
  }
}
