/**
 `handle_message`: search the text for a code, overwrite the OTP slot
 (the file `otp.txt`, opened in mode "w") when one is found, and choose the
 reply text.
 */
module MessageHandler {
  import opened Wrappers
  import opened CharClasses
  import opened OtpSearch

  /** The contents of `otp.txt`: the file may not exist yet. */
  datatype Slot = Missing | Holds(contents: string)

  /** What handling one text message leaves behind. */
  datatype Handled = Handled(slot: Slot, reply: string)

  const ThanksPrefix := "Thank you! OTP "
  const ThanksSuffix := " received."

  /**
   The reply when no code is found. Written as two literals because the
   verifier only looks inside string literals of moderate length.
   */
  const RetryReply := "That does not look like a 6-digit code." + " Please try again."

  /** The reply when `code` was found and stored; it can never be taken for the retry reply. */
  function ThanksReply(code: string): (reply: string)
    ensures reply != RetryReply
  {
    var reply := ThanksPrefix + code + ThanksSuffix;
    assert reply[3] == 'n' && RetryReply[3] == 't';
    reply
  }

  /** Different codes give different thank-you replies. */
  lemma ThanksReplyInjective(a: string, b: string)
    requires ThanksReply(a) == ThanksReply(b)
    ensures a == b
  {
    var ra, rb := ThanksReply(a), ThanksReply(b);
    assert |a| == |ra| - |ThanksPrefix| - |ThanksSuffix| == |b|;
    assert a == ra[|ThanksPrefix|..|ThanksPrefix| + |a|];
    assert b == rb[|ThanksPrefix|..|ThanksPrefix| + |b|];
  }

  /** Handle one text message, given the slot as it was before. */
  function HandleMessage(cls: Classes, slot: Slot, text: string): (h: Handled)
    ensures (exists i :: MatchAt(cls, text, i)) ==>
      h.slot.Holds? && LeftmostCode(cls, text, h.slot.contents)
      && h.reply == ThanksReply(h.slot.contents)
    ensures (forall i :: !MatchAt(cls, text, i)) ==>
      h.slot == slot && h.reply == RetryReply
  {
    var found := FindOtp(cls, text);
    Handled(if found.Some? then Holds(found.value) else slot, ReplyText(found))
  }

  /** The reply chosen for the outcome of the search: thanks for a code, the retry text otherwise. */
  function ReplyText(found: Option<string>): (reply: string)
    ensures reply == RetryReply <==> found.None?
  {
    match found
    case Some(code) => ThanksReply(code)
    case None => RetryReply
  }

  /** The slot is absent or holds exactly six digits. */
  predicate ValidSlot(cls: Classes, slot: Slot)
  {
    slot.Holds? ==>
      |slot.contents| == CodeLength && forall k :: 0 <= k < |slot.contents| ==> cls.digit(slot.contents[k])
  }

  /** Handling a message keeps the slot either absent or a six-digit code. */
  lemma HandlePreservesValidSlot(cls: Classes, slot: Slot, text: string)
    requires ValidSlot(cls, slot)
    ensures ValidSlot(cls, HandleMessage(cls, slot, text).slot)
  {
  }

  /**
   Mode "w" truncates: once a message holds a code, the slot afterwards does
   not depend on what it held before (nothing of the old contents is kept).
   */
  lemma MatchOverwritesSlot(cls: Classes, before1: Slot, before2: Slot, text: string)
    requires exists i :: MatchAt(cls, text, i)
    ensures HandleMessage(cls, before1, text).slot == HandleMessage(cls, before2, text).slot
    ensures HandleMessage(cls, before1, text).slot == Holds(FindOtp(cls, text).value)
  {
  }

  /** Handling the same message twice leaves the same slot and reply as handling it once. */
  lemma HandleIsIdempotent(cls: Classes, slot: Slot, text: string)
    ensures var once := HandleMessage(cls, slot, text);
            HandleMessage(cls, once.slot, text) == once
  {
  }

  /** Reads the code back out of a reply; `None` for the retry reply. */
  function ReportedCode(reply: string): (r: Option<string>)
    ensures r.Some? ==> ThanksReply(r.value) == reply
  {
    if |reply| >= |ThanksPrefix| + |ThanksSuffix|
       && reply[..|ThanksPrefix|] == ThanksPrefix
       && reply[|reply| - |ThanksSuffix|..] == ThanksSuffix
    then
      var code := reply[|ThanksPrefix|..|reply| - |ThanksSuffix|];
      assert reply == ThanksPrefix + code + ThanksSuffix;
      Some(code)
    else None
  }

  /** The reply tells the sender exactly what was found: the code, or that there was none. */
  lemma {:induction false} ReplyRoundTrip(found: Option<string>)
    ensures ReportedCode(ReplyText(found)) == found
  {
    match found
    case Some(code) =>
      var reply := ThanksReply(code);
      assert reply == ThanksPrefix + code + ThanksSuffix;
      assert reply[..|ThanksPrefix|] == ThanksPrefix;
      assert reply[|reply| - |ThanksSuffix|..] == ThanksSuffix;
      assert reply[|ThanksPrefix|..|reply| - |ThanksSuffix|] == code;
    case None =>
      assert RetryReply[3] == 't' && ThanksPrefix[3] == 'n';
      assert RetryReply[..|ThanksPrefix|] != ThanksPrefix;
  }

  /** So the reply to a message reports exactly what the search found in it. */
  lemma ReplyReportsOutcome(cls: Classes, slot: Slot, text: string)
    ensures ReportedCode(HandleMessage(cls, slot, text).reply) == FindOtp(cls, text)
  {
    ReplyRoundTrip(FindOtp(cls, text));
  }
}
