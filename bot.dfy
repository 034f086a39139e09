/**
 * The message event as a whole: the handler reads the variables the ticker
 * writes, and a reply, if there is one, goes through the delete chain with
 * its command's delay.
 */
module Bot {
  import opened Wrappers
  import opened PriceTicker
  import opened Commands
  import opened EphemeralReply

  /**
   * Handles one message against the ticker's current state, given the
   * outcomes of the platform calls the reply chain would make.
   */
  method OnMessage(t: Ticker, cfg: Config, msg: Message, sent: bool, replyDeleted: bool, triggerDeleted: bool)
    returns (response: Option<Response>, timer: Option<nat>, deletions: seq<Target>)
    requires t.Valid()
    ensures response == Respond(cfg, t.Held(), msg)
    ensures response.None? ==> timer == None && deletions == []
    ensures response.Some? ==>
      timer == (if sent then Some(response.value.ttl) else None)
      && deletions == Deletions(sent, replyDeleted)
    ensures (forall i :: 0 <= i < |t.History| ==> t.History[i].Failed?) ==> response == None
  {
    response := HandleMessage(cfg, t.Held(), msg);
    timer, deletions := None, [];
    if response.Some? {
      timer, deletions := Send(response.value.ttl, sent, replyDeleted, triggerDeleted);
    }
    if forall i :: 0 <= i < |t.History| ==> t.History[i].Failed? {
      NoReplyBeforeFirstFetch(cfg, t.History, msg);
    }
  }
}
