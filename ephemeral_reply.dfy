/**
 * The reply-then-delete chain every command runs: send the reply; once the
 * send has succeeded, start a timer; when it fires, delete the reply, and
 * only once that deletion has succeeded, delete the triggering message.
 * Every failure is logged and ends the chain; nothing is retried.  The
 * outcome of each platform call is given to the step that receives it.
 */
module EphemeralReply {
  import opened Wrappers

  /** The two messages a chain may delete. */
  datatype Target = ReplyMessage | TriggerMessage

  /** Where the chain of callbacks stands. */
  datatype Phase = Sending | Waiting | DeletingReply | DeletingTrigger | Finished

  /** The delete calls a whole chain issues, given whether the send and the reply's deletion succeeded. */
  function Deletions(sent: bool, replyDeleted: bool): seq<Target>
  {
    if !sent then []
    else if !replyDeleted then [ReplyMessage]
    else [ReplyMessage, TriggerMessage]
  }

  /** The delete calls issued so far are nothing, the reply's, or the reply's then the trigger's. */
  predicate InOrder(d: seq<Target>)
  {
    d == [] || d == [ReplyMessage] || d == [ReplyMessage, TriggerMessage]
  }

  /**
   * Each message is deleted at most once, the reply before the trigger; the
   * reply is deleted exactly when the send succeeded, the trigger exactly
   * when the reply's deletion succeeded too.
   */
  lemma DeletionsOnceReplyFirst(sent: bool, replyDeleted: bool)
    ensures var d := Deletions(sent, replyDeleted);
      InOrder(d)
      && (forall i, j :: 0 <= i < j < |d| ==> d[i] != d[j])
      && (ReplyMessage in d <==> sent)
      && (TriggerMessage in d <==> sent && replyDeleted)
      && (TriggerMessage in d ==> d[0] == ReplyMessage)
  {
  }

  /** One chain, stepped through the callbacks of the platform calls. */
  class Chain {
    const ttl: nat
    var phase: Phase
    /** The delay of the deletion timer, once one has been started. */
    var timer: Option<nat>
    /** The delete calls issued, in order. */
    var deletions: seq<Target>

    /** No timer before the send succeeds, no deletion before the timer fires, and deletions in order. */
    ghost predicate Valid()
      reads this
    {
      InOrder(deletions)
      && (phase == Sending ==> timer == None && deletions == [])
      && (phase == Waiting ==> timer == Some(ttl) && deletions == [])
      && (phase == DeletingReply ==> timer == Some(ttl) && deletions == [ReplyMessage])
      && (phase == DeletingTrigger ==> timer == Some(ttl) && deletions == [ReplyMessage, TriggerMessage])
      && (phase == Finished ==> (timer == None) == (deletions == []))
      && (timer.Some? ==> timer == Some(ttl))
    }

    /** `msg.reply(...)` has been called. */
    constructor (ttl: nat)
      ensures Valid() && this.ttl == ttl && phase == Sending
    {
      this.ttl := ttl;
      phase := Sending;
      timer := None;
      deletions := [];
    }

    /** The send settles: on success the deletion timer starts with the command's delay, on failure the chain ends. */
    method SendSettled(sent: bool)
      requires Valid() && phase == Sending
      modifies this
      ensures Valid() && deletions == []
      ensures sent ==> phase == Waiting && timer == Some(ttl)
      ensures !sent ==> phase == Finished && timer == None
    {
      if sent {
        timer := Some(ttl);
        phase := Waiting;
      } else {
        phase := Finished;
      }
    }

    /** The timer fires: the reply is deleted. */
    method TimerFired()
      requires Valid() && phase == Waiting
      modifies this
      ensures Valid() && phase == DeletingReply && timer == old(timer)
      ensures deletions == old(deletions) + [ReplyMessage]
    {
      deletions := deletions + [ReplyMessage];
      phase := DeletingReply;
    }

    /** The reply's deletion settles: on success the trigger is deleted, on failure the chain ends. */
    method ReplyDeleteSettled(deleted: bool)
      requires Valid() && phase == DeletingReply
      modifies this
      ensures Valid() && timer == old(timer)
      ensures deleted ==> phase == DeletingTrigger && deletions == old(deletions) + [TriggerMessage]
      ensures !deleted ==> phase == Finished && deletions == old(deletions)
    {
      if deleted {
        deletions := deletions + [TriggerMessage];
        phase := DeletingTrigger;
      } else {
        phase := Finished;
      }
    }

    /** The trigger's deletion settles; whatever its outcome, the chain ends. */
    method TriggerDeleteSettled(deleted: bool)
      requires Valid() && phase == DeletingTrigger
      modifies this
      ensures Valid() && phase == Finished
      ensures timer == old(timer) && deletions == old(deletions)
    {
      phase := Finished;
    }
  }

  /**
   * A whole chain for the given outcomes: the timer is started with the
   * delay exactly when the send succeeds, and the delete calls issued are
   * those of `Deletions`; the trigger's own deletion outcome changes nothing.
   */
  method Send(ttl: nat, sent: bool, replyDeleted: bool, triggerDeleted: bool)
    returns (timer: Option<nat>, deletions: seq<Target>)
    ensures timer == (if sent then Some(ttl) else None)
    ensures deletions == Deletions(sent, replyDeleted)
  {
    var chain := new Chain(ttl);
    chain.SendSettled(sent);
    if chain.phase == Waiting {
      chain.TimerFired();
      chain.ReplyDeleteSettled(replyDeleted);
      if chain.phase == DeletingTrigger {
        chain.TriggerDeleteSettled(triggerDeleted);
      }
    }
    timer, deletions := chain.timer, chain.deletions;
  }
}
