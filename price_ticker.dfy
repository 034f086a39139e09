/**
 * The price ticker: an endless loop that asks the feed for the ticker of
 * one trading pair, and on an answer sets the presence status and stores
 * the price and its change in the two variables the command handler reads;
 * every round, answer or not, ends with a sleep of the configured interval.
 * The network request is replaced by its outcome, given to each round.
 */
module PriceTicker {
  import opened Wrappers
  import opened PriceFormat

  /** One record of the feed's answer: its `last` and `change_percentage` fields. */
  datatype TickerRecord = TickerRecord(last: string, changePercentage: Change)

  /** What one feed request resolves to: the answer's list of records, or `null` after any failure. */
  datatype FetchOutcome = Failed | Fetched(records: seq<TickerRecord>)

  /** A price and its change, as stored together after a successful fetch. */
  datatype Snapshot = Snapshot(price: string, change: Change)

  /** Something the loop does, in the order it does it. */
  datatype Event = Fetch(outcome: FetchOutcome) | SetActivity(status: string) | Sleep(ms: int)

  /** The interval setting is in minutes; the loop sleeps that many milliseconds. */
  function SleepTime(minutes: int): int
  {
    minutes * 60 * 1000
  }

  /** The largest delay a timer accepts, in milliseconds. */
  const TimeoutMax := 2147483647

  /** The delay a timer actually waits: one outside 1 to `TimeoutMax` milliseconds is replaced by 1. */
  function TimerDelay(ms: int): (d: int)
    ensures 1 <= d <= TimeoutMax
    ensures 1 <= ms <= TimeoutMax ==> d == ms
    ensures !(1 <= ms <= TimeoutMax) ==> d == 1
  {
    if 1 <= ms <= TimeoutMax then ms else 1
  }

  /**
   * The loop waits the configured interval exactly for 1 to 35791 minutes;
   * any other setting makes it wait 1 millisecond between rounds.
   */
  lemma SleepTakesEffectIff(minutes: int)
    ensures TimerDelay(SleepTime(minutes)) == SleepTime(minutes) <==> 1 <= minutes <= 35791
    ensures !(1 <= minutes <= 35791) ==> TimerDelay(SleepTime(minutes)) == 1
  {
    if minutes >= 35792 {
      assert SleepTime(minutes) >= 35792 * 60000;
    } else if 1 <= minutes {
      assert SleepTime(minutes) <= 35791 * 60000;
    }
  }

  /** An answer the loop can read: the code takes its first record without checking that there is one. */
  predicate Readable(o: FetchOutcome)
  {
    o.Fetched? ==> |o.records| > 0
  }

  predicate AllReadable(h: seq<FetchOutcome>)
  {
    forall i :: 0 <= i < |h| ==> Readable(h[i])
  }

  /** What a successful fetch stores: the first record's price and change. */
  function SnapshotOf(o: FetchOutcome): Snapshot
    requires o.Fetched? && |o.records| > 0
  {
    Snapshot(o.records[0].last, o.records[0].changePercentage)
  }

  /** The snapshot of the last successful fetch among `h`, if any succeeded. */
  function LastSuccess(h: seq<FetchOutcome>): Option<Snapshot>
    requires AllReadable(h)
  {
    if h == [] then None
    else if h[|h| - 1].Fetched? then Some(SnapshotOf(h[|h| - 1]))
    else LastSuccess(h[..|h| - 1])
  }

  /** What one round of the loop does for the outcome `o`. */
  function Round(o: FetchOutcome, ms: int): seq<Event>
    requires Readable(o)
  {
    [Fetch(o)]
    + (if o.Fetched? then [SetActivity(Status(SnapshotOf(o).price, SnapshotOf(o).change))] else [])
    + [Sleep(ms)]
  }

  /** What the loop does for the outcomes `h`, round after round. */
  function Trace(h: seq<FetchOutcome>, ms: int): seq<Event>
    requires AllReadable(h)
  {
    if h == [] then [] else Trace(h[..|h| - 1], ms) + Round(h[|h| - 1], ms)
  }

  /** The fetch outcomes recorded in a trace, in order. */
  function Fetches(t: seq<Event>): seq<FetchOutcome>
  {
    if t == [] then []
    else (if t[0].Fetch? then [t[0].outcome] else []) + Fetches(t[1..])
  }

  /**
   * The stored snapshot is the one of the last successful fetch: nothing is
   * stored while every fetch failed, and otherwise some fetch succeeded,
   * stored exactly its first record, and every later fetch failed.
   */
  lemma {:induction false} LastSuccessIsLastFetched(h: seq<FetchOutcome>)
    requires AllReadable(h)
    ensures LastSuccess(h).None? <==> forall i :: 0 <= i < |h| ==> h[i].Failed?
    ensures LastSuccess(h).Some? ==>
      exists i :: 0 <= i < |h| && h[i].Fetched? && LastSuccess(h).value == SnapshotOf(h[i])
        && forall j :: i < j < |h| ==> h[j].Failed?
  {
    if h != [] {
      var init := h[..|h| - 1];
      LastSuccessIsLastFetched(init);
      if h[|h| - 1].Fetched? {
        assert LastSuccess(h).value == SnapshotOf(h[|h| - 1]);
      } else if LastSuccess(init).Some? {
        var i :| 0 <= i < |init| && init[i].Fetched? && LastSuccess(init).value == SnapshotOf(init[i])
          && forall j :: i < j < |init| ==> init[j].Failed?;
        assert h[i] == init[i];
      } else {
        assert forall i :: 0 <= i < |h| - 1 ==> h[i] == init[i];
      }
    }
  }

  /** Failed fetches leave the stored snapshot as it was. */
  lemma {:induction false} FailuresKeepSnapshot(h: seq<FetchOutcome>, failures: seq<FetchOutcome>)
    requires AllReadable(h)
    requires forall o <- failures :: o.Failed?
    ensures AllReadable(h + failures)
    ensures LastSuccess(h + failures) == LastSuccess(h)
    decreases |failures|
  {
    if failures != [] {
      var init := failures[..|failures| - 1];
      assert (h + failures)[..|h + failures| - 1] == h + init;
      assert forall o <- init :: o in failures;
      FailuresKeepSnapshot(h, init);
      assert failures[|failures| - 1] in failures;
      assert (h + failures)[|h + failures| - 1] == failures[|failures| - 1];
    } else {
      assert h + failures == h;
    }
  }

  /** Once a snapshot is stored, there always is one: the state never goes back to "no price yet". */
  lemma {:induction false} StaysInitialized(h: seq<FetchOutcome>, later: seq<FetchOutcome>)
    requires AllReadable(h) && AllReadable(later)
    requires LastSuccess(h).Some?
    ensures AllReadable(h + later)
    ensures LastSuccess(h + later).Some?
    decreases |later|
  {
    if later != [] {
      var init := later[..|later| - 1];
      assert (h + later)[..|h + later| - 1] == h + init;
      StaysInitialized(h, init);
      assert (h + later)[|h + later| - 1] == later[|later| - 1];
    } else {
      assert h + later == h;
    }
  }

  /**
   * Rounds never overlap: the trace starts with a fetch, ends with a sleep of
   * the configured length, every fetch after the first comes right after
   * such a sleep, and the fetches are the outcomes, one per round, in order.
   */
  lemma {:induction false} RoundsNeverOverlap(h: seq<FetchOutcome>, ms: int)
    requires AllReadable(h)
    ensures var t := Trace(h, ms);
      (h != [] ==> t != [] && t[0] == Fetch(h[0]) && t[|t| - 1] == Sleep(ms))
      && (forall j :: 0 < j < |t| && t[j].Fetch? ==> t[j - 1] == Sleep(ms))
      && Fetches(t) == h
  {
    if h != [] {
      var init := h[..|h| - 1];
      var o := h[|h| - 1];
      RoundsNeverOverlap(init, ms);
      var t0 := Trace(init, ms);
      var r := Round(o, ms);
      var t := t0 + r;
      assert Trace(h, ms) == t;
      forall j | 0 < j < |t| && t[j].Fetch?
        ensures t[j - 1] == Sleep(ms)
      {
        if j < |t0| {
          assert t[j] == t0[j] && t[j - 1] == t0[j - 1];
        } else if j == |t0| {
          assert t[j - 1] == t0[|t0| - 1];
        } else {
          assert false;
        }
      }
      FetchesAppend(t0, r);
      assert Fetches(r) == [o] by {
        assert r[1..][1..] == if o.Fetched? then [Sleep(ms)] else [];
        assert Fetches([Sleep(ms)]) == [] by { assert [Sleep(ms)][1..] == []; }
      }
      if init == [] {
        assert t == r;
      } else {
        assert t[0] == t0[0];
        assert h[0] == init[0];
      }
      assert init + [o] == h;
    }
  }

  /** The fetches of two traces one after the other are the fetches of the first, then of the second. */
  lemma {:induction false} FetchesAppend(a: seq<Event>, b: seq<Event>)
    ensures Fetches(a + b) == Fetches(a) + Fetches(b)
    decreases |a|
  {
    if a == [] {
      assert a + b == b;
    } else {
      assert (a + b)[0] == a[0];
      assert (a + b)[1..] == a[1..] + b;
      FetchesAppend(a[1..], b);
    }
  }

  /**
   * The loop's state: the two variables it writes (and the command handler
   * reads), the sleep interval, and as ghost state the outcomes seen so far
   * and what the loop has done.
   */
  class Ticker {
    var currentPrice: Option<string>
    var currentPriceChange: Option<Change>
    const sleepTime: int
    ghost var History: seq<FetchOutcome>
    ghost var Events: seq<Event>

    /** Both variables are set together, they hold the last successful fetch, and the events are the rounds run so far. */
    ghost predicate Valid()
      reads this
    {
      AllReadable(History)
      && (currentPrice.None? <==> currentPriceChange.None?)
      && Held() == LastSuccess(History)
      && Events == Trace(History, TimerDelay(sleepTime))
    }

    /** The price and change the command handler sees, or `None` while no price is known. */
    function Held(): Option<Snapshot>
      reads this
    {
      if currentPrice.Some? && currentPriceChange.Some?
      then Some(Snapshot(currentPrice.value, currentPriceChange.value))
      else None
    }

    /** Both variables start as `null`; the interval is read in minutes. */
    constructor (minutes: int)
      ensures Valid()
      ensures History == [] && currentPrice == None && currentPriceChange == None
      ensures sleepTime == SleepTime(minutes)
    {
      currentPrice := None;
      currentPriceChange := None;
      sleepTime := SleepTime(minutes);
      History := [];
      Events := [];
    }

    /**
     * One round of the loop.  On an answer the status is built from the first
     * record and both variables are overwritten with its fields; on `null`
     * nothing is stored.  Either way the round ends with the sleep, for the
     * interval as the timer takes it.
     */
    method Tick(outcome: FetchOutcome) returns (status: Option<string>, slept: int)
      requires Valid() && Readable(outcome)
      modifies this
      ensures Valid()
      ensures History == old(History) + [outcome]
      ensures Events == old(Events) + Round(outcome, slept)
      ensures slept == TimerDelay(sleepTime)
      ensures outcome.Failed? ==>
        status == None && currentPrice == old(currentPrice) && currentPriceChange == old(currentPriceChange)
      ensures outcome.Fetched? ==>
        status == Some(Status(outcome.records[0].last, outcome.records[0].changePercentage))
        && currentPrice == Some(outcome.records[0].last)
        && currentPriceChange == Some(outcome.records[0].changePercentage)
    {
      Events := Events + [Fetch(outcome)];
      if outcome.Fetched? {
        var wit := outcome.records[0];
        var price := wit.last;
        var priceChange := wit.changePercentage;
        status := Some(Status(price, priceChange));
        Events := Events + [SetActivity(status.value)];
        currentPrice := Some(price);
        currentPriceChange := Some(priceChange);
      } else {
        status := None;
      }
      slept := TimerDelay(sleepTime);
      Events := Events + [Sleep(slept)];
      ghost var h := History + [outcome];
      assert h[..|h| - 1] == History;
      History := h;
    }

    /** The first rounds of the endless loop, one per outcome. */
    method Run(outcomes: seq<FetchOutcome>)
      requires Valid() && AllReadable(outcomes)
      modifies this
      ensures Valid()
      ensures History == old(History) + outcomes
      ensures Held() == LastSuccess(old(History) + outcomes)
    {
      var i := 0;
      while i < |outcomes|
        invariant 0 <= i <= |outcomes|
        invariant Valid()
        invariant History == old(History) + outcomes[..i]
      {
        assert outcomes[..i + 1] == outcomes[..i] + [outcomes[i]];
        var _, _ := Tick(outcomes[i]);
        i := i + 1;
      }
      assert outcomes[..i] == outcomes;
    }
  }
}
