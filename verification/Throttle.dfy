/**
 services/authentication.py, `LoginThrottle`: at most `maximum` accepted login attempts of a client in
 any window, kept as a queue of recent attempts. The specification keeps the whole log.
 */
module Throttle {
  import opened Ids

  /** The queue with the attempts older than the window taken from its front. */
  function Pruned(attempts: seq<Time>, now: Time, window: int): seq<Time> {
    if attempts != [] && now - attempts[0] > window then Pruned(attempts[1..], now, window) else attempts
  }

  /** `_attempts` is a defaultdict: a key without a queue has an empty one. */
  function QueueOf(attempts: map<string, seq<Time>>, key: string): seq<Time> {
    if key in attempts then attempts[key] else []
  }

  class LoginThrottle {
    const maximum: int
    const window: int
    var attempts: map<string, seq<Time>>

    constructor (maximum: int := 5, windowSeconds: int := 300)
      ensures this.maximum == maximum && window == windowSeconds * SECOND && attempts == map[]
    {
      this.maximum := maximum;
      this.window := windowSeconds * SECOND;
      attempts := map[];
    }

    /** Answers false where `check_and_record` raises RateLimited. */
    method CheckAndRecord(key: string, now: Time) returns (accepted: bool)
      modifies this
      ensures var kept := Pruned(QueueOf(old(attempts), key), now, window);
              && accepted == (|kept| < maximum)
              && attempts == old(attempts)[key := if accepted then kept + [now] else kept]
      ensures QueueOf(attempts, key) == Queued(QueueOf(old(attempts), key), Attempt(now), maximum, window)
    {
      if key !in attempts {
        attempts := attempts[key := []];
      }
      ghost var before := attempts[key];
      while attempts[key] != [] && now - attempts[key][0] > window
        invariant key in attempts && Pruned(attempts[key], now, window) == Pruned(before, now, window)
        invariant attempts == old(attempts)[key := attempts[key]]
        decreases |attempts[key]|
      {
        attempts := attempts[key := attempts[key][1..]];
      }
      if |attempts[key]| >= maximum {
        return false;
      }
      attempts := attempts[key := attempts[key] + [now]];
      return true;
    }

    method Clear(key: string)
      modifies this
      ensures attempts == old(attempts) - {key}
      ensures QueueOf(attempts, key) == Queued(QueueOf(old(attempts), key), Cleared, maximum, window)
    {
      attempts := attempts - {key};
    }
  }

  // ---- the specification: the log of accepted attempts since the last clear ----

  datatype Event = Attempt(now: Time) | Cleared

  /** How many of the logged attempts are not older than the window. */
  function Recent(log: seq<Time>, now: Time, window: int): nat {
    if log == [] then 0 else (if now - log[0] <= window then 1 else 0) + Recent(log[1..], now, window)
  }

  predicate Admits(log: seq<Time>, now: Time, maximum: int, window: int) {
    Recent(log, now, window) < maximum
  }

  /** The log after an event. */
  function Logged(log: seq<Time>, e: Event, maximum: int, window: int): seq<Time> {
    match e
    case Cleared => []
    case Attempt(now) => if Admits(log, now, maximum, window) then log + [now] else log
  }

  /** The throttle's queue for one client after an event, as CheckAndRecord and Clear leave it. */
  function Queued(queue: seq<Time>, e: Event, maximum: int, window: int): seq<Time> {
    match e
    case Cleared => []
    case Attempt(now) =>
      var kept := Pruned(queue, now, window);
      if |kept| < maximum then kept + [now] else kept
  }

  function LogAfter(events: seq<Event>, maximum: int, window: int): seq<Time> {
    if events == [] then [] else Logged(LogAfter(events[..|events| - 1], maximum, window), events[|events| - 1], maximum, window)
  }

  function QueueAfter(events: seq<Event>, maximum: int, window: int): seq<Time> {
    if events == [] then [] else Queued(QueueAfter(events[..|events| - 1], maximum, window), events[|events| - 1], maximum, window)
  }

  /** The clock never goes back. */
  predicate Forward(events: seq<Event>) {
    forall i, j :: 0 <= i < j < |events| && events[i].Attempt? && events[j].Attempt? ==> events[i].now <= events[j].now
  }

  predicate Ascending(log: seq<Time>) {
    forall i, j :: 0 <= i < j < |log| ==> log[i] <= log[j]
  }

  /** The queue is the end of the log, and what is missing from it had left the window by the given time. */
  predicate Remembers(queue: seq<Time>, log: seq<Time>, now: Time, window: int) {
    && |queue| <= |log| && queue == log[|log| - |queue|..]
    && Ascending(log)
    && forall i :: 0 <= i < |log| ==> log[i] <= now && (i < |log| - |queue| ==> now - log[i] > window)
  }

  lemma {:induction false} PrunedForgetsOldOnly(queue: seq<Time>, log: seq<Time>, now: Time, window: int)
    requires Remembers(queue, log, now, window)
    ensures Remembers(Pruned(queue, now, window), log, now, window)
    ensures var kept := Pruned(queue, now, window); kept != [] ==> now - kept[0] <= window
    decreases |queue|
  {
    if queue != [] && now - queue[0] > window {
      assert queue[0] == log[|log| - |queue|];
      PrunedForgetsOldOnly(queue[1..], log, now, window);
    }
  }

  lemma {:induction false} RecentOfOld(log: seq<Time>, now: Time, window: int)
    requires forall i :: 0 <= i < |log| ==> now - log[i] > window
    ensures Recent(log, now, window) == 0
  {
    if log != [] { RecentOfOld(log[1..], now, window); }
  }

  lemma {:induction false} RecentOfNew(log: seq<Time>, now: Time, window: int)
    requires forall i :: 0 <= i < |log| ==> now - log[i] <= window
    ensures Recent(log, now, window) == |log|
  {
    if log != [] { RecentOfNew(log[1..], now, window); }
  }

  lemma {:induction false} RecentConcat(a: seq<Time>, b: seq<Time>, now: Time, window: int)
    ensures Recent(a + b, now, window) == Recent(a, now, window) + Recent(b, now, window)
  {
    if a == [] {
      assert a + b == b;
    } else {
      RecentConcat(a[1..], b, now, window);
      assert (a + b)[1..] == a[1..] + b;
    }
  }

  /** What is left of a pruned queue are the recent attempts of the log. */
  lemma PrunedCountsRecent(queue: seq<Time>, log: seq<Time>, now: Time, window: int)
    requires Remembers(queue, log, now, window)
    ensures |Pruned(queue, now, window)| == Recent(log, now, window)
  {
    PrunedForgetsOldOnly(queue, log, now, window);
    var kept := Pruned(queue, now, window);
    var gone := log[..|log| - |kept|];
    assert log == gone + kept;
    RecentConcat(gone, kept, now, window);
    RecentOfOld(gone, now, window);
    RecentOfNew(kept, now, window);
  }

  lemma RemembersLater(queue: seq<Time>, log: seq<Time>, earlier: Time, now: Time, window: int)
    requires Remembers(queue, log, earlier, window) && earlier <= now
    ensures Remembers(queue, log, now, window)
  {
  }

  /** One event keeps the queue in step with the log, and both take the same decision. */
  lemma EventInStep(queue: seq<Time>, log: seq<Time>, e: Event, earlier: Time, maximum: int, window: int)
    requires Remembers(queue, log, earlier, window) && window >= 0 && (e.Attempt? ==> earlier <= e.now)
    ensures Remembers(Queued(queue, e, maximum, window), Logged(log, e, maximum, window), if e.Attempt? then e.now else earlier, window)
    ensures e.Attempt? ==> (|Pruned(queue, e.now, window)| < maximum <==> Admits(log, e.now, maximum, window))
  {
    hide Remembers, Pruned, Recent;
    if e.Attempt? {
      RemembersLater(queue, log, earlier, e.now, window);
      PrunedForgetsOldOnly(queue, log, e.now, window);
      PrunedCountsRecent(queue, log, e.now, window);
      RemembersOneMore(Pruned(queue, e.now, window), log, e.now, window);
    } else {
      RemembersNothing(earlier, window);
    }
  }

  lemma RemembersOneMore(queue: seq<Time>, log: seq<Time>, now: Time, window: int)
    requires Remembers(queue, log, now, window)
    ensures Remembers(queue + [now], log + [now], now, window)
  {
  }

  lemma RemembersNothing(now: Time, window: int)
    ensures Remembers([], [], now, window)
  {
  }

  /** The last clock reading among the events, or an earlier one. */
  function LastTime(events: seq<Event>, start: Time): Time {
    if events == [] then start
    else match events[|events| - 1]
      case Attempt(now) => now
      case Cleared => LastTime(events[..|events| - 1], start)
  }

  lemma {:induction false} QueueRemembersLog(events: seq<Event>, start: Time, maximum: int, window: int)
    requires Forward(events) && window >= 0
    requires forall i :: 0 <= i < |events| && events[i].Attempt? ==> start <= events[i].now
    ensures Remembers(QueueAfter(events, maximum, window), LogAfter(events, maximum, window), LastTime(events, start), window)
    ensures LastTime(events, start) == start || exists i :: 0 <= i < |events| && events[i] == Attempt(LastTime(events, start))
    decreases |events|
  {
    hide Remembers, Queued, Logged;
    RemembersNothing(start, window);
    if events != [] {
      var before, e := events[..|events| - 1], events[|events| - 1];
      QueueRemembersLog(before, start, maximum, window);
      if LastTime(before, start) != start {
        var i :| 0 <= i < |before| && before[i] == Attempt(LastTime(before, start));
        assert events[i] == before[i];
      }
      EventInStep(QueueAfter(before, maximum, window), LogAfter(before, maximum, window), e, LastTime(before, start), maximum, window);
    }
  }

  /**
   The throttle refines the full log: after any events with a clock that never goes back, an attempt is
   accepted if and only if fewer than `maximum` attempts accepted since the last clear are in the window.
   */
  lemma ThrottleRefinesLog(events: seq<Event>, now: Time, maximum: int, window: int)
    requires window >= 0 && Forward(events + [Attempt(now)])
    ensures |Pruned(QueueAfter(events, maximum, window), now, window)| < maximum
            <==> Recent(LogAfter(events, maximum, window), now, window) < maximum
  {
    var all := events + [Attempt(now)];
    assert forall i :: 0 <= i < |events| ==> events[i] == all[i];
    assert all[|events|] == Attempt(now);
    var start := EarlyTime(events, now);
    QueueRemembersLog(events, start, maximum, window);
    RemembersLater(QueueAfter(events, maximum, window), LogAfter(events, maximum, window), LastTime(events, start), now, window);
    PrunedCountsRecent(QueueAfter(events, maximum, window), LogAfter(events, maximum, window), now, window);
  }

  /** A time before every event. */
  lemma {:induction false} EarlyTime(events: seq<Event>, now: Time) returns (start: Time)
    ensures start <= now && forall i :: 0 <= i < |events| && events[i].Attempt? ==> start <= events[i].now
    decreases |events|
  {
    start := now;
    if events != [] {
      start := EarlyTime(events[1..], now);
      if events[0].Attempt? && events[0].now < start { start := events[0].now; }
    }
  }

  // ---- what the log promises ----

  /** Between two accepted attempts `maximum` places apart more than the window has passed. */
  predicate Spaced(log: seq<Time>, maximum: int, window: int)
    requires maximum >= 1
  {
    forall i :: 0 <= i < |log| ==> Gap(log, i, maximum, window)
  }

  predicate Gap(log: seq<Time>, i: nat, maximum: int, window: int)
    requires maximum >= 1
  {
    i + maximum < |log| ==> log[i + maximum] - log[i] > window
  }

  lemma {:induction false} LogIsSpaced(events: seq<Event>, maximum: int, window: int)
    requires Forward(events) && maximum >= 1 && window >= 0
    ensures Spaced(LogAfter(events, maximum, window), maximum, window)
    decreases |events|
  {
    hide Recent, Ascending;
    if events != [] {
      var before, e := events[..|events| - 1], events[|events| - 1];
      LogIsSpaced(before, maximum, window);
      var log := LogAfter(before, maximum, window);
      LogAscends(before, maximum, window);
      if e.Attempt? && Admits(log, e.now, maximum, window) && |log| >= maximum {
        AdmittedAfterGap(log, e.now, maximum, window);
      }
      var after := LogAfter(events, maximum, window);
      forall i | 0 <= i < |after| ensures Gap(after, i, maximum, window) {
        if i < |log| { assert Gap(log, i, maximum, window); }
      }
    }
  }

  lemma LogAscends(events: seq<Event>, maximum: int, window: int)
    requires Forward(events) && window >= 0
    ensures Ascending(LogAfter(events, maximum, window))
  {
    hide LogAfter, QueueAfter;
    var start := EarlyTime(events, 0);
    QueueRemembersLog(events, start, maximum, window);
  }

  lemma AdmittedAfterGap(log: seq<Time>, now: Time, maximum: int, window: int)
    requires Ascending(log) && Admits(log, now, maximum, window) && 1 <= maximum <= |log|
    ensures now - log[|log| - maximum] > window
  {
    var last := log[|log| - maximum..];
    assert log == log[..|log| - maximum] + last;
    RecentConcat(log[..|log| - maximum], last, now, window);
    if now - log[|log| - maximum] <= window {
      assert forall i :: 0 <= i < |last| ==> last[i] == log[|log| - maximum + i];
      RecentOfNew(last, now, window);
    }
  }

  /**
   No window holds too many: of the attempts accepted since the last clear, any `maximum + 1` in a row
   span more than the window, so no interval of that length contains more than `maximum` of them.
   */
  lemma WindowsHoldAtMostMaximum(events: seq<Event>, maximum: int, window: int, from: Time, i: nat, j: nat)
    requires Forward(events) && maximum >= 1 && window >= 0
    requires var log := LogAfter(events, maximum, window);
             i <= j < |log| && from <= log[i] && log[j] <= from + window
    ensures j - i + 1 <= maximum
  {
    LogIsSpaced(events, maximum, window);
    LogAscends(events, maximum, window);
    assert Gap(LogAfter(events, maximum, window), i, maximum, window);
  }

  /** The queue never holds more than the maximum. */
  lemma {:induction false} QueueIsBounded(events: seq<Event>, maximum: int, window: int)
    requires maximum >= 0
    ensures |QueueAfter(events, maximum, window)| <= maximum
    decreases |events|
  {
    if events != [] {
      var before := events[..|events| - 1];
      QueueIsBounded(before, maximum, window);
      if events[|events| - 1].Attempt? {
        PrunedIsShorter(QueueAfter(before, maximum, window), events[|events| - 1].now, window);
      }
    }
  }

  lemma {:induction false} PrunedIsShorter(queue: seq<Time>, now: Time, window: int)
    ensures |Pruned(queue, now, window)| <= |queue|
  {
    if queue != [] && now - queue[0] > window { PrunedIsShorter(queue[1..], now, window); }
  }

  /** A rejected attempt leaves no trace: later attempts are decided as if it had not been made. */
  lemma {:induction false} RejectionLeavesNoTrace(queue: seq<Time>, rejected: Time, now: Time, window: int)
    requires rejected <= now
    ensures Pruned(Pruned(queue, rejected, window), now, window) == Pruned(queue, now, window)
    decreases |queue|
  {
    if queue != [] && rejected - queue[0] > window {
      RejectionLeavesNoTrace(queue[1..], rejected, now, window);
    }
  }
}
