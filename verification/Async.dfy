/**
  * The notification handle of cat_async.c.  Another thread notifies once; the owner calls
  * wait_and_close or cleanup.  Resuming the waiting coroutine runs the rest of its wait at
  * once, so a step below is everything up to the next point where control goes back to the
  * event loop.
  */
module Async {
  datatype Event =
    | Notified                 // the loop runs the callback of the notification
    | WaitCalled               // wait_and_close is called
    | CleanupCalled            // cleanup is called
    | WaitOver(ret: bool)      // cat_time_wait returns without the callback: failed, or cancelled

  /** waiting stands for coroutine != NULL, closes for the number of calls of uv_close. */
  datatype State = State(done: bool, closing: bool, waiting: bool, closes: nat)

  const FRESH := State(false, false, false, 0)

  function Closed(s: State): State
  {
    s.(closes := s.closes + 1)
  }

  /** What an event makes of the handle. */
  function After(s: State, e: Event): State
  {
    match e
    case Notified =>
      if s.waiting then State(true, true, false, s.closes + 1)
      else if s.closing then Closed(s.(done := true))
      else s.(done := true)
    case WaitCalled =>
      if s.waiting || s.closing then s else if s.done then Closed(s) else s.(waiting := true)
    case CleanupCalled =>
      if s.waiting || s.closing then s else if s.done then Closed(s) else s.(closing := true)
    case WaitOver(_) => s.(waiting := false, closing := true)
  }

  /** What can come next: one notification, calls while the handle is open, the end of a wait. */
  predicate Enabled(s: State, e: Event)
  {
    match e
    case Notified => !s.done
    case WaitCalled => s.closes == 0
    case CleanupCalled => s.closes == 0
    case WaitOver(_) => s.waiting
  }

  function Run(events: seq<Event>): State
  {
    if events == [] then FRESH else After(Run(events[..|events| - 1]), events[|events| - 1])
  }

  predicate Possible(events: seq<Event>)
  {
    events == []
    || (Possible(events[..|events| - 1]) && Enabled(Run(events[..|events| - 1]), events[|events| - 1]))
  }

  predicate HasNotification(events: seq<Event>)
  {
    exists i :: 0 <= i < |events| && events[i].Notified?
  }

  predicate HasCall(events: seq<Event>)
  {
    exists i :: 0 <= i < |events| && (events[i].WaitCalled? || events[i].CleanupCalled?)
  }

  /** A call has been accepted exactly if the handle waits, is closing, or is closed. */
  predicate Called(s: State)
  {
    s.waiting || s.closing || s.closes > 0
  }

  predicate Sound(s: State)
  {
    s.closes == (if s.done && Called(s) then 1 else 0) && (s.waiting ==> !s.done && !s.closing)
  }

  lemma HistoryGrows(events: seq<Event>)
    requires events != []
    ensures var before, e := events[..|events| - 1], events[|events| - 1];
            (HasNotification(events) <==> HasNotification(before) || e.Notified?)
            && (HasCall(events) <==> HasCall(before) || e.WaitCalled? || e.CleanupCalled?)
  {
  }

  /**
    * In every run, with the wait ending in any way and with further calls thrown in, the
    * handle has been closed exactly once if the notification and a call have both come, and
    * not at all before that.
    */
  lemma {:induction false} ClosedExactlyOnce(events: seq<Event>)
    requires Possible(events)
    ensures Sound(Run(events))
    ensures Run(events).done <==> HasNotification(events)
    ensures Called(Run(events)) <==> HasCall(events)
    ensures Run(events).closes == if HasNotification(events) && HasCall(events) then 1 else 0
  {
    if events != [] {
      ClosedExactlyOnce(events[..|events| - 1]);
      HistoryGrows(events);
    }
  }

  // ---------- when the handle waits, and when it is closing ----------

  predicate HasEnd(events: seq<Event>)
  {
    exists i :: 0 <= i < |events| && events[i].WaitOver?
  }

  /** The first call, the only one accepted, came before any notification. */
  predicate CalledEarly(events: seq<Event>, i: nat)
  {
    && i < |events| && (events[i].WaitCalled? || events[i].CleanupCalled?)
    && !HasCall(events[..i]) && !HasNotification(events[..i])
  }

  ghost predicate Early(events: seq<Event>)
  {
    exists i: nat :: CalledEarly(events, i)
  }

  ghost predicate EarlyWait(events: seq<Event>)
  {
    exists i: nat :: CalledEarly(events, i) && events[i].WaitCalled?
  }

  /** That call was to wait, and nothing has ended the wait: no notification, no failure, no cancellation. */
  ghost predicate StillWaits(events: seq<Event>)
  {
    EarlyWait(events) && !HasNotification(events) && !HasEnd(events)
  }

  lemma EarlyAt(events: seq<Event>, i: nat)
    requires i < |events| - 1
    ensures CalledEarly(events, i) <==> CalledEarly(events[..|events| - 1], i)
  {
    assert events[..|events| - 1][..i] == events[..i];
  }

  lemma EarlyGrows(events: seq<Event>)
    requires events != []
    ensures var before, e := events[..|events| - 1], events[|events| - 1];
            var first := !HasCall(before) && !HasNotification(before);
            && (Early(events) <==> Early(before) || (first && (e.WaitCalled? || e.CleanupCalled?)))
            && (EarlyWait(events) <==> EarlyWait(before) || (first && e.WaitCalled?))
            && (HasEnd(events) <==> HasEnd(before) || e.WaitOver?)
  {
    var before, n := events[..|events| - 1], |events| - 1;
    forall i: nat | i < n ensures CalledEarly(events, i) <==> CalledEarly(before, i) { EarlyAt(events, i); }
    assert CalledEarly(events, n) <==> (events[n].WaitCalled? || events[n].CleanupCalled?)
                                       && !HasCall(before) && !HasNotification(before);
    if Early(before) {
      var i: nat :| CalledEarly(before, i);
      assert CalledEarly(events, i);
    }
    if EarlyWait(before) {
      var i: nat :| CalledEarly(before, i) && before[i].WaitCalled?;
      assert CalledEarly(events, i) && events[i] == before[i];
    }
    assert forall i: nat :: CalledEarly(events, i) && i < n ==> events[i] == before[i];
  }

  /**
    * The flags tell the history: the handle waits exactly while an early wait_and_close has
    * not ended, and is closing, to be closed by the notification, exactly when an early call
    * does not wait or no longer.
    */
  lemma {:induction false} FlagsTell(events: seq<Event>)
    requires Possible(events)
    ensures Run(events).waiting <==> StillWaits(events)
    ensures Run(events).closing <==> Early(events) && !StillWaits(events)
  {
    if events != [] {
      var before := events[..|events| - 1];
      FlagsTell(before);
      ClosedExactlyOnce(before);
      HistoryGrows(events);
      EarlyGrows(events);
      assert Early(before) ==> HasCall(before);
    }
  }

  class Handle {
    var done: bool
    var closing: bool
    var waiting: bool
    ghost var closes: nat

    ghost function Abs(): State
      reads this
    {
      State(done, closing, waiting, closes)
    }

    /** cat_async_create. */
    constructor ()
      ensures Abs() == FRESH
    {
      done, closing, waiting, closes := false, false, false, 0;
    }

    /** uv_close; the memory may be gone afterwards. */
    method Close()
      requires closes == 0
      modifies `closes
      ensures closes == 1
    {
      closes := 1;
    }

    /** cat_async_callback. */
    method Callback()
      requires Sound(Abs()) && Enabled(Abs(), Notified)
      modifies this
      ensures Abs() == After(old(Abs()), Notified)
    {
      assert !waiting || !closing;
      done := true;
      if waiting {
        var ok := EndWait(true);
        assert ok;
      } else if closing {
        Close();
      }
    }

    /** wait_and_close up to its wait, or to its end when no wait is needed. */
    method BeginWait() returns (available: bool)
      requires Sound(Abs()) && Enabled(Abs(), WaitCalled)
      modifies this
      ensures Abs() == After(old(Abs()), WaitCalled)
      ensures available == !(old(waiting) || old(closing))
      ensures available ==> (if old(done) then closes == 1 else waiting && !closing && closes == 0)
    {
      if waiting { return false; }
      if closing { return false; }
      if !done {
        waiting := true;
      } else {
        Close();
      }
      return true;
    }

    /** The rest of wait_and_close, ret being the result of the wait. */
    method EndWait(ret: bool) returns (ok: bool)
      requires waiting && closes == 0 && (done ==> ret)
      modifies this
      ensures ok == done && Abs() == State(old(done), true, false, if done then 1 else 0)
    {
      waiting := false;
      closing := true;
      if !ret {
        assert !done;
        return false;
      }
      if !done { return false; }
      Close();
      return true;
    }

    /** cat_async_cleanup. */
    method Cleanup() returns (available: bool)
      requires Sound(Abs()) && Enabled(Abs(), CleanupCalled)
      modifies this
      ensures Abs() == After(old(Abs()), CleanupCalled)
      ensures available == !(old(waiting) || old(closing))
      ensures available ==> (if old(done) then closes == 1 else closing && !waiting && closes == 0)
    {
      if waiting { return false; }
      if closing { return false; }
      if done {
        Close();
      } else {
        closing := true;
      }
      return true;
    }

    method Step(e: Event)
      requires Sound(Abs()) && Enabled(Abs(), e)
      modifies this
      ensures Abs() == After(old(Abs()), e)
    {
      match e
      case Notified => Callback();
      case WaitCalled => var _ := BeginWait();
      case CleanupCalled => var _ := Cleanup();
      case WaitOver(ret) => var _ := EndWait(ret);
    }

    /** Any possible run, from a new handle. */
    method Perform(events: seq<Event>)
      requires Abs() == FRESH && Possible(events)
      modifies this
      ensures closes == if HasNotification(events) && HasCall(events) then 1 else 0
    {
      assert events[..|events|] == events;
      PossiblePrefix(events, 0);
      for i := 0 to |events|
        invariant Possible(events[..i]) && Abs() == Run(events[..i])
      {
        ClosedExactlyOnce(events[..i]);
        PossiblePrefix(events, i + 1);
        assert events[..i + 1][..i] == events[..i];
        Step(events[i]);
      }
      ClosedExactlyOnce(events);
    }
  }

  lemma {:induction false} PossiblePrefix(events: seq<Event>, n: nat)
    requires Possible(events) && n <= |events|
    ensures Possible(events[..n])
  {
    if n < |events| {
      PossiblePrefix(events[..|events| - 1], n);
      assert events[..|events| - 1][..n] == events[..n];
    } else {
      assert events[..n] == events;
    }
  }
}
