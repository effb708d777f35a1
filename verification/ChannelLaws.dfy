/**
  * What becomes of every call on a channel, over any run: it is answered once or still waits,
  * the answer is its own, and a call waits exactly when it can neither be served nor refused.
  */
module ChannelLaws {
  import opened ChannelSpec

  // ---------- the calls of a run ----------

  datatype Call = PushCall(co: nat, data: Data) | PopCall(co: nat)

  /** The call that an event makes; a waiting coroutine makes none. */
  function CallOf(s: State, e: Event): seq<Call>
  {
    match e
    case Push(co, data) => if IsWaiting(s, co) then [] else [PushCall(co, data)]
    case Pop(co) => if IsWaiting(s, co) then [] else [PopCall(co)]
    case _ => []
  }

  /** The calls of a run, in the order in which they are made. */
  function Log(s: State, es: seq<Event>): seq<Call>
  {
    if es == [] then []
    else Log(s, es[..|es| - 1]) + CallOf(Run(s, es[..|es| - 1]).0, es[|es| - 1])
  }

  /** The reply is one to the call: to its coroutine, of its kind, about its value. */
  predicate Answers(r: Reply, log: seq<Call>)
  {
    && r.call < |log| && r.co == log[r.call].co
    && (r.outcome.Accepted? ==> log[r.call] == PushCall(r.co, r.outcome.data))
    && (r.outcome.Received? ==> log[r.call].PopCall?)
  }

  /** A queued waiter stands for the call that it says. */
  predicate Stands(w: Waiter, log: seq<Call>)
  {
    && w.call < |log|
    && match w
       case Producer(co, call, data) => log[call] == PushCall(co, data)
       case Consumer(co, call) => log[call] == PopCall(co)
  }

  ghost predicate AllAnswer(rs: seq<Reply>, log: seq<Call>)
  {
    forall i :: 0 <= i < |rs| ==> Answers(rs[i], log)
  }

  ghost predicate AllStand(q: seq<Waiter>, log: seq<Call>)
  {
    forall i :: 0 <= i < |q| ==> Stands(q[i], log)
  }

  /** Every reply and every waiter belongs to the call whose number it bears. */
  ghost predicate Own(s: State, rs: seq<Reply>, log: seq<Call>)
  {
    |log| == s.calls && AllAnswer(rs, log) && AllStand(s.producers, log) && AllStand(s.consumers, log)
  }

  // ---------- every reply is to the call it names ----------

  lemma OwnLater(s: State, rs: seq<Reply>, log: seq<Call>, call: Call)
    requires Own(s, rs, log)
    ensures Own(s.(calls := s.calls + 1), rs, log + [call])
  {
  }

  lemma AnswersMore(rs: seq<Reply>, more: seq<Reply>, log: seq<Call>)
    requires AllAnswer(rs, log) && AllAnswer(more, log)
    ensures AllAnswer(rs + more, log)
  {
  }

  lemma StandsWithout(q: seq<Waiter>, i: nat, log: seq<Call>)
    requires i < |q| && AllStand(q, log)
    ensures AllStand(Without(q, i), log)
  {
  }

  lemma PushOwn(s: State, rs: seq<Reply>, log: seq<Call>, co: nat, data: Data)
    requires Own(s, rs, log)
    ensures Own(DoPush(s, co, data).0, rs + DoPush(s, co, data).1, log + [PushCall(co, data)])
  {
    var log' := log + [PushCall(co, data)];
    OwnLater(s, rs, log, PushCall(co, data));
    var more := DoPush(s, co, data).1;
    assert log'[s.calls] == PushCall(co, data);
    assert AllAnswer(more, log');
    AnswersMore(rs, more, log');
  }

  lemma PopOwn(s: State, rs: seq<Reply>, log: seq<Call>, co: nat)
    requires Own(s, rs, log)
    ensures Own(DoPop(s, co).0, rs + DoPop(s, co).1, log + [PopCall(co)])
  {
    var log' := log + [PopCall(co)];
    OwnLater(s, rs, log, PopCall(co));
    var more := DoPop(s, co).1;
    assert log'[s.calls] == PopCall(co);
    assert s.producers != [] ==> Stands(s.producers[0], log');
    assert AllAnswer(more, log');
    AnswersMore(rs, more, log');
  }

  lemma LeaveOwn(s: State, rs: seq<Reply>, log: seq<Call>, co: nat, why: Outcome)
    requires Own(s, rs, log) && (why.TimedOut? || why.Canceled?)
    ensures Own(Leave(s, co, why).0, rs + Leave(s, co, why).1, log)
  {
    var i, j := Index(s.producers, co), Index(s.consumers, co);
    var more := Leave(s, co, why).1;
    if i < |s.producers| {
      StandsWithout(s.producers, i, log);
      assert Stands(s.producers[i], log);
    } else if j < |s.consumers| {
      StandsWithout(s.consumers, j, log);
      assert Stands(s.consumers[j], log);
    }
    AnswersMore(rs, more, log);
  }

  lemma StepOwn(s: State, e: Event, rs: seq<Reply>, log: seq<Call>)
    requires Own(s, rs, log)
    ensures Own(Step(s, e).0, rs + Step(s, e).1, log + CallOf(s, e))
  {
    assert rs + [] == rs && log + [] == log;
    match e
    case Push(co, data) => if !IsWaiting(s, co) { PushOwn(s, rs, log, co, data); }
    case Pop(co) => if !IsWaiting(s, co) { PopOwn(s, rs, log, co); }
    case Timeout(co) => LeaveOwn(s, rs, log, co, TimedOut);
    case Cancel(co) => LeaveOwn(s, rs, log, co, Canceled);
    case BeginClose =>
    case CloseOne =>
      if s.producers != [] { LeaveOwn(s, rs, log, s.producers[0].co, Canceled); }
      else if s.consumers != [] { LeaveOwn(s, rs, log, s.consumers[0].co, Canceled); }
  }

  lemma {:induction false} RunOwn(capacity: nat, es: seq<Event>)
    ensures var (s, rs) := Run(Create(capacity), es); Own(s, rs, Log(Create(capacity), es))
  {
    if es != [] {
      var front := es[..|es| - 1];
      RunOwn(capacity, front);
      var (s, rs) := Run(Create(capacity), front);
      StepOwn(s, es[|es| - 1], rs, Log(Create(capacity), front));
    }
  }

  // ---------- every call is answered once or waits ----------

  function Answered(rs: seq<Reply>): multiset<nat>
  {
    multiset(Each(rs, (r: Reply) => r.call))
  }

  function Queued(q: seq<Waiter>): multiset<nat>
  {
    multiset(Each(q, (w: Waiter) => w.call))
  }

  /** The numbers of the calls made so far. */
  function Made(calls: nat): multiset<nat>
  {
    multiset(seq(calls, i => i))
  }

  ghost predicate OnceEach(s: State, rs: seq<Reply>)
  {
    Answered(rs) + Queued(s.producers) + Queued(s.consumers) == Made(s.calls)
  }

  lemma AnsweredMore(rs: seq<Reply>, more: seq<Reply>)
    ensures Answered(rs + more) == Answered(rs) + Answered(more)
  {
    var call := (r: Reply) => r.call;
    assert Each(rs + more, call) == Each(rs, call) + Each(more, call);
  }

  lemma QueuedMore(q: seq<Waiter>, w: Waiter)
    ensures Queued(q + [w]) == Queued(q) + multiset{w.call}
  {
    var call := (w: Waiter) => w.call;
    assert Each(q + [w], call) == Each(q, call) + [w.call];
  }

  lemma QueuedWithout(q: seq<Waiter>, i: nat)
    requires i < |q|
    ensures Queued(q) == Queued(Without(q, i)) + multiset{q[i].call}
  {
    var call := (w: Waiter) => w.call;
    var all, before, after := Each(q, call), Each(q[..i], call), Each(q[i + 1..], call);
    assert all == before + [q[i].call] + after;
    assert Each(Without(q, i), call) == before + after;
  }

  lemma MadeMore(calls: nat)
    ensures Made(calls + 1) == Made(calls) + multiset{calls}
  {
    assert seq(calls + 1, i => i) == seq(calls, i => i) + [calls];
  }

  lemma AnsweredOne(r: Reply)
    ensures Answered([r]) == multiset{r.call}
  {
    assert Each([r], (r: Reply) => r.call) == [r.call];
  }

  lemma AnsweredTwo(r: Reply, r': Reply)
    ensures Answered([r, r']) == multiset{r.call, r'.call}
  {
    assert [r, r'] == [r] + [r'];
    AnsweredMore([r], [r']);
    AnsweredOne(r);
    AnsweredOne(r');
  }

  lemma QueuedFirst(q: seq<Waiter>)
    requires q != []
    ensures Queued(q) == Queued(q[1..]) + multiset{q[0].call}
  {
    QueuedWithout(q, 0);
    assert Without(q, 0) == q[1..];
  }

  /** The numbers in play grow by the given ones. */
  ghost predicate Grows(s: State, s': State, more: seq<Reply>, added: multiset<nat>)
  {
    Answered(more) + Queued(s'.producers) + Queued(s'.consumers) == Queued(s.producers) + Queued(s.consumers) + added
  }

  lemma SumAtOnce(p: multiset<nat>, c: multiset<nat>, n: nat)
    ensures multiset{n} + p + c == p + c + multiset{n}
  {
  }

  lemma SumWithFirst(rest: multiset<nat>, other: multiset<nat>, n: nat, first: nat)
    ensures multiset{n, first} + rest + other == (rest + multiset{first}) + other + multiset{n}
    ensures multiset{n, first} + other + rest == other + (rest + multiset{first}) + multiset{n}
  {
  }

  lemma SumQueued(p: multiset<nat>, c: multiset<nat>, n: nat)
    ensures multiset{} + (p + multiset{n}) + c == p + c + multiset{n}
    ensures multiset{} + p + (c + multiset{n}) == p + c + multiset{n}
  {
  }

  /** The new call is answered at once, and the queues stay. */
  lemma GrowsAtOnce(s: State, s': State, r: Reply)
    requires s'.producers == s.producers && s'.consumers == s.consumers && r.call == s.calls
    ensures Grows(s, s', [r], multiset{s.calls})
  {
    AnsweredOne(r);
    SumAtOnce(Queued(s.producers), Queued(s.consumers), s.calls);
  }

  /** It is answered together with the first waiter of a queue. */
  lemma GrowsWithFirst(s: State, s': State, r: Reply, r': Reply)
    requires multiset{r.call, r'.call} == multiset{s.calls, FirstCall(s, s')}
    requires || (s.consumers != [] && s'.consumers == s.consumers[1..] && s'.producers == s.producers)
             || (s.producers != [] && s'.producers == s.producers[1..] && s'.consumers == s.consumers)
    ensures Grows(s, s', [r, r'], multiset{s.calls})
  {
    AnsweredTwo(r, r');
    if |s'.consumers| < |s.consumers| {
      QueuedFirst(s.consumers);
      SumWithFirst(Queued(s'.consumers), Queued(s.producers), s.calls, FirstCall(s, s'));
    } else {
      QueuedFirst(s.producers);
      SumWithFirst(Queued(s'.producers), Queued(s.consumers), s.calls, FirstCall(s, s'));
    }
  }

  /** The number of the waiter that s' is without. */
  function FirstCall(s: State, s': State): nat
  {
    if |s'.consumers| < |s.consumers| then s.consumers[0].call
    else if s.producers != [] then s.producers[0].call else 0
  }

  /** It waits. */
  lemma GrowsByWaiting(s: State, s': State, w: Waiter)
    requires w.call == s.calls
    requires || (s'.producers == s.producers + [w] && s'.consumers == s.consumers)
             || (s'.consumers == s.consumers + [w] && s'.producers == s.producers)
    ensures Grows(s, s', [], multiset{s.calls})
  {
    QueuedMore(s.producers, w);
    QueuedMore(s.consumers, w);
    SumQueued(Queued(s.producers), Queued(s.consumers), s.calls);
  }

  /** Where the number of a call just made goes, and the number of the one it serves. */
  lemma PushOnce(s: State, co: nat, data: Data)
    ensures var (s', more) := DoPush(s, co, data); s'.calls == s.calls + 1 && Grows(s, s', more, multiset{s.calls})
  {
    var (s', more) := DoPush(s, co, data);
    if |more| == 1 { GrowsAtOnce(s, s', more[0]); }
    else if |more| == 2 { GrowsWithFirst(s, s', more[0], more[1]); }
    else { GrowsByWaiting(s, s', Producer(co, s.calls, data)); }
  }

  lemma PopOnce(s: State, co: nat)
    ensures var (s', more) := DoPop(s, co); s'.calls == s.calls + 1 && Grows(s, s', more, multiset{s.calls})
  {
    var (s', more) := DoPop(s, co);
    if |more| == 1 { GrowsAtOnce(s, s', more[0]); }
    else if |more| == 2 { GrowsWithFirst(s, s', more[0], more[1]); }
    else { GrowsByWaiting(s, s', Consumer(co, s.calls)); }
  }

  lemma LeaveOnce(s: State, co: nat, why: Outcome)
    ensures var (s', more) := Leave(s, co, why); s'.calls == s.calls && Grows(s, s', more, multiset{})
  {
    var (s', more) := Leave(s, co, why);
    if |more| == 1 { AnsweredOne(more[0]); }
    var i, j := Index(s.producers, co), Index(s.consumers, co);
    if i < |s.producers| { QueuedWithout(s.producers, i); }
    else if j < |s.consumers| { QueuedWithout(s.consumers, j); }
  }

  lemma GrowsOnce(s: State, s': State, rs: seq<Reply>, more: seq<Reply>, added: multiset<nat>)
    requires OnceEach(s, rs) && Grows(s, s', more, added) && Made(s'.calls) == Made(s.calls) + added
    ensures OnceEach(s', rs + more)
  {
    AnsweredMore(rs, more);
    var a, m, p', c' := Answered(rs), Answered(more), Queued(s'.producers), Queued(s'.consumers);
    assert a + m + p' + c' == a + (m + p' + c');
    var p, c := Queued(s.producers), Queued(s.consumers);
    assert a + (p + c + added) == a + p + c + added;
  }

  /** The numbers that an event brings into play. */
  function NewNumbers(s: State, e: Event): multiset<nat>
  {
    if CallOf(s, e) == [] then multiset{} else multiset{s.calls}
  }

  lemma MadeBy(calls: nat, one: bool)
    ensures Made(if one then calls + 1 else calls) == Made(calls) + if one then multiset{calls} else multiset{}
  {
    if one { MadeMore(calls); }
  }

  lemma NothingGrows(s: State, s': State)
    requires s'.producers == s.producers && s'.consumers == s.consumers
    ensures Grows(s, s', [], multiset{})
  {
  }

  lemma StepGrows(s: State, e: Event)
    ensures var (s', more) := Step(s, e);
            Grows(s, s', more, NewNumbers(s, e)) && s'.calls == s.calls + |CallOf(s, e)|
  {
    NothingGrows(s, Step(s, e).0.(producers := s.producers, consumers := s.consumers));
    match e
    case Push(co, data) => if !IsWaiting(s, co) { PushOnce(s, co, data); }
    case Pop(co) => if !IsWaiting(s, co) { PopOnce(s, co); }
    case Timeout(co) => LeaveOnce(s, co, TimedOut);
    case Cancel(co) => LeaveOnce(s, co, Canceled);
    case BeginClose =>
    case CloseOne =>
      if s.producers != [] { LeaveOnce(s, s.producers[0].co, Canceled); }
      else if s.consumers != [] { LeaveOnce(s, s.consumers[0].co, Canceled); }
  }

  lemma StepOnce(s: State, e: Event, rs: seq<Reply>)
    requires OnceEach(s, rs)
    ensures OnceEach(Step(s, e).0, rs + Step(s, e).1)
  {
    MadeBy(s.calls, CallOf(s, e) != []);
    StepGrows(s, e);
    GrowsOnce(s, Step(s, e).0, rs, Step(s, e).1, NewNumbers(s, e));
  }

  lemma {:induction false} RunOnce(capacity: nat, es: seq<Event>)
    ensures var (s, rs) := Run(Create(capacity), es); OnceEach(s, rs)
  {
    if es != [] {
      var front := es[..|es| - 1];
      RunOnce(capacity, front);
      var (s, rs) := Run(Create(capacity), front);
      StepOnce(s, es[|es| - 1], rs);
    }
  }

  // ---------- nobody waits twice ----------

  ghost predicate DistinctWaiters(q: seq<Waiter>)
  {
    forall i, j :: 0 <= i < j < |q| ==> q[i].co != q[j].co
  }

  ghost predicate WaitOnce(s: State)
  {
    DistinctWaiters(s.producers) && DistinctWaiters(s.consumers)
  }

  lemma DistinctWithout(q: seq<Waiter>, i: nat)
    requires i < |q| && DistinctWaiters(q)
    ensures DistinctWaiters(Without(q, i))
  {
    var q' := Without(q, i);
    forall j, k | 0 <= j < k < |q'| ensures q'[j].co != q'[k].co {
      assert q'[j] == q[if j < i then j else j + 1] && q'[k] == q[if k < i then k else k + 1];
    }
  }

  lemma LeaveWaitOnce(s: State, co: nat, why: Outcome)
    requires WaitOnce(s)
    ensures WaitOnce(Leave(s, co, why).0)
  {
    var i, j := Index(s.producers, co), Index(s.consumers, co);
    if i < |s.producers| { DistinctWithout(s.producers, i); }
    else if j < |s.consumers| { DistinctWithout(s.consumers, j); }
  }

  lemma StepWaitOnce(s: State, e: Event)
    requires WaitOnce(s)
    ensures WaitOnce(Step(s, e).0)
  {
    match e
    case Push(co, data) =>
    case Pop(co) =>
    case Timeout(co) => LeaveWaitOnce(s, co, TimedOut);
    case Cancel(co) => LeaveWaitOnce(s, co, Canceled);
    case BeginClose =>
    case CloseOne =>
      if s.producers != [] { LeaveWaitOnce(s, s.producers[0].co, Canceled); }
      else if s.consumers != [] { LeaveWaitOnce(s, s.consumers[0].co, Canceled); }
  }

  lemma {:induction false} RunWaitOnce(capacity: nat, es: seq<Event>)
    ensures WaitOnce(Run(Create(capacity), es).0)
  {
    if es != [] {
      RunWaitOnce(capacity, es[..|es| - 1]);
      StepWaitOnce(Run(Create(capacity), es[..|es| - 1]).0, es[|es| - 1]);
    }
  }

  // ---------- why a call ends without success ----------

  /** What an unsuccessful reply of a step is due to. */
  predicate Due(s: State, e: Event, r: Reply)
  {
    match r.outcome
    case Refused => s.closed && ((e.Push? && e.co == r.co) || (e == Pop(r.co) && s.stored == []))
    case TimedOut => e == Timeout(r.co)
    case Canceled => e == Cancel(r.co) || (e.CloseOne? && s.closed)
    case _ => true
  }

  lemma RepliesAreDue(s: State, e: Event, i: nat)
    requires i < |Step(s, e).1|
    ensures Due(s, e, Step(s, e).1[i])
  {
  }

  predicate HasClose(es: seq<Event>)
  {
    exists i :: 0 <= i < |es| && es[i].BeginClose?
  }

  lemma ClosedOnlyByClose(s: State, e: Event)
    ensures Step(s, e).0.closed <==> s.closed || e.BeginClose?
  {
  }

  /** A channel is closed exactly if it was, and as long as it is open nobody is refused. */
  lemma {:induction false} RefusedOnlyClosed(capacity: nat, es: seq<Event>)
    ensures var (s, rs) := Run(Create(capacity), es);
            && (s.closed <==> HasClose(es))
            && (!s.closed ==> forall i :: 0 <= i < |rs| ==> rs[i].outcome != Refused)
  {
    if es != [] {
      var front, e := es[..|es| - 1], es[|es| - 1];
      RefusedOnlyClosed(capacity, front);
      var (s, rs) := Run(Create(capacity), front);
      ClosedOnlyByClose(s, e);
      assert HasClose(es) <==> HasClose(front) || e.BeginClose? by {
        assert forall i :: 0 <= i < |front| ==> front[i] == es[i];
      }
      var more := Step(s, e).1;
      forall i | 0 <= i < |more| ensures Due(s, e, more[i]) { RepliesAreDue(s, e, i); }
    }
  }

  // ---------- who waits ----------

  /** On an open channel that is not writable the pusher waits, last in line. */
  lemma UnwritableWaits(s: State, co: nat, data: Data)
    requires WaitersFit(s) && !s.closed && !Writable(s)
    ensures DoPush(s, co, data)
         == (s.(calls := s.calls + 1, producers := s.producers + [Producer(co, s.calls, data)]), [])
  {
  }

  lemma UnreadableWaits(s: State, co: nat)
    requires WaitersFit(s) && !s.closed && !Readable(s)
    ensures DoPop(s, co) == (s.(calls := s.calls + 1, consumers := s.consumers + [Consumer(co, s.calls)]), [])
  {
  }

  // ---------- who is woken, and what it is told ----------

  lemma IndexIs(q: seq<Waiter>, i: nat)
    requires i < |q| && DistinctWaiters(q)
    ensures Index(q, q[i].co) == i
  {
  }

  /** A waiting push ends with the reason for its end, and leaves everybody else where they were. */
  lemma ProducerLeaves(s: State, i: nat)
    requires WaitOnce(s) && i < |s.producers|
    ensures var w, s' := s.producers[i], s.(producers := Without(s.producers, i));
            && Step(s, Timeout(w.co)) == (s', [Reply(w.co, w.call, TimedOut)])
            && Step(s, Cancel(w.co)) == (s', [Reply(w.co, w.call, Canceled)])
  {
    IndexIs(s.producers, i);
  }

  lemma ConsumerLeaves(s: State, i: nat)
    requires WaitOnce(s) && WaitersFit(s) && i < |s.consumers|
    ensures var w, s' := s.consumers[i], s.(consumers := Without(s.consumers, i));
            && Step(s, Timeout(w.co)) == (s', [Reply(w.co, w.call, TimedOut)])
            && Step(s, Cancel(w.co)) == (s', [Reply(w.co, w.call, Canceled)])
  {
    IndexIs(s.consumers, i);
  }

  /** Close wakes the waiters from the front of their queue, as canceled. */
  lemma CloseWakesFirst(s: State)
    requires s.closed
    ensures s.producers != [] ==>
              var w := s.producers[0];
              Step(s, CloseOne) == (s.(producers := s.producers[1..]), [Reply(w.co, w.call, Canceled)])
    ensures s.producers == [] && s.consumers != [] ==>
              var w := s.consumers[0];
              Step(s, CloseOne) == (s.(consumers := s.consumers[1..]), [Reply(w.co, w.call, Canceled)])
  {
    if s.producers != [] {
      assert Without(s.producers, 0) == s.producers[1..];
    } else if s.consumers != [] {
      assert Without(s.consumers, 0) == s.consumers[1..];
    }
  }
}
