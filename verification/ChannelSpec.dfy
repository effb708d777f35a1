/**
  * What a channel means: a bounded queue in which a value goes straight to a waiting
  * consumer, waits in the store, or waits with its producer.  One definition covers the
  * buffered channel and, with capacity 0, the rendezvous channel.  The lemmas are about
  * whole runs: any number of coroutines, any order of calls, timeouts, cancellations, and
  * a close that wakes its waiters one by one.
  */
module ChannelSpec {
  type Data = seq<bv8>

  /** A push or pop call that waits: the coroutine, the call's number, what it pushes. */
  datatype Waiter = Producer(co: nat, call: nat, data: Data) | Consumer(co: nat, call: nat)
  type Sender = w: Waiter | w.Producer? witness Producer(0, 0, [])
  type Taker = w: Waiter | w.Consumer? witness Consumer(0, 0)

  datatype State = State(capacity: nat, closed: bool, stored: seq<Data>,
                         producers: seq<Sender>, consumers: seq<Taker>, calls: nat)

  /** How a call ended; the number says which call, in the order the calls were made. */
  datatype Outcome = Accepted(data: Data) | Received(data: Data) | Refused | TimedOut | Canceled
  datatype Reply = Reply(co: nat, call: nat, outcome: Outcome)

  datatype Event =
    | Push(co: nat, data: Data)
    | Pop(co: nat)
    | Timeout(co: nat)
    | Cancel(co: nat)
    | BeginClose
    | CloseOne

  function Create(capacity: nat): State
  {
    State(capacity, false, [], [], [], 0)
  }

  // ---------- the steps ----------

  function DoPush(s: State, co: nat, data: Data): (State, seq<Reply>)
  {
    var call, s := s.calls, s.(calls := s.calls + 1);
    if s.closed then (s, [Reply(co, call, Refused)])
    else if s.consumers != [] then
      var c := s.consumers[0];
      (s.(consumers := s.consumers[1..]), [Reply(co, call, Accepted(data)), Reply(c.co, c.call, Received(data))])
    else if |s.stored| < s.capacity then (s.(stored := s.stored + [data]), [Reply(co, call, Accepted(data))])
    else (s.(producers := s.producers + [Producer(co, call, data)]), [])
  }

  function DoPop(s: State, co: nat): (State, seq<Reply>)
  {
    var call, s := s.calls, s.(calls := s.calls + 1);
    if s.stored != [] then
      var reply := Reply(co, call, Received(s.stored[0]));
      if s.producers == [] then (s.(stored := s.stored[1..]), [reply])
      else
        var p := s.producers[0];
        (s.(stored := s.stored[1..] + [p.data], producers := s.producers[1..]),
         [reply, Reply(p.co, p.call, Accepted(p.data))])
    else if s.closed then (s, [Reply(co, call, Refused)])
    else if s.producers != [] then
      var p := s.producers[0];
      (s.(producers := s.producers[1..]), [Reply(p.co, p.call, Accepted(p.data)), Reply(co, call, Received(p.data))])
    else (s.(consumers := s.consumers + [Consumer(co, call)]), [])
  }

  /** The place of a coroutine in a waiter queue, or the queue's length if it is not there. */
  function Index(q: seq<Waiter>, co: nat): (i: nat)
    ensures i <= |q| && (i < |q| ==> q[i].co == co) && forall k :: 0 <= k < i ==> q[k].co != co
  {
    if q == [] || q[0].co == co then 0 else 1 + Index(q[1..], co)
  }

  function Without<T>(q: seq<T>, i: nat): seq<T>
    requires i < |q|
  {
    q[..i] + q[i + 1..]
  }

  /** A waiter leaves its queue without having been served. */
  function Leave(s: State, co: nat, why: Outcome): (State, seq<Reply>)
  {
    var i, j := Index(s.producers, co), Index(s.consumers, co);
    if i < |s.producers| then
      (s.(producers := Without(s.producers, i)), [Reply(co, s.producers[i].call, why)])
    else if j < |s.consumers| then
      (s.(consumers := Without(s.consumers, j)), [Reply(co, s.consumers[j].call, why)])
    else (s, [])
  }

  function DoCloseOne(s: State): (State, seq<Reply>)
  {
    if !s.closed then (s, [])
    else if s.producers != [] then Leave(s, s.producers[0].co, Canceled)
    else if s.consumers != [] then Leave(s, s.consumers[0].co, Canceled)
    else (s, [])
  }

  predicate IsWaiting(s: State, co: nat)
  {
    (exists i :: 0 <= i < |s.producers| && s.producers[i].co == co)
    || (exists i :: 0 <= i < |s.consumers| && s.consumers[i].co == co)
  }

  /** A waiting coroutine makes no calls: such an event is no step of the system. */
  function Step(s: State, e: Event): (State, seq<Reply>)
  {
    match e
    case Push(co, data) => if IsWaiting(s, co) then (s, []) else DoPush(s, co, data)
    case Pop(co) => if IsWaiting(s, co) then (s, []) else DoPop(s, co)
    case Timeout(co) => Leave(s, co, TimedOut)
    case Cancel(co) => Leave(s, co, Canceled)
    case BeginClose => (s.(closed := true), [])
    case CloseOne => DoCloseOne(s)
  }

  function Run(s: State, es: seq<Event>): (State, seq<Reply>)
    decreases |es|
  {
    if es == [] then (s, [])
    else
      var r := Run(s, es[..|es| - 1]);
      var t := Step(r.0, es[|es| - 1]);
      (t.0, r.1 + t.1)
  }

  // ---------- what the replies record ----------

  datatype Transfer = Transfer(call: nat, data: Data)

  function PushOf(r: Reply): seq<Transfer>
  {
    if r.outcome.Accepted? then [Transfer(r.call, r.outcome.data)] else []
  }

  function PopOf(r: Reply): seq<Transfer>
  {
    if r.outcome.Received? then [Transfer(r.call, r.outcome.data)] else []
  }

  /** The successful pushes, in the order their values entered the channel. */
  function Pushes(rs: seq<Reply>): seq<Transfer>
  {
    if rs == [] then [] else Pushes(rs[..|rs| - 1]) + PushOf(rs[|rs| - 1])
  }

  /** The successful pops, in the order they took their values. */
  function Pops(rs: seq<Reply>): seq<Transfer>
  {
    if rs == [] then [] else Pops(rs[..|rs| - 1]) + PopOf(rs[|rs| - 1])
  }

  function Each<T, U>(xs: seq<T>, f: T -> U): (r: seq<U>)
    ensures |r| == |xs|
  {
    seq(|xs|, i requires 0 <= i < |xs| => f(xs[i]))
  }

  function Values(ts: seq<Transfer>): seq<Data>
  {
    Each(ts, (t: Transfer) => t.data)
  }

  /** One side of the channel: the calls served, then the calls that wait. */
  function Line(served: seq<Transfer>, waiting: seq<Waiter>): seq<nat>
  {
    Each(served, (t: Transfer) => t.call) + Each(waiting, (w: Waiter) => w.call)
  }

  // ---------- invariants of every reachable state ----------

  /** Who waits: producers only on a full channel, consumers only on an empty one, never both. */
  predicate WaitersFit(s: State)
  {
    && |s.stored| <= s.capacity
    && (s.producers != [] ==> |s.stored| == s.capacity && s.consumers == [])
    && (s.consumers != [] ==> s.stored == [])
  }

  predicate RisingBelow(ts: seq<nat>, bound: nat)
  {
    && (forall i, j :: 0 <= i < j < |ts| ==> ts[i] < ts[j])
    && (forall i :: 0 <= i < |ts| ==> ts[i] < bound)
  }

  /**
    * No overtaking: served calls, then waiting calls, are in the order in which the calls
    * were made, on each side of the channel.
    */
  ghost predicate InOrder(s: State, pushes: seq<Transfer>, pops: seq<Transfer>)
  {
    RisingBelow(Line(pushes, s.producers), s.calls) && RisingBelow(Line(pops, s.consumers), s.calls)
  }

  /** Nothing lost, nothing invented: what went in is what came out and what is still stored. */
  ghost predicate Conserved(s: State, pushes: seq<Transfer>, pops: seq<Transfer>)
  {
    Values(pushes) == Values(pops) + s.stored
  }

  ghost predicate Good(s: State, pushes: seq<Transfer>, pops: seq<Transfer>)
  {
    WaitersFit(s) && InOrder(s, pushes, pops) && Conserved(s, pushes, pops)
  }

  // ---------- every step keeps them ----------

  lemma {:induction false} PushesConcat(a: seq<Reply>, b: seq<Reply>)
    ensures Pushes(a + b) == Pushes(a) + Pushes(b)
    decreases |b|
  {
    if b == [] {
      assert a + b == a;
    } else {
      assert (a + b)[..|a + b| - 1] == a + b[..|b| - 1];
      PushesConcat(a, b[..|b| - 1]);
    }
  }

  lemma {:induction false} PopsConcat(a: seq<Reply>, b: seq<Reply>)
    ensures Pops(a + b) == Pops(a) + Pops(b)
    decreases |b|
  {
    if b == [] {
      assert a + b == a;
    } else {
      assert (a + b)[..|a + b| - 1] == a + b[..|b| - 1];
      PopsConcat(a, b[..|b| - 1]);
    }
  }

  lemma RecordOne(r: Reply)
    ensures Pushes([r]) == PushOf(r) && Pops([r]) == PopOf(r)
  {
  }

  lemma RecordTwo(r: Reply, r': Reply)
    ensures Pushes([r, r']) == PushOf(r) + PushOf(r') && Pops([r, r']) == PopOf(r) + PopOf(r')
  {
    assert [r, r'][..1] == [r];
    RecordOne(r);
  }

  /**
    * One step of one side: nothing happens, a call made just now waits or is served with
    * nobody before it, or the first waiter is served.
    */
  predicate LineMoves(more: seq<Transfer>, waiting: seq<Waiter>, waiting': seq<Waiter>, bound: nat)
  {
    || (more == [] && waiting' == waiting)
    || (more == [] && |waiting'| == |waiting| + 1 && waiting' == waiting + [waiting'[|waiting|]]
        && waiting'[|waiting|].call == bound)
    || (|more| == 1 && more[0].call == bound && waiting' == waiting == [])
    || (|more| == 1 && waiting != [] && more[0].call == waiting[0].call && waiting' == waiting[1..])
  }

  lemma RisingMore(line: seq<nat>, bound: nat)
    requires RisingBelow(line, bound)
    ensures RisingBelow(line, bound + 1) && RisingBelow(line + [bound], bound + 1)
  {
  }

  lemma LineStep(served: seq<Transfer>, more: seq<Transfer>, waiting: seq<Waiter>, waiting': seq<Waiter>, bound: nat)
    requires RisingBelow(Line(served, waiting), bound) && LineMoves(more, waiting, waiting', bound)
    ensures RisingBelow(Line(served + more, waiting'), bound + 1)
  {
    var line, line' := Line(served, waiting), Line(served + more, waiting');
    RisingMore(line, bound);
    if more == [] && waiting' == waiting {
      assert served + more == served;
    } else if more == [] {
      assert served + more == served;
      assert line' == line + [bound];
    } else if waiting == [] {
      assert line' == line + [bound];
    } else {
      assert line' == line;
    }
  }

  lemma RisingWithout(line: seq<nat>, bound: nat, at: nat)
    requires at < |line| && RisingBelow(line, bound)
    ensures RisingBelow(Without(line, at), bound)
  {
    var line' := Without(line, at);
    forall i, j | 0 <= i < j < |line'| ensures line'[i] < line'[j] {
      var a, b := if i < at then i else i + 1, if j < at then j else j + 1;
      assert line'[i] == line[a] && line'[j] == line[b] && a < b;
    }
  }

  lemma LineWithout(served: seq<Transfer>, waiting: seq<Waiter>, i: nat)
    requires i < |waiting|
    ensures Line(served, Without(waiting, i)) == Without(Line(served, waiting), |served| + i)
  {
  }

  lemma LineLeave(served: seq<Transfer>, waiting: seq<Waiter>, bound: nat, i: nat)
    requires i < |waiting| && RisingBelow(Line(served, waiting), bound)
    ensures RisingBelow(Line(served, Without(waiting, i)), bound)
  {
    LineWithout(served, waiting, i);
    RisingWithout(Line(served, waiting), bound, |served| + i);
  }

  lemma ValuesConcat(a: seq<Transfer>, b: seq<Transfer>)
    ensures Values(a + b) == Values(a) + Values(b)
  {
  }

  lemma PushRecords(s: State, co: nat, data: Data)
    requires WaitersFit(s)
    ensures Pushes(DoPush(s, co, data).1)
         == if !s.closed && (s.consumers != [] || |s.stored| < s.capacity) then [Transfer(s.calls, data)] else []
    ensures Pops(DoPush(s, co, data).1)
         == if !s.closed && s.consumers != [] then [Transfer(s.consumers[0].call, data)] else []
  {
    var rs := DoPush(s, co, data).1;
    if |rs| == 1 { RecordOne(rs[0]); }
    if |rs| == 2 { RecordTwo(rs[0], rs[1]); }
  }

  /** What a pop takes, if it takes anything. */
  function Taken(s: State): Data
  {
    if s.stored != [] then s.stored[0] else if s.producers != [] then s.producers[0].data else []
  }

  predicate PopServes(s: State)
  {
    s.stored != [] || (!s.closed && s.producers != [])
  }

  lemma PopRecords(s: State, co: nat)
    ensures Pops(DoPop(s, co).1) == if PopServes(s) then [Transfer(s.calls, Taken(s))] else []
    ensures Pushes(DoPop(s, co).1)
         == if PopServes(s) && s.producers != [] then [Transfer(s.producers[0].call, s.producers[0].data)] else []
  {
    var rs := DoPop(s, co).1;
    if |rs| == 1 { RecordOne(rs[0]); }
    if |rs| == 2 { RecordTwo(rs[0], rs[1]); }
  }

  lemma PushMoves(s: State, co: nat, data: Data)
    requires WaitersFit(s)
    ensures var (s', rs) := DoPush(s, co, data);
            && LineMoves(Pushes(rs), s.producers, s'.producers, s.calls)
            && LineMoves(Pops(rs), s.consumers, s'.consumers, s.calls)
  {
    PushRecords(s, co, data);
  }

  lemma PopMoves(s: State, co: nat)
    requires WaitersFit(s)
    ensures var (s', rs) := DoPop(s, co);
            && LineMoves(Pushes(rs), s.producers, s'.producers, s.calls)
            && LineMoves(Pops(rs), s.consumers, s'.consumers, s.calls)
  {
    PopRecords(s, co);
  }

  lemma ValuesOfOne(ts: seq<Transfer>)
    ensures |ts| == 1 ==> Values(ts) == [ts[0].data]
  {
  }

  /** What a step brings in comes out or is stored. */
  lemma PushStores(s: State, co: nat, data: Data)
    requires WaitersFit(s)
    ensures var (s', rs) := DoPush(s, co, data); s.stored + Values(Pushes(rs)) == Values(Pops(rs)) + s'.stored
  {
    var (s', rs) := DoPush(s, co, data);
    var came, went := Values(Pushes(rs)), Values(Pops(rs));
    PushRecords(s, co, data);
    ValuesOfOne(Pushes(rs));
    ValuesOfOne(Pops(rs));
    if s.consumers != [] {
      assert s'.stored == s.stored == [] && came == went;
    } else {
      assert s'.stored == s.stored + came && went == [];
    }
  }

  lemma FirstGoes(stored: seq<Data>, came: seq<Data>)
    requires stored != []
    ensures stored + came == [stored[0]] + (stored[1..] + came)
  {
  }

  lemma PopStores(s: State, co: nat)
    requires WaitersFit(s)
    ensures var (s', rs) := DoPop(s, co); s.stored + Values(Pushes(rs)) == Values(Pops(rs)) + s'.stored
  {
    var (s', rs) := DoPop(s, co);
    var came, went := Values(Pushes(rs)), Values(Pops(rs));
    PopRecords(s, co);
    ValuesOfOne(Pushes(rs));
    ValuesOfOne(Pops(rs));
    if s.stored != [] {
      assert s'.stored == s.stored[1..] + came && went == [s.stored[0]];
      FirstGoes(s.stored, came);
    } else {
      assert s'.stored == [] && came == went;
    }
  }

  lemma StoredOn(before: seq<Data>, stored: seq<Data>, came: seq<Data>, went: seq<Data>, stored': seq<Data>)
    requires stored + came == went + stored'
    ensures before + stored + came == before + went + stored'
  {
    assert before + stored + came == before + (stored + came);
  }

  lemma ConservedOn(p: seq<Transfer>, q: seq<Transfer>, stored: seq<Data>, more: seq<Transfer>, more': seq<Transfer>,
                    stored': seq<Data>)
    requires Values(p) == Values(q) + stored && stored + Values(more) == Values(more') + stored'
    ensures Values(p + more) == Values(q + more') + stored'
  {
    ValuesConcat(p, more);
    ValuesConcat(q, more');
    StoredOn(Values(q), stored, Values(more), Values(more'), stored');
  }

  /** A step that moves both lines and accounts for the store keeps every invariant. */
  lemma MovesKeep(s: State, s': State, p: seq<Transfer>, q: seq<Transfer>, more: seq<Transfer>, more': seq<Transfer>)
    requires Good(s, p, q) && WaitersFit(s') && s'.calls == s.calls + 1
    requires LineMoves(more, s.producers, s'.producers, s.calls) && LineMoves(more', s.consumers, s'.consumers, s.calls)
    requires s.stored + Values(more) == Values(more') + s'.stored
    ensures Good(s', p + more, q + more')
  {
    LineStep(p, more, s.producers, s'.producers, s.calls);
    LineStep(q, more', s.consumers, s'.consumers, s.calls);
    ConservedOn(p, q, s.stored, more, more', s'.stored);
  }

  lemma PushKeeps(s: State, p: seq<Transfer>, q: seq<Transfer>, co: nat, data: Data)
    requires Good(s, p, q)
    ensures Good(DoPush(s, co, data).0, p + Pushes(DoPush(s, co, data).1), q + Pops(DoPush(s, co, data).1))
  {
    var (s', rs) := DoPush(s, co, data);
    PushMoves(s, co, data);
    PushStores(s, co, data);
    MovesKeep(s, s', p, q, Pushes(rs), Pops(rs));
  }

  lemma PopKeeps(s: State, p: seq<Transfer>, q: seq<Transfer>, co: nat)
    requires Good(s, p, q)
    ensures Good(DoPop(s, co).0, p + Pushes(DoPop(s, co).1), q + Pops(DoPop(s, co).1))
  {
    var (s', rs) := DoPop(s, co);
    PopMoves(s, co);
    PopStores(s, co);
    MovesKeep(s, s', p, q, Pushes(rs), Pops(rs));
  }

  lemma LeaveKeeps(s: State, p: seq<Transfer>, q: seq<Transfer>, co: nat, why: Outcome)
    requires Good(s, p, q) && (why.TimedOut? || why.Canceled?)
    ensures Good(Leave(s, co, why).0, p + Pushes(Leave(s, co, why).1), q + Pops(Leave(s, co, why).1))
  {
    var rs := Leave(s, co, why).1;
    if |rs| == 1 { RecordOne(rs[0]); }
    assert p + [] == p && q + [] == q;
    var i, j := Index(s.producers, co), Index(s.consumers, co);
    if i < |s.producers| { LineLeave(p, s.producers, s.calls, i); }
    else if j < |s.consumers| { LineLeave(q, s.consumers, s.calls, j); }
  }

  lemma StepKeeps(s: State, p: seq<Transfer>, q: seq<Transfer>, e: Event)
    requires Good(s, p, q)
    ensures Good(Step(s, e).0, p + Pushes(Step(s, e).1), q + Pops(Step(s, e).1))
  {
    assert p + [] == p && q + [] == q;
    match e
    case Push(co, data) => PushKeeps(s, p, q, co, data);
    case Pop(co) => PopKeeps(s, p, q, co);
    case Timeout(co) => LeaveKeeps(s, p, q, co, TimedOut);
    case Cancel(co) => LeaveKeeps(s, p, q, co, Canceled);
    case BeginClose =>
    case CloseOne =>
      if s.producers != [] { LeaveKeeps(s, p, q, s.producers[0].co, Canceled); }
      else if s.consumers != [] { LeaveKeeps(s, p, q, s.consumers[0].co, Canceled); }
  }

  // ---------- every run ----------

  /** The invariants hold after any run of a new channel. */
  lemma {:induction false} RunKeeps(capacity: nat, es: seq<Event>)
    ensures var r := Run(Create(capacity), es); Good(r.0, Pushes(r.1), Pops(r.1))
  {
    if es != [] {
      RunKeeps(capacity, es[..|es| - 1]);
      RunStep(Create(capacity), es);
    }
  }

  lemma RunStep(s: State, es: seq<Event>)
    requires es != []
    requires var r := Run(s, es[..|es| - 1]); Good(r.0, Pushes(r.1), Pops(r.1))
    ensures var r := Run(s, es); Good(r.0, Pushes(r.1), Pops(r.1))
  {
    var r := Run(s, es[..|es| - 1]);
    var more := Step(r.0, es[|es| - 1]).1;
    StepKeeps(r.0, Pushes(r.1), Pops(r.1), es[|es| - 1]);
    PushesConcat(r.1, more);
    PopsConcat(r.1, more);
  }

  lemma StepCapacity(s: State, e: Event)
    ensures Step(s, e).0.capacity == s.capacity
  {
  }

  lemma {:induction false} CapacityStays(s: State, es: seq<Event>)
    ensures Run(s, es).0.capacity == s.capacity
  {
    if es != [] {
      CapacityStays(s, es[..|es| - 1]);
      StepCapacity(Run(s, es[..|es| - 1]).0, es[|es| - 1]);
    }
  }

  /**
    * First in, first out, by the order of the calls and over any run: the k-th pop call to
    * succeed receives the value of the k-th push call to succeed, and successes on either
    * side come in the order in which the calls were made.
    */
  lemma Fifo(capacity: nat, es: seq<Event>)
    ensures var rs := Run(Create(capacity), es).1;
            var p, q := Pushes(rs), Pops(rs);
            && |q| <= |p| <= |q| + capacity
            && (forall k :: 0 <= k < |q| ==> q[k].data == p[k].data)
            && (forall i, j :: 0 <= i < j < |p| ==> p[i].call < p[j].call)
            && (forall i, j :: 0 <= i < j < |q| ==> q[i].call < q[j].call)
  {
    RunKeeps(capacity, es);
    CapacityStays(Create(capacity), es);
    var (s, rs) := Run(Create(capacity), es);
    var p, q := Pushes(rs), Pops(rs);
    assert Values(p) == Values(q) + s.stored;
    forall k | 0 <= k < |q| ensures q[k].data == p[k].data { assert Values(p)[k] == Values(q)[k]; }
    forall i, j | 0 <= i < j < |p| ensures p[i].call < p[j].call {
      assert Line(p, s.producers)[i] == p[i].call && Line(p, s.producers)[j] == p[j].call;
    }
    forall i, j | 0 <= i < j < |q| ensures q[i].call < q[j].call {
      assert Line(q, s.consumers)[i] == q[i].call && Line(q, s.consumers)[j] == q[j].call;
    }
  }

  /**
    * On an unbuffered channel successes pair up: after any run there are as many successful
    * pushes as pops, with equal values, and nothing is stored in between.
    */
  lemma Rendezvous(es: seq<Event>)
    ensures var r := Run(Create(0), es); r.0.stored == [] && Values(Pushes(r.1)) == Values(Pops(r.1))
  {
    RunKeeps(0, es);
    CapacityStays(Create(0), es);
  }

  /** No wake-up is lost: in every reachable state nobody waits who could be served. */
  lemma NobodyWaitsInVain(capacity: nat, es: seq<Event>)
    ensures var s := Run(Create(capacity), es).0;
            && (s.producers != [] ==> |s.stored| == capacity && s.consumers == [])
            && (s.consumers != [] ==> s.stored == [] && s.producers == [])
  {
    RunKeeps(capacity, es);
    CapacityStays(Create(capacity), es);
  }

  // ---------- readiness ----------

  predicate Readable(s: State)
  {
    s.stored != [] || (!s.closed && s.producers != [])
  }

  predicate Writable(s: State)
  {
    !s.closed && (|s.stored| != s.capacity || s.consumers != [])
  }

  /** A push begun now succeeds without waiting exactly if the channel is writable. */
  lemma WritableIsServed(s: State, co: nat, data: Data)
    requires WaitersFit(s)
    ensures Writable(s) <==> Pushes(DoPush(s, co, data).1) == [Transfer(s.calls, data)]
    ensures Writable(s) || s.closed ==> DoPush(s, co, data).0.producers == s.producers
  {
    PushRecords(s, co, data);
  }

  lemma ReadableIsServed(s: State, co: nat)
    requires WaitersFit(s)
    ensures Readable(s) <==> Pops(DoPop(s, co).1) == [Transfer(s.calls, Taken(s))]
    ensures Readable(s) || s.closed ==> DoPop(s, co).0.consumers == s.consumers
  {
    PopRecords(s, co);
  }

  // ---------- closing ----------

  function Waiters(s: State): nat
  {
    |s.producers| + |s.consumers|
  }

  lemma LeaveShrinks(s: State, co: nat, why: Outcome)
    ensures Waiters(Leave(s, co, why).0) == Waiters(s) - |Leave(s, co, why).1|
    ensures IsWaiting(s, co) ==> |Leave(s, co, why).1| == 1
    ensures s.producers == [] ==> Leave(s, co, why).0.producers == []
  {
  }

  /** After close no step adds a waiter, and each turn of the close loop removes one. */
  lemma ClosedStep(s: State, e: Event)
    requires s.closed
    ensures Step(s, e).0.closed && Waiters(Step(s, e).0) <= Waiters(s)
    ensures e.CloseOne? && Waiters(s) > 0 ==> Waiters(Step(s, e).0) == Waiters(s) - 1
    ensures s.producers == [] ==> Step(s, e).0.producers == []
  {
    match e
    case Push(co, data) =>
    case Pop(co) =>
    case Timeout(co) => LeaveShrinks(s, co, TimedOut);
    case Cancel(co) => LeaveShrinks(s, co, Canceled);
    case BeginClose =>
    case CloseOne =>
      if s.producers != [] { LeaveShrinks(s, s.producers[0].co, Canceled); }
      else if s.consumers != [] { LeaveShrinks(s, s.consumers[0].co, Canceled); }
  }

  /** How many turns the close loop takes in a run: the CloseOne events that find a waiter. */
  function Turns(s: State, es: seq<Event>): nat
  {
    if es == [] then 0
    else
      var front := es[..|es| - 1];
      var turn := es[|es| - 1].CloseOne? && Waiters(Run(s, front).0) > 0;
      Turns(s, front) + if turn then 1 else 0
  }

  /** Whatever else happens in between, the close loop takes at most one turn per waiter. */
  lemma {:induction false} CloseTerminates(s: State, es: seq<Event>)
    requires s.closed
    ensures Run(s, es).0.closed && Waiters(Run(s, es).0) + Turns(s, es) <= Waiters(s)
  {
    if es != [] {
      CloseTerminates(s, es[..|es| - 1]);
      ClosedStep(Run(s, es[..|es| - 1]).0, es[|es| - 1]);
    }
  }

  /** A call begun after close is answered at once: a push is refused, a pop never waits. */
  lemma ClosedAnswers(s: State, co: nat, data: Data)
    requires s.closed
    ensures DoPush(s, co, data).1 == [Reply(co, s.calls, Refused)]
    ensures DoPop(s, co).0.consumers == s.consumers
    ensures DoPop(s, co).1 != [] && DoPop(s, co).1[0].co == co && DoPop(s, co).1[0].call == s.calls
  {
  }
}
