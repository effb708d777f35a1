/**
  * cat_channel.c as it runs: flags, length, the store, the two waiter queues and the
  * hand-off slot are updated in place.  A waiting call is its entry in a waiter queue; the
  * code after cat_time_wait is the Finish... method of its kind, entered when the waiter is
  * resumed by a hand-off, a timeout (ret is false), a cancellation or close.  Every
  * operation is proved to be the step of the same name in ChannelSpec, and the source's
  * assertions are assertions here.
  */
module Channel {
  import Common
  import opened ChannelSpec

  /** u.unbuffered.data: a value offered by a push, or a pop's destination, or NULL. */
  datatype Slot = Empty | In(data: Data) | Out

  lemma WithoutFirst<T>(q: seq<T>)
    requires q != []
    ensures Without(q, 0) == q[1..]
  {
  }

  lemma RunOneMore(s: State, trace: seq<Event>, e: Event)
    ensures Run(s, trace + [e]) == (Step(Run(s, trace).0, e).0, Run(s, trace).1 + Step(Run(s, trace).0, e).1)
  {
  }

  /** One turn of the close loops: a waiter is woken, and what it and others then do. */
  function Turn(behaviour: seq<seq<Event>>, k: nat): seq<Event>
  {
    [CloseOne] + if k < |behaviour| then behaviour[k] else []
  }

  /** A close with that many turns. */
  function CloseTrace(behaviour: seq<seq<Event>>, turns: nat): seq<Event>
  {
    if turns == 0 then [BeginClose] else CloseTrace(behaviour, turns - 1) + Turn(behaviour, turns - 1)
  }

  class Channel {
    const capacity: nat
    var closed: bool
    var length: nat
    var storage: seq<Data>
    var producers: seq<Sender>
    var consumers: seq<Taker>
    var slot: Slot
    var able: bool      // u.unbuffered.able: push and pop share it
    var calls: nat      // numbers the calls

    function Abs(): State
      reads this
    {
      State(capacity, closed, storage, producers, consumers, calls)
    }

    /** Holds whenever user code runs; in particular the hand-off slot is empty and unable. */
    ghost predicate Valid()
      reads this
    {
      length == |storage| && slot == Empty && !able && WaitersFit(Abs())
    }

    constructor (capacity: nat)
      ensures Valid() && Abs() == Create(capacity)
    {
      this.capacity := capacity;
      closed, length, storage, producers, consumers, slot, able, calls := false, 0, [], [], [], Empty, false, 0;
    }

    predicate IsAvailable() reads this { !closed }
    predicate IsUnbuffered() reads this { capacity == 0 }
    predicate HasProducers() reads this { producers != [] }
    predicate HasConsumers() reads this { consumers != [] }
    predicate IsEmpty() reads this { length == 0 }
    predicate IsFull() reads this { length == capacity }

    predicate IsReadable()
      reads this
      ensures Valid() ==> IsReadable() == Readable(Abs())
    {
      !IsEmpty() || (IsAvailable() && HasProducers())
    }

    predicate IsWritable()
      reads this
      ensures Valid() ==> IsWritable() == Writable(Abs())
    {
      IsAvailable() && (!IsFull() || HasConsumers())
    }

    // ---------- the parts before a call waits, and the data moves ----------

    method UnbufferedPushData(data: Data) returns (delivered: Data)
      requires able && slot == Out
      modifies this`slot, this`able
      ensures delivered == data && slot == Empty && !able
    {
      delivered := data;
      slot := Empty;
      able := false;
    }

    method UnbufferedPopData() returns (data: Data)
      requires able && slot.In?
      modifies this`slot, this`able
      ensures data == old(slot).data && slot == Empty && !able
    {
      data := slot.data;
      slot := Empty;
      able := false;
    }

    method BufferedPushData(data: Data)
      requires length == |storage|
      modifies this`storage, this`length
      ensures storage == old(storage) + [data] && length == |storage|
    {
      storage := storage + [data];
      length := length + 1;
    }

    method BufferedPopData() returns (data: Data)
      requires length == |storage| > 0
      modifies this`storage, this`length
      ensures data == old(storage)[0] && storage == old(storage)[1..] && length == |storage|
    {
      data := storage[0];
      storage := storage[1..];
      length := length - 1;
    }

    // ---------- the parts after a call has waited ----------

    /** Producer i of an unbuffered channel is resumed; `delivered` is what its data became. */
    method FinishUnbufferedPush(i: nat, ret: bool) returns (reply: Reply, delivered: Data)
      requires i < |producers| && consumers == [] && (able ==> slot == Out)
      modifies this`producers, this`slot, this`able
      ensures producers == Without(old(producers), i)
      ensures var w := old(producers)[i];
              if ret && old(able) then
                reply == Reply(w.co, w.call, Accepted(w.data)) && delivered == w.data && !able && slot == Empty
              else reply == Reply(w.co, w.call, if ret then Canceled else TimedOut) && unchanged(`able, `slot)
    {
      var w := producers[i];
      delivered := [];
      producers := Without(producers, i);
      if !ret { return Reply(w.co, w.call, TimedOut), delivered; }
      if !able { return Reply(w.co, w.call, Canceled), delivered; }
      assert !HasConsumers();
      delivered := UnbufferedPushData(w.data);
      reply := Reply(w.co, w.call, Accepted(w.data));
    }

    method FinishUnbufferedPop(i: nat, ret: bool) returns (reply: Reply)
      requires i < |consumers| && producers == [] && (able ==> slot.In?)
      modifies this`consumers, this`slot, this`able
      ensures consumers == Without(old(consumers), i)
      ensures var w := old(consumers)[i];
              if ret && old(able) then reply == Reply(w.co, w.call, Received(old(slot).data)) && !able && slot == Empty
              else reply == Reply(w.co, w.call, if ret then Canceled else TimedOut) && unchanged(`able, `slot)
    {
      var w := consumers[i];
      consumers := Without(consumers, i);
      if !ret { return Reply(w.co, w.call, TimedOut); }
      if !able { return Reply(w.co, w.call, Canceled); }
      assert !HasProducers();
      var data := UnbufferedPopData();
      reply := Reply(w.co, w.call, Received(data));
    }

    method FinishBufferedPush(i: nat, ret: bool) returns (reply: Reply)
      requires i < |producers| && consumers == [] && length == |storage|
      modifies this`producers, this`storage, this`length
      ensures producers == Without(old(producers), i) && length == |storage|
      ensures var w := old(producers)[i];
              if ret && old(length) != capacity then
                reply == Reply(w.co, w.call, Accepted(w.data)) && storage == old(storage) + [w.data]
              else reply == Reply(w.co, w.call, if ret then Canceled else TimedOut) && storage == old(storage)
    {
      var w := producers[i];
      producers := Without(producers, i);
      if !ret { return Reply(w.co, w.call, TimedOut); }
      if IsFull() { return Reply(w.co, w.call, Canceled); }
      assert !HasConsumers();
      BufferedPushData(w.data);
      reply := Reply(w.co, w.call, Accepted(w.data));
    }

    method FinishBufferedPop(i: nat, ret: bool) returns (reply: Reply)
      requires i < |consumers| && producers == [] && length == |storage|
      modifies this`consumers, this`storage, this`length
      ensures consumers == Without(old(consumers), i) && length == |storage|
      ensures var w := old(consumers)[i];
              if ret && old(length) != 0 then
                reply == Reply(w.co, w.call, Received(old(storage)[0])) && storage == old(storage)[1..]
              else reply == Reply(w.co, w.call, if ret then Canceled else TimedOut) && storage == old(storage)
    {
      var w := consumers[i];
      consumers := Without(consumers, i);
      if !ret { return Reply(w.co, w.call, TimedOut); }
      if IsEmpty() { return Reply(w.co, w.call, Canceled); }
      assert !HasProducers();
      var data := BufferedPopData();
      reply := Reply(w.co, w.call, Received(data));
    }

    // ---------- push and pop ----------

    method UnbufferedPush(co: nat, call: nat, data: Data) returns (replies: seq<Reply>)
      requires Valid() && capacity == 0 && !closed && calls == call + 1
      modifies this`producers, this`consumers, this`slot, this`able
      ensures Valid() && (Abs(), replies) == DoPush(old(Abs()).(calls := call), co, data)
    {
      if !HasConsumers() {
        producers := producers + [Producer(co, call, data)];
        return [];
      }
      assert !HasProducers();
      assert !able;
      slot := In(data);
      able := true;
      var reply := FinishUnbufferedPop(0, true);
      replies := [Reply(co, call, Accepted(data)), reply];
      WithoutFirst(old(consumers));
    }

    method UnbufferedPop(co: nat, call: nat) returns (replies: seq<Reply>)
      requires Valid() && capacity == 0 && !closed && calls == call + 1
      modifies this`producers, this`consumers, this`slot, this`able
      ensures Valid() && (Abs(), replies) == DoPop(old(Abs()).(calls := call), co)
    {
      if !HasProducers() {
        consumers := consumers + [Consumer(co, call)];
        return [];
      }
      assert !HasConsumers();
      assert !able;
      slot := Out;
      able := true;
      var reply, data := FinishUnbufferedPush(0, true);
      replies := [reply, Reply(co, call, Received(data))];
      WithoutFirst(old(producers));
    }

    method BufferedPush(co: nat, call: nat, data: Data) returns (replies: seq<Reply>)
      requires Valid() && capacity > 0 && !closed && calls == call + 1
      modifies this`producers, this`consumers, this`storage, this`length
      ensures Valid() && (Abs(), replies) == DoPush(old(Abs()).(calls := call), co, data)
    {
      if IsFull() {
        producers := producers + [Producer(co, call, data)];
        return [];
      }
      assert !HasProducers();
      BufferedPushData(data);
      replies := [Reply(co, call, Accepted(data))];
      if HasConsumers() {
        var reply := FinishBufferedPop(0, true);
        replies := [replies[0], reply];
        WithoutFirst(old(consumers));
        assert storage == [] && old(storage) == [];
      }
    }

    method BufferedPop(co: nat, call: nat) returns (replies: seq<Reply>)
      requires Valid() && capacity > 0 && (closed ==> length > 0) && calls == call + 1
      modifies this`producers, this`consumers, this`storage, this`length
      ensures Valid() && (Abs(), replies) == DoPop(old(Abs()).(calls := call), co)
    {
      if IsEmpty() {
        consumers := consumers + [Consumer(co, call)];
        return [];
      }
      assert !HasConsumers();
      var data := BufferedPopData();
      replies := [Reply(co, call, Received(data))];
      if HasProducers() {
        var reply := FinishBufferedPush(0, true);
        replies := [replies[0], reply];
        WithoutFirst(old(producers));
      }
    }

    /** cat_channel_push by a running coroutine; no reply of its own means that it waits. */
    method Push(co: nat, data: Data) returns (replies: seq<Reply>)
      requires Valid()
      modifies this
      ensures Valid() && (Abs(), replies) == DoPush(old(Abs()), co, data)
    {
      var call := calls;
      calls := calls + 1;
      if !IsAvailable() { return [Reply(co, call, Refused)]; }
      if IsUnbuffered() { replies := UnbufferedPush(co, call, data); } else { replies := BufferedPush(co, call, data); }
    }

    method Pop(co: nat) returns (replies: seq<Reply>)
      requires Valid()
      modifies this
      ensures Valid() && (Abs(), replies) == DoPop(old(Abs()), co)
    {
      var call := calls;
      calls := calls + 1;
      if !IsAvailable() && IsEmpty() { return [Reply(co, call, Refused)]; }
      if IsUnbuffered() { replies := UnbufferedPop(co, call); } else { replies := BufferedPop(co, call); }
    }

    // ---------- waking a waiter without serving it ----------

    method ResumeProducer(i: nat, ret: bool) returns (reply: Reply)
      requires Valid() && i < |producers|
      modifies this
      ensures Valid()
      ensures reply == Reply(old(producers)[i].co, old(producers)[i].call, if ret then Canceled else TimedOut)
      ensures Abs() == old(Abs()).(producers := Without(old(producers), i))
    {
      if IsUnbuffered() {
        var data;
        reply, data := FinishUnbufferedPush(i, ret);
      } else {
        reply := FinishBufferedPush(i, ret);
      }
    }

    method ResumeConsumer(i: nat, ret: bool) returns (reply: Reply)
      requires Valid() && i < |consumers|
      modifies this
      ensures Valid()
      ensures reply == Reply(old(consumers)[i].co, old(consumers)[i].call, if ret then Canceled else TimedOut)
      ensures Abs() == old(Abs()).(consumers := Without(old(consumers), i))
    {
      if IsUnbuffered() { reply := FinishUnbufferedPop(i, ret); } else { reply := FinishBufferedPop(i, ret); }
    }

    /** Coroutine co is resumed by its timer (ret is false) or by another coroutine. */
    method Resume(co: nat, ret: bool) returns (replies: seq<Reply>)
      requires Valid()
      modifies this
      ensures Valid() && (Abs(), replies) == Leave(old(Abs()), co, if ret then Canceled else TimedOut)
    {
      var i, j := Index(producers, co), Index(consumers, co);
      if i < |producers| {
        var reply := ResumeProducer(i, ret);
        replies := [reply];
      } else if j < |consumers| {
        var reply := ResumeConsumer(j, ret);
        replies := [reply];
      } else {
        replies := [];
      }
    }

    // ---------- close and cleanup ----------

    /** One step of the system, whoever makes it. */
    method Dispatch(e: Event) returns (replies: seq<Reply>)
      requires Valid()
      modifies this
      ensures Valid() && (Abs(), replies) == Step(old(Abs()), e)
    {
      replies := [];
      match e
      case Push(co, data) =>
        if !IsWaiting(Abs(), co) { replies := Push(co, data); }
      case Pop(co) =>
        if !IsWaiting(Abs(), co) { replies := Pop(co); }
      case Timeout(co) => replies := Resume(co, false);
      case Cancel(co) => replies := Resume(co, true);
      case BeginClose => closed := true;
      case CloseOne =>
        if closed {
          if producers != [] { replies := Resume(producers[0].co, true); }
          else if consumers != [] { replies := Resume(consumers[0].co, true); }
        }
    }

    /** The steps a woken coroutine causes before control comes back to the close loop. */
    method Perform(es: seq<Event>, ghost s0: State, ghost trace: seq<Event>, replies0: seq<Reply>)
      returns (replies: seq<Reply>)
      requires Valid() && closed && Run(s0, trace) == (Abs(), replies0)
      modifies this
      ensures Valid() && closed && Run(s0, trace + es) == (Abs(), replies)
      ensures Waiters(Abs()) <= old(Waiters(Abs())) && (old(producers) == [] ==> producers == [])
    {
      replies := replies0;
      ghost var done := trace;
      var i := 0;
      while i < |es|
        invariant 0 <= i <= |es| && done == trace + es[..i]
        invariant Valid() && closed && Run(s0, done) == (Abs(), replies)
        invariant Waiters(Abs()) <= old(Waiters(Abs())) && (old(producers) == [] ==> producers == [])
      {
        replies := PerformOne(es[i], s0, done, replies);
        Common.TakeNext(trace, es, i);
        done := done + [es[i]];
        i := i + 1;
      }
      assert es[..i] == es;
    }

    method PerformOne(e: Event, ghost s0: State, ghost trace: seq<Event>, replies0: seq<Reply>)
      returns (replies: seq<Reply>)
      requires Valid() && closed && Run(s0, trace) == (Abs(), replies0)
      modifies this
      ensures Valid() && closed && Run(s0, trace + [e]) == (Abs(), replies)
      ensures Waiters(Abs()) <= old(Waiters(Abs())) && (old(producers) == [] ==> producers == [])
      ensures e.CloseOne? && old(Waiters(Abs())) > 0 ==> Waiters(Abs()) < old(Waiters(Abs()))
    {
      ClosedStep(Abs(), e);
      RunOneMore(s0, trace, e);
      var more := Dispatch(e);
      replies := replies0 + more;
    }

    /** One turn of a close loop: wake the front waiter, then let it and others run. */
    method CloseTurn(es: seq<Event>, ghost s0: State, ghost trace0: seq<Event>, replies0: seq<Reply>)
      returns (replies: seq<Reply>, ghost trace: seq<Event>)
      requires Valid() && closed && Run(s0, trace0) == (Abs(), replies0) && (producers != [] || consumers != [])
      modifies this
      ensures Valid() && closed && Run(s0, trace) == (Abs(), replies)
      ensures Waiters(Abs()) < old(Waiters(Abs())) && (old(producers) == [] ==> producers == [])
      ensures trace == trace0 + ([CloseOne] + es)
    {
      replies := PerformOne(CloseOne, s0, trace0, replies0);
      trace := trace0 + [CloseOne];
      replies := Perform(es, s0, trace, replies);
      trace := trace + es;
      Common.Regroup(trace0, [CloseOne], es);
    }

    /** The first close loop. */
    method WakeProducers(behaviour: seq<seq<Event>>, turn0: nat, ghost s0: State, ghost trace0: seq<Event>,
                         replies0: seq<Reply>)
      returns (turn: nat, replies: seq<Reply>, ghost trace: seq<Event>)
      requires Valid() && closed && Run(s0, trace0) == (Abs(), replies0) && trace0 == CloseTrace(behaviour, turn0)
      modifies this
      ensures Valid() && closed && producers == []
      ensures Run(s0, trace) == (Abs(), replies) && trace == CloseTrace(behaviour, turn)
    {
      turn, replies, trace := turn0, replies0, trace0;
      while producers != []
        invariant Valid() && closed
        invariant Run(s0, trace) == (Abs(), replies) && trace == CloseTrace(behaviour, turn)
        decreases Waiters(Abs())
      {
        replies, trace := CloseTurn(if turn < |behaviour| then behaviour[turn] else [], s0, trace, replies);
        turn := turn + 1;
      }
    }

    /** The second one: nobody can have begun to push meanwhile. */
    method WakeConsumers(behaviour: seq<seq<Event>>, turn0: nat, ghost s0: State, ghost trace0: seq<Event>,
                         replies0: seq<Reply>)
      returns (turn: nat, replies: seq<Reply>, ghost trace: seq<Event>)
      requires Valid() && closed && producers == []
      requires Run(s0, trace0) == (Abs(), replies0) && trace0 == CloseTrace(behaviour, turn0)
      modifies this
      ensures Valid() && closed && producers == [] && consumers == []
      ensures Run(s0, trace) == (Abs(), replies) && trace == CloseTrace(behaviour, turn)
    {
      turn, replies, trace := turn0, replies0, trace0;
      while consumers != []
        invariant Valid() && closed && producers == []
        invariant Run(s0, trace) == (Abs(), replies) && trace == CloseTrace(behaviour, turn)
        decreases Waiters(Abs())
      {
        replies, trace := CloseTurn(if turn < |behaviour| then behaviour[turn] else [], s0, trace, replies);
        turn := turn + 1;
      }
    }

    /**
      * cat_channel_close.  `behaviour` says, turn by turn, what the woken coroutines do to the
      * channel before control returns: any calls, timeouts and cancellations at all.  The
      * loops end, with both queues empty, and all of it together is one run of the system.
      */
    method Close(behaviour: seq<seq<Event>>)
      returns (ok: bool, replies: seq<Reply>, ghost trace: seq<Event>, ghost turns: nat)
      requires Valid()
      modifies this
      ensures Valid() && ok == !old(closed) && closed
      ensures !ok ==> Abs() == old(Abs()) && replies == []
      ensures ok ==> producers == [] && consumers == [] && Run(old(Abs()), trace) == (Abs(), replies)
      ensures ok ==> trace == CloseTrace(behaviour, turns)
    {
      replies, trace, turns := [], [], 0;
      if !IsAvailable() { return false, replies, trace, turns; }
      ghost var s0 := Abs();
      RunOneMore(s0, [], BeginClose);
      assert [] + [BeginClose] == [BeginClose] && Run(s0, []) == (s0, []);
      assert replies + replies == replies;
      closed := true;
      trace := [BeginClose];
      var turn;
      turn, replies, trace := WakeProducers(behaviour, 0, s0, trace, replies);
      turn, replies, trace := WakeConsumers(behaviour, turn, s0, trace, replies);
      assert !HasProducers() && !HasConsumers();
      ok, turns := true, turn;
    }

    /** Destroys what is stored, oldest first. */
    method Drain() returns (destroyed: seq<Data>)
      requires length == |storage|
      modifies `storage, `length
      ensures storage == [] && length == 0 && destroyed == old(storage)
    {
      destroyed := [];
      while storage != []
        invariant length == |storage| && destroyed + storage == old(storage)
        decreases |storage|
      {
        destroyed := destroyed + [storage[0]];
        storage := storage[1..];
        length := length - 1;
      }
    }

    /** cat_channel_cleanup: close if need be, then destroy what is stored. */
    method Cleanup(behaviour: seq<seq<Event>>)
      returns (replies: seq<Reply>, destroyed: seq<Data>, ghost trace: seq<Event>, ghost turns: nat)
      requires Valid()
      modifies this
      ensures closed && IsEmpty() && storage == []
      ensures trace == if old(closed) then [] else CloseTrace(behaviour, turns)
      ensures var r := Run(old(Abs()), trace);
              r.1 == replies && r.0.stored == destroyed && Abs() == r.0.(stored := [])
      ensures !old(closed) || old(Waiters(Abs())) == 0 ==> Valid() && producers == [] && consumers == []
    {
      replies, trace, turns := [], [], 0;
      if !closed {
        var ok;
        ok, replies, trace, turns := Close(behaviour);
      }
      destroyed := Drain();
      assert IsEmpty();
    }
  }
}
