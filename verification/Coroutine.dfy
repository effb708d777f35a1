/**
  * Coroutine switching (cat_coroutine.c): resume and yield rewrite the previous/next links
  * of the coroutines in place and hand control over.  The ghost sequence `chain` lists the
  * coroutines from the outermost resumer to the current one.
  */
module Coroutine {

  datatype State = Waiting | Running | Dead

  class Coroutine {
    var state: State
    var previous: Coroutine?
    var next: Coroutine?
    var from: Coroutine?
    var started: bool      // start_time has been set
    var freed: bool        // cat_coroutine_free has been called
    var switches: nat

    constructor ()
      ensures state == Waiting && previous == null && next == null && !started && !freed
    {
      state, previous, next, from, started, freed, switches := Waiting, null, null, null, false, false, 0;
    }
  }

  // ---------- what resume and yield mean for the chain ----------

  ghost function Position(chain: seq<Coroutine>, co: Coroutine): (i: nat)
    ensures i <= |chain| && (i < |chain| ==> chain[i] == co) && (i == |chain| ==> co !in chain)
  {
    if chain == [] || chain[0] == co then 0 else 1 + Position(chain[1..], co)
  }

  ghost function Without(chain: seq<Coroutine>, co: Coroutine): seq<Coroutine>
  {
    var i := Position(chain, co);
    if i == |chain| then chain else chain[..i] + chain[i + 1..]
  }

  /** The target goes to the end, wherever it was: the three flows drawn in the source. */
  ghost function Resumed(chain: seq<Coroutine>, target: Coroutine): seq<Coroutine>
  {
    Without(chain, target) + [target]
  }

  /** The current coroutine drops out; with nobody before it, the scheduler takes over. */
  ghost function Yielded(chain: seq<Coroutine>, scheduler: Coroutine?): seq<Coroutine>
    requires chain != [] && (|chain| == 1 ==> scheduler != null)
  {
    if |chain| == 1 then [scheduler] else chain[..|chain| - 1]
  }

  ghost predicate Distinct(chain: seq<Coroutine>)
  {
    forall i, j :: 0 <= i < j < |chain| ==> chain[i] != chain[j]
  }

  /** Where the coroutines are after one has been taken out. */
  lemma {:induction false} WithoutAt(chain: seq<Coroutine>, co: Coroutine, k: nat, w: seq<Coroutine>)
    requires k == Position(chain, co) && w == Without(chain, co)
    ensures |w| == (if k < |chain| then |chain| - 1 else |chain|)
    ensures forall i :: 0 <= i < |w| ==> w[i] == chain[if i < k then i else i + 1]
  {
  }

  /** Taking out anybody but the last leaves the last in place. */
  lemma {:induction false} WithoutFacts(chain: seq<Coroutine>, co: Coroutine, w: seq<Coroutine>)
    requires Distinct(chain) && chain != [] && co != chain[|chain| - 1] && w == Without(chain, co)
    ensures w != [] && w[|w| - 1] == chain[|chain| - 1] && Distinct(w) && co !in w
    ensures forall i :: 0 <= i < |w| ==> w[i] in chain
  {
    var k := Position(chain, co);
    WithoutAt(chain, co, k, w);
    WithoutDistinct(chain, k, w);
    forall i | 0 <= i < |w| ensures w[i] in chain && w[i] != co {
      var j := if i < k then i else i + 1;
      assert w[i] == chain[j] && (k < |chain| ==> chain[j] != chain[k]);
    }
  }

  lemma {:induction false} WithoutDistinct(chain: seq<Coroutine>, k: nat, w: seq<Coroutine>)
    requires Distinct(chain) && |w| == (if k < |chain| then |chain| - 1 else |chain|)
    requires forall i :: 0 <= i < |w| ==> w[i] == chain[if i < k then i else i + 1]
    ensures Distinct(w)
  {
    forall i, j | 0 <= i < j < |w| ensures w[i] != w[j] {
      var a, b := if i < k then i else i + 1, if j < k then j else j + 1;
      assert w[i] == chain[a] && w[j] == chain[b] && a < b;
    }
  }

  lemma {:induction false} ResumedDistinct(chain: seq<Coroutine>, target: Coroutine)
    requires Distinct(chain)
    ensures Distinct(Resumed(chain, target))
    ensures forall co :: co in Resumed(chain, target) <==> co in chain || co == target
  {
    var k, w := Position(chain, target), Without(chain, target);
    WithoutAt(chain, target, k, w);
    WithoutDistinct(chain, k, w);
    forall i | 0 <= i < |w| ensures w[i] in chain && w[i] != target {
      var j := if i < k then i else i + 1;
      assert w[i] == chain[j] && (k < |chain| ==> chain[j] != chain[k]);
    }
    forall j | 0 <= j < |chain| ensures chain[j] in w || chain[j] == target {
      if j != k { assert chain[j] == w[if j < k then j else j - 1]; }
    }
  }

  lemma FrontMembers(chain: seq<Coroutine>)
    requires chain != [] && Distinct(chain)
    ensures forall x :: x in chain <==> x in chain[..|chain| - 1] || x == chain[|chain| - 1]
    ensures chain[|chain| - 1] !in chain[..|chain| - 1]
  {
  }

  // ---------- the links ----------

  ghost function At(chain: seq<Coroutine>, i: int): Coroutine?
  {
    if 0 <= i < |chain| then chain[i] else null
  }

  ghost predicate LinkedAt(chain: seq<Coroutine>, i: int)
    requires 0 <= i < |chain|
    reads {chain[i]}`previous, {chain[i]}`next
  {
    chain[i].previous == At(chain, i - 1) && chain[i].next == At(chain, i + 1)
  }

  /** Taking out slot k leaves a chain linked like any other. */
  lemma {:induction false} GapClosed(chain: seq<Coroutine>, co: Coroutine, k: nat, w: seq<Coroutine>)
    requires k == Position(chain, co) && w == Without(chain, co)
    requires forall i :: 0 <= i < |chain| && i != k ==> NextBypassed(chain, k, i) && PreviousBypassed(chain, k, i)
    ensures forall i {:trigger LinkedAt(w, i)} :: 0 <= i < |w| ==> LinkedAt(w, i)
  {
    WithoutAt(chain, co, k, w);
    forall i | 0 <= i < |w| ensures LinkedAt(w, i) {
      var j := if i < k then i else i + 1;
      assert w[i] == chain[j] && NextBypassed(chain, k, j) && PreviousBypassed(chain, k, j);
    }
  }

  ghost predicate Unlinked(co: Coroutine)
    reads co`previous, co`next
  {
    co.previous == null && co.next == null
  }

  /** The links of slot i after the coroutine in slot k has been taken out. */
  ghost predicate NextBypassed(chain: seq<Coroutine>, k: int, i: int)
    requires 0 <= i < |chain|
    reads {chain[i]}`next
  {
    chain[i].next == if i == k - 1 then At(chain, k + 1) else At(chain, i + 1)
  }

  ghost predicate PreviousBypassed(chain: seq<Coroutine>, k: int, i: int)
    requires 0 <= i < |chain|
    reads {chain[i]}`previous
  {
    chain[i].previous == if i == k + 1 then At(chain, k - 1) else At(chain, i - 1)
  }

  /** The chain is doubly linked, without repetition, and the others have no links. */
  ghost predicate LinkedUp(chain: seq<Coroutine>, all: set<Coroutine>)
    reads all`previous, all`next
  {
    && Distinct(chain)
    && (forall i {:trigger LinkedAt(chain, i)} :: 0 <= i < |chain| ==> chain[i] in all && LinkedAt(chain, i))
    && (forall co :: co in all && co !in chain ==> Unlinked(co))
  }

  ghost predicate Threaded(chain: seq<Coroutine>, all: set<Coroutine>)
    reads all`previous, all`next
  {
    && Distinct(chain)
    && forall i {:trigger LinkedAt(chain, i)} :: 0 <= i < |chain| ==> chain[i] in all && LinkedAt(chain, i)
  }

  lemma ThreadedIsLinkedUp(chain: seq<Coroutine>, all: set<Coroutine>)
    requires Threaded(chain, all) && forall co :: co in all && co !in chain ==> Unlinked(co)
    ensures LinkedUp(chain, all)
  {
    forall i | 0 <= i < |chain| ensures chain[i] in all { assert LinkedAt(chain, i); }
  }

  lemma LinkedUpMore(chain: seq<Coroutine>, all: set<Coroutine>, co: Coroutine)
    requires LinkedUp(chain, all) && Unlinked(co)
    ensures LinkedUp(chain, all + {co})
  {
    forall i | 0 <= i < |chain| ensures chain[i] in all + {co} { assert LinkedAt(chain, i); }
  }

  /** What has been freed is dead, or was closed before it had started. */
  ghost predicate FreedRightly(co: Coroutine)
    reads co`state, co`started, co`freed
  {
    (co.state == Dead ==> co.freed) && (co.freed ==> co.state == Dead || !co.started)
  }

  /** The handle still stands for a coroutine: it was not closed before it had started. */
  predicate Usable(co: Coroutine)
    reads co`state, co`freed
  {
    co.freed ==> co.state == Dead
  }

  datatype Resumption = Done | Denied | Busy | NoSuch

  class Runtime {
    var current: Coroutine
    var main: Coroutine
    var scheduler: Coroutine?
    var switchDenied: bool
    var count: int
    var switches: nat
    ghost var chain: seq<Coroutine>
    ghost var all: set<Coroutine>
    ghost var alive: set<Coroutine>  // those that have started and not finished

    /** One doubly linked chain that ends at current; everybody else has no links at all. */
    ghost predicate Chained()
      reads this`chain, this`all, this`current, all`previous, all`next
    {
      chain != [] && current == chain[|chain| - 1] && LinkedUp(chain, all)
    }

    ghost predicate AllFit()
      reads this`all, this`current, this`alive, all`state, all`started, all`freed
    {
      forall co :: co in all ==> StateFits(co)
    }

    ghost predicate OthersFit()
      reads this`all, this`current, this`alive, all`state, all`started, all`freed
    {
      forall co :: co in all && co != current ==> StateFits(co)
    }

    ghost predicate RestAlive()
      reads this`chain, this`alive, this`current, this`scheduler
    {
      (forall co :: co in chain && co != current ==> co in alive) && (scheduler != null ==> scheduler in alive)
    }

    ghost predicate ChainAlive()
      reads this`chain, this`alive
    {
      forall co :: co in chain ==> co in alive
    }

    ghost predicate StateFits(co: Coroutine)
      reads this`current, this`alive, co`state, co`started, co`freed
    {
      && FreedRightly(co) && (co.state == Running <==> co == current)
      && (co in alive <==> co.started && co.state != Dead)
    }

    /** Exactly the current coroutine runs; nobody on the chain is dead or freed, nor is the scheduler. */
    ghost predicate States()
      reads this`chain, this`all, this`alive, this`current, this`scheduler, all`state, all`started, all`freed
    {
      && AllFit() && current in all && ChainAlive()
      && alive <= all && (scheduler != null ==> scheduler in alive)
    }

    /** The count covers everybody alive except a scheduler. */
    ghost predicate Counted()
      reads this`alive, this`count, this`scheduler
    {
      count == |alive| - if scheduler != null then 1 else 0
    }

    ghost predicate Valid()
      reads this, all
    {
      Chained() && States() && Counted() && main in all
    }

    /** Where a yield of the current coroutine goes; null is "nowhere to go". */
    ghost function Target(): Coroutine?
      requires chain != []
      reads this
    {
      if |chain| > 1 then chain[|chain| - 2] else if scheduler != null && scheduler != current then scheduler else null
    }

    /** cat_coroutine_runtime_init: the main coroutine, running, alone on the chain. */
    constructor ()
      ensures Valid() && fresh(all) && all == {main} && chain == [main] && current == main
      ensures scheduler == null && !switchDenied && count == 1
    {
      var m := new Coroutine();
      m.state, m.started := Running, true;
      current, main, scheduler, switchDenied, count, switches := m, m, null, false, 1, 0;
      chain, all, alive := [m], {m}, {m};
    }

    /** cat_coroutine_create: a waiting coroutine that has not started. */
    method Create() returns (co: Coroutine)
      requires Valid()
      modifies this`all
      ensures Valid() && fresh(co) && all == old(all) + {co} && co.state == Waiting && !co.started && !co.freed
    {
      co := new Coroutine();
      Adopt(co);
    }

    ghost method Adopt(co: Coroutine)
      requires Valid() && co !in all && Unlinked(co) && co.state == Waiting && !co.started && !co.freed
      modifies this`all
      ensures Valid() && all == old(all) + {co}
    {
      ghost var more := all + {co};
      LinkedUpMore(chain, all, co);
      assert current != co && StateFits(co);
      label Before:
      all := more;
      assert LinkedUp(chain, all) == old@Before(LinkedUp(chain, more));
      assert AllFit();
    }

    /** cat_coroutine_close: only a coroutine that has never run can be given up. */
    method Close(co: Coroutine) returns (ok: bool)
      requires Valid() && co in all && Usable(co)
      modifies co`freed
      ensures Valid() && ok == (co.state == Waiting && !co.started)
      ensures ok ==> co.freed && co !in chain && co != current && co != scheduler
      ensures !ok ==> co.freed == old(co.freed)
    {
      assert StateFits(co);
      ok := co.state != Dead && !co.started;
      if ok {
        co.freed := true;
        forall x | x in all ensures StateFits(x) { assert old(StateFits(x)); }
      }
    }

    // ---------- the links ----------

    /** The first half of the surgery: the target leaves the list it may be in. */
    method TakeOut(co: Coroutine, ghost k: nat)
      requires Chained() && co in all && co != current
      requires k <= |chain| && (k < |chain| ==> chain[k] == co) && (k == |chain| ==> co !in chain)
      modifies all`previous, all`next
      ensures forall i :: 0 <= i < |chain| && i != k ==> NextBypassed(chain, k, i)
      ensures forall i :: 0 <= i < |chain| && i != k ==> PreviousBypassed(chain, k, i)
      ensures forall x :: x in all && x !in chain ==> Unlinked(x)
    {
      if k < |chain| { assert LinkedAt(chain, k); } else { assert Unlinked(co); }
      forall i | 0 <= i < |chain|
        ensures chain[i] in all && chain[i].next == At(chain, i + 1) && chain[i].previous == At(chain, i - 1)
      {
        assert LinkedAt(chain, i);
      }
      BypassNext(co, k);
      BypassPrevious(co, k);
      forall x | x in all && x !in chain ensures Unlinked(x) { assert old(Unlinked(x)); }
    }

    method BypassNext(co: Coroutine, ghost k: nat)
      requires chain != [] && k <= |chain| && Distinct(chain) && forall i :: 0 <= i < |chain| ==> chain[i] in all
      requires forall i :: 0 <= i < |chain| ==> chain[i].next == At(chain, i + 1)
      requires co.previous == (if k < |chain| then At(chain, k - 1) else null)
      requires k < |chain| ==> co.next == At(chain, k + 1)
      modifies all`next
      ensures forall i :: 0 <= i < |chain| && i != k ==> NextBypassed(chain, k, i)
      ensures forall x :: x in all && x !in chain ==> x.next == old(x.next)
      ensures k < |chain| && chain[k] == co ==> co.next == old(co.next)
    {
      if co.previous != null { co.previous.next := co.next; }
      forall i | 0 <= i < |chain| && i != k ensures NextBypassed(chain, k, i) {
        assert old(chain[i].next) == At(chain, i + 1);
        assert 0 < k < |chain| && i != k - 1 ==> chain[i] != chain[k - 1];
      }
    }

    method BypassPrevious(co: Coroutine, ghost k: nat)
      requires chain != [] && k <= |chain| && Distinct(chain) && forall i :: 0 <= i < |chain| ==> chain[i] in all
      requires forall i :: 0 <= i < |chain| ==> chain[i].previous == At(chain, i - 1)
      requires co.next == (if k < |chain| then At(chain, k + 1) else null)
      requires k < |chain| ==> co.previous == At(chain, k - 1)
      modifies all`previous
      ensures forall i :: 0 <= i < |chain| && i != k ==> PreviousBypassed(chain, k, i)
      ensures forall x :: x in all && x !in chain ==> x.previous == old(x.previous)
    {
      if co.next != null { co.next.previous := co.previous; }
      forall i | 0 <= i < |chain| && i != k ensures PreviousBypassed(chain, k, i) {
        assert old(chain[i].previous) == At(chain, i - 1);
        assert k + 1 < |chain| && i != k + 1 ==> chain[i] != chain[k + 1];
      }
    }

    /** The second half: the target goes behind the current coroutine. */
    method PutBehindCurrent(co: Coroutine, ghost w: seq<Coroutine>)
      requires w != [] && current == w[|w| - 1] && Threaded(w, all) && co !in w && co in all
      modifies this`chain, co`previous, co`next, current`next
      ensures chain == w + [co] && Threaded(chain, all)
    {
      co.previous := current;
      co.next := null;
      current.next := co;
      chain := w + [co];
      forall i | 0 <= i < |chain| ensures chain[i] in all && LinkedAt(chain, i) {
        if i < |w| { assert old(LinkedAt(w, i)) && w[i] in all; }
      }
    }

    method Isolate(co: Coroutine) returns (ghost w: seq<Coroutine>)
      requires Chained() && co in all && co != current
      modifies all`previous, all`next
      ensures w == Without(chain, co) && w != [] && current == w[|w| - 1] && Threaded(w, all) && co !in w
      ensures current in all
      ensures forall i :: 0 <= i < |w| ==> w[i] in chain
      ensures forall x :: x in all && x !in chain ==> Unlinked(x)
    {
      w := Without(chain, co);
      WithoutFacts(chain, co, w);
      forall i | 0 <= i < |chain| ensures chain[i] in all { assert LinkedAt(chain, i); }
      ghost var k := Position(chain, co);
      TakeOut(co, k);
      GapClosed(chain, co, k, w);
    }

    /** The surgery of resume: out of the list it may be in, and behind the current coroutine. */
    method MoveBehindCurrent(co: Coroutine)
      requires Chained() && co in all && co != current
      modifies this`chain, all`previous, all`next
      ensures chain == Resumed(old(chain), co) && LinkedUp(chain, all) && chain[|chain| - 1] == co
      ensures forall x :: x in chain ==> x in old(chain) || x == co
    {
      ghost var w := Isolate(co);
      ResumedDistinct(chain, co);
      label taken:
      PutBehindCurrent(co, w);
      forall x | x in all && x !in chain ensures Unlinked(x) {
        assert x !in old(chain) && old@taken(Unlinked(x));
      }
      ThreadedIsLinkedUp(chain, all);
    }

    // ---------- switching ----------

    /** cat_coroutine_jump_standard, up to the context switch. */
    method Jump(co: Coroutine)
      requires current in all && co in all && co != current
      modifies this`switches, this`current, current`switches, co`from, current`state, co`state
      ensures current == co && co.from == old(current) && co.state == Running && switches == old(switches) + 1
      ensures old(current).state == if old(current.state) == Running then Waiting else old(current.state)
      ensures LinkedUp(chain, all) == old(LinkedUp(chain, all))
    {
      var c := current;
      switches := switches + 1;
      c.switches := c.switches + 1;
      current := co;
      co.from := c;
      if c.state == Running { c.state := Waiting; }
      co.state := Running;
    }

    /** The jump of a resume, and the prologue of a coroutine that runs for the first time. */
    method Enter(co: Coroutine)
      requires AllFit() && current in all && co in all && co.state == Waiting && !co.freed
      modifies this`switches, this`current, this`count, this`alive
      modifies current`switches, co`from, current`state, co`state, co`started
      ensures AllFit() && current == co && co.started && old(current).state == Waiting
      ensures LinkedUp(chain, all) == old(LinkedUp(chain, all))
      ensures alive == old(alive) + {co} && count - |alive| == old(count - |alive|)
      ensures co.from == old(current) && switches == old(switches) + 1
    {
      assert StateFits(current) && StateFits(co);
      Jump(co);
      if !co.started {
        Start();
      } else {
        assert co.from.state != Dead;  // there is nothing to free on arrival
      }
      forall x | x in all ensures StateFits(x) { assert old(StateFits(x)); }
    }

    /** The beginning of context_function. */
    method Start()
      requires current !in alive
      modifies this`count, this`alive, current`started
      ensures current.started && alive == old(alive) + {current} && count - |alive| == old(count - |alive|)
    {
      count := count + 1;
      current.started := true;
      alive := alive + {current};
    }

    /** The rest of jump_standard, in the coroutine that was switched to: free a dead predecessor. */
    method Arrive()
      requires current.from != null && current.from in all
      requires current.from.state == Dead ==> !current.from.freed
      modifies current.from`freed
      ensures current.from.freed == (old(current.from.freed) || current.from.state == Dead)
      ensures LinkedUp(chain, all) == old(LinkedUp(chain, all))
    {
      if current.from.state == Dead { current.from.freed := true; }
    }

    /** The switch precheck and check_resumability. */
    function Resumability(co: Coroutine): Resumption
      reads this`switchDenied, co`state
    {
      if switchDenied then Denied
      else if co.state == Running then Busy
      else if co.state == Dead then NoSuch
      else Done
    }

    /** The body of cat_coroutine_resume. */
    method SwitchTo(co: Coroutine)
      requires Chained() && AllFit() && ChainAlive() && current in all && co in all && co.state == Waiting && !co.freed
      modifies this`chain, this`switches, this`current, this`count, this`alive
      modifies all`previous, all`next, current`switches, co`from, current`state, co`state, co`started
      ensures Chained() && chain == Resumed(old(chain), co) && current == co
      ensures AllFit() && ChainAlive() && co.started && old(current).state == Waiting
      ensures alive == old(alive) + {co} && count - |alive| == old(count - |alive|)
      ensures co.from == old(current) && switches == old(switches) + 1
    {
      assert StateFits(co) && StateFits(current);
      MoveBehindCurrent(co);
      Enter(co);
    }

    method ResumeWaiting(co: Coroutine)
      requires Valid() && co in all && co.state == Waiting && !co.freed
      modifies this`chain, this`switches, this`current, this`count, this`alive
      modifies all`previous, all`next, current`switches, co`from, current`state, co`state, co`started
      ensures Valid() && chain == Resumed(old(chain), co) && current == co
      ensures co.started && old(current).state == Waiting
      ensures co.from == old(current) && switches == old(switches) + 1
    {
      SwitchTo(co);
    }

    /** cat_coroutine_resume. */
    method Resume(co: Coroutine) returns (r: Resumption)
      requires Valid() && co in all && Usable(co)
      modifies this`chain, this`switches, this`current, this`count, this`alive
      modifies all`previous, all`next, current`switches, co`from, current`state, co`state, co`started
      ensures Valid() && (r == Done <==> !old(switchDenied) && old(co.state) == Waiting)
      ensures r == Denied <==> old(switchDenied)
      ensures r == Busy <==> !old(switchDenied) && co == old(current)
      ensures r == NoSuch <==> !old(switchDenied) && old(co.state) == Dead
      ensures r == Done ==> chain == Resumed(old(chain), co) && current == co
      ensures r == Done ==> co.started && old(current).state == Waiting
      ensures r != Done ==> unchanged(this) && unchanged(all)
      ensures r == Done ==> co.from == old(current) && switches == old(switches) + 1
    {
      r := Resumability(co);
      assert StateFits(co);
      if r == Done { ResumeWaiting(co); }
    }

    /** Whom yield jumps to without a check: always a coroutine that has started and waits. */
    lemma TargetWaits()
      requires Valid() && Target() != null
      ensures Target() in all && Target() != current && Target() in alive
      ensures Target().state == Waiting && Target().started && !Target().freed
    {
      assert |chain| > 1 ==> chain[|chain| - 2] in chain && chain[|chain| - 2] != chain[|chain| - 1];
      assert StateFits(Target());
    }

    /** The choice of the target in cat_coroutine_yield. */
    method ChooseTarget() returns (target: Coroutine?)
      requires Chained()
      ensures target == Target()
    {
      assert LinkedAt(chain, |chain| - 1);
      target := current.previous;
      if target == null {
        target := scheduler;
        if target == null || target == current { return null; }
      }
    }

    /** The link changes of yield, back to the coroutine before the current one. */
    method LetGo(target: Coroutine)
      requires Chained() && |chain| > 1 && target == chain[|chain| - 2]
      modifies this`chain, current`previous, target`next
      ensures LinkedUp(chain, all) && chain == old(chain)[..|old(chain)| - 1]
      ensures forall x :: x in chain ==> x != current && x in old(chain)
    {
      ghost var n := |chain|;
      assert LinkedAt(chain, n - 1) && LinkedAt(chain, n - 2);
      FrontMembers(chain);
      current.previous := null;
      target.next := null;
      chain := chain[..n - 1];
      forall i | 0 <= i < |chain| ensures chain[i] in all && LinkedAt(chain, i) {
        assert old(LinkedAt(chain, i)) && chain[i] != current;
      }
      forall x | x in all && x !in chain ensures Unlinked(x) {
        assert x != current ==> old(Unlinked(x));
      }
    }

    /** The same from the head of the chain to the scheduler, which is off the chain. */
    method LetGoToScheduler(target: Coroutine)
      requires Chained() && |chain| == 1 && target in all && target != current
      modifies this`chain, current`previous, target`next
      ensures LinkedUp(chain, all) && chain == [target]
    {
      assert LinkedAt(chain, 0) && target !in chain && Unlinked(target);
      current.previous := null;
      target.next := null;
      chain := [target];
      forall x | x in all && x !in chain ensures Unlinked(x) {
        assert x != current ==> old(Unlinked(x));
      }
    }

    method BreakLinks(target: Coroutine)
      requires Chained() && target == Target() && target in all && target != current
      modifies this`chain, current`previous, target`next
      ensures LinkedUp(chain, all) && chain == Yielded(old(chain), scheduler) && chain[|chain| - 1] == target
      ensures forall x :: x in chain ==> x != current && (x in old(chain) || x == scheduler)
    {
      assert LinkedAt(chain, |chain| - 1);
      if current.previous != null { LetGo(target); } else { LetGoToScheduler(target); }
    }

    /** The switch of a yield: depart, and arrive in the target. */
    method SwitchBack(target: Coroutine)
      requires Chained() && target == Target() && target in all && target != current && current in all && !current.freed
      modifies this`chain, this`switches, this`current
      modifies current`previous, target`next, current`switches, target`from, current`state, target`state, current`freed
      ensures Chained() && chain == Yielded(old(chain), scheduler) && current == target && target.state == Running
      ensures forall x :: x in chain ==> x != old(current) && (x in old(chain) || x == scheduler)
      ensures old(current).state == if old(current.state) == Running then Waiting else old(current.state)
      ensures old(current).freed == (old(current).state == Dead)
      ensures target.from == old(current) && switches == old(switches) + 1
    {
      BreakLinks(target);
      Jump(target);
      Arrive();
    }

    method YieldTo(target: Coroutine)
      requires Valid() && target == Target() && target in alive && target != current
      modifies this`chain, this`switches, this`current
      modifies current`previous, target`next, current`switches, target`from, current`state, target`state, current`freed
      ensures Valid() && chain == Yielded(old(chain), scheduler) && current == target
      ensures old(current).state == Waiting && !old(current).freed && old(current) !in chain
      ensures target.from == old(current) && switches == old(switches) + 1
    {
      assert StateFits(current) && StateFits(target) && chain[|chain| - 1] in chain;
      SwitchBack(target);
      forall x | x in all ensures StateFits(x) { assert old(StateFits(x)); }
    }

    /** cat_coroutine_yield by the current coroutine, which then waits off the chain. */
    method Yield() returns (ok: bool)
      requires Valid()
      modifies this`chain, this`switches, this`current
      modifies current`previous, current`switches, current`state, current`freed
      modifies (if Target() == null then {} else {Target()})`next
      modifies (if Target() == null then {} else {Target()})`from
      modifies (if Target() == null then {} else {Target()})`state
      ensures Valid() && ok == (!switchDenied && old(Target()) != null)
      ensures ok ==> chain == Yielded(old(chain), scheduler) && current == old(Target())
      ensures ok ==> old(current).state == Waiting && !old(current).freed && old(current) !in chain
      ensures !ok ==> unchanged(this) && unchanged(all)
      ensures ok ==> current.from == old(current) && switches == old(switches) + 1
    {
      if switchDenied { return false; }
      var target := ChooseTarget();
      ok := target != null;
      if ok {
        TargetWaits();
        YieldTo(target);
      }
    }

    method MarkDead()
      requires States() && Counted() && current in alive && current != scheduler
      modifies this`count, this`alive, current`state
      ensures current.state == Dead && alive == old(alive) - {current} && count == old(count) - 1
      ensures OthersFit() && RestAlive() && Counted()
      ensures LinkedUp(chain, all) == old(LinkedUp(chain, all))
    {
      count := count - 1;
      current.state := Dead;
      alive := alive - {current};
      forall x | x in all && x != current ensures StateFits(x) { assert old(StateFits(x)); }
    }

    /** Nobody else is in disorder while the current coroutine is dead. */
    method LeaveDead(target: Coroutine)
      requires Chained() && OthersFit() && current in all - alive
      requires current.state == Dead && current.started && !current.freed
      requires RestAlive() && alive <= all
      requires target == Target() && target in alive && target != current
      modifies this`chain, this`switches, this`current
      modifies current`previous, target`next, current`switches, target`from, current`state, target`state, current`freed
      ensures Chained() && States() && chain == Yielded(old(chain), scheduler) && current == target
      ensures old(current).state == Dead && old(current).freed && old(current) !in chain
      ensures target.from == old(current) && switches == old(switches) + 1
    {
      SwitchBack(target);
      forall x | x in all ensures StateFits(x) { assert x != old(current) ==> old(StateFits(x)); }
    }

    /** The end of context_function: the coroutine is dead, and yields for the last time. */
    method Finish(target: Coroutine)
      requires Valid() && target == Target() && target in alive && target != current && current != scheduler
      modifies this`chain, this`switches, this`current, this`count, this`alive
      modifies current`previous, target`next, current`switches, target`from, current`state, target`state, current`freed
      ensures Valid() && chain == Yielded(old(chain), scheduler) && current == target && count == old(count) - 1
      ensures old(current).state == Dead && old(current).freed && old(current) !in chain
      ensures target.from == old(current) && switches == old(switches) + 1
    {
      assert StateFits(current) && StateFits(target) && chain[|chain| - 1] in chain;
      MarkDead();
      LeaveDead(target);
    }

    /**
      * A coroutine's function returns: it dies, and is freed by whoever it yields to.  It must
      * have somewhere to go.
      */
    method Die()
      requires Valid() && current != main && current != scheduler && !switchDenied && Target() != null
      modifies this`chain, this`switches, this`current, this`count, this`alive
      modifies current`previous, current`switches, current`state, current`freed
      modifies Target()`next, Target()`from, Target()`state
      ensures Valid() && chain == Yielded(old(chain), scheduler) && current == old(Target()) && count == old(count) - 1
      ensures old(current).state == Dead && old(current).freed && old(current) !in chain
      ensures current.from == old(current) && switches == old(switches) + 1
    {
      TargetWaits();
      var target := ChooseTarget();
      Finish(target);
    }

    /** The scheduler coroutine registers itself and stops being counted. */
    method BecomeScheduler()
      requires Valid() && scheduler == null
      modifies this`scheduler, this`count
      ensures Valid() && scheduler == current && count == old(count) - 1
    {
      scheduler := current;
      count := count - 1;
    }

    /** The scheduler's loop has ended: it is an ordinary coroutine again, about to finish. */
    method StopScheduler()
      requires Valid() && scheduler == current
      modifies this`scheduler, this`count
      ensures Valid() && scheduler == null && count == old(count) + 1
    {
      count := count + 1;
      scheduler := null;
    }
  }

  // ---------- the meaning of the chain ----------

  /** A coroutine resumed from off the chain and yielding at once leaves the chain as it was. */
  lemma ResumeThenYield(chain: seq<Coroutine>, target: Coroutine, scheduler: Coroutine?)
    requires chain != [] && target !in chain
    ensures Yielded(Resumed(chain, target), scheduler) == chain
  {
  }

  /** One resumed from the chain, yielding, returns to its resumer; the rest keep their order. */
  lemma CrossResumeThenYield(chain: seq<Coroutine>, k: nat, scheduler: Coroutine?)
    requires Distinct(chain) && k < |chain| - 1
    ensures Yielded(Resumed(chain, chain[k]), scheduler) == chain[..k] + chain[k + 1..]
    ensures (var c := chain[..k] + chain[k + 1..]; c[|c| - 1] == chain[|chain| - 1])
  {
  }
}
