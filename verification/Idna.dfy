/**
  * uv__idna_toascii_label: the label encoder as it runs, over UTF-8 bytes and into a bounded
  * output buffer.  Every loop of the C function is a loop here; each is proved against the
  * Punycode module, so that RoundTrip speaks about what ends up in the buffer.
  */
module Idna {
  import opened Common
  import opened Punycode
  import opened Utf8

  const UV_EINVAL: int := -22
  const UV_E2BIG: int := -7

  /** The value of an unsigned count returned as a C int. */
  function AsInt(h: nat): int
  {
    if h < 0x8000_0000 then h else h - 0x1_0000_0000
  }

  const ACE_PREFIX: seq<Byte> := [120, 110, 45, 45]

  /**
    * The buffer from `first` on holds as much of `full` as fits before `end`; pos is the
    * write position and every other byte is as it was.
    */
  ghost predicate Holds(d: array<Byte>, first: nat, pos: nat, end: nat, full: seq<Byte>, orig: seq<Byte>)
    reads d
  {
    && first <= pos <= end <= d.Length == |orig|
    && pos - first == (if |full| <= end - first then |full| else end - first)
    && (forall k :: 0 <= k < d.Length ==> d[k] == if first <= k < pos then full[k - first] else orig[k])
  }

  method Put(d: array<Byte>, ghost first: nat, pos: nat, end: nat, b: Byte, ghost full: seq<Byte>,
             ghost orig: seq<Byte>) returns (next: nat)
    requires Holds(d, first, pos, end, full, orig)
    modifies d
    ensures Holds(d, first, next, end, full + [b], orig)
  {
    next := pos;
    if pos < end {
      d[pos] := b;
      next := pos + 1;
    }
  }

  /** uv__utf8_decode1 in the checking loop. */
  method DecodeNext(s: seq<Byte>, p: nat) returns (c: nat, q: nat)
    requires p < |s|
    ensures p < q <= |s|
    ensures c == UINT_MAX ==> DecodeFrom(s, p) == None
    ensures c != UINT_MAX ==>
              DecodeFrom(s, p) == if DecodeFrom(s, q).None? then None else Some([c] + DecodeFrom(s, q).value)
  {
    c, q := Decode1(s, p).0, Decode1(s, p).1;
  }

  /** uv__utf8_decode1 in the later loops, where no error is possible any more. */
  method DecodeAgain(s: seq<Byte>, p: nat, ghost cps: seq<nat>, ghost j: nat) returns (c: nat, q: nat)
    requires p < |s| && j <= |cps| && DecodeFrom(s, p) == Some(cps[j..])
    ensures p < q <= |s| && c != UINT_MAX
    ensures j < |cps| && c == cps[j] && DecodeFrom(s, q) == Some(cps[j + 1..])
  {
    c, q := DecodeNext(s, p);
    assert cps[j..][1..] == cps[j + 1..];
    assert ([c] + DecodeFrom(s, q).value)[1..] == DecodeFrom(s, q).value;
  }

  /** The first loop: check the label and count its ASCII and non-ASCII characters. */
  method CountCharacters(s: seq<Byte>) returns (ok: bool, h: nat, todo: nat)
    ensures ok == DecodeFrom(s, 0).Some?
    ensures ok ==> h == |Below(DecodeFrom(s, 0).value, 128)| && h + todo == |DecodeFrom(s, 0).value|
  {
    var p := 0;
    h, todo := 0, 0;
    ghost var all := DecodeFrom(s, 0);
    ghost var j := 0;
    while p < |s|
      invariant 0 <= p <= |s|
      invariant all.None? ==> DecodeFrom(s, p) == None
      invariant all.Some? ==> 0 <= j <= |all.value| && DecodeFrom(s, p) == Some(all.value[j..])
      invariant all.Some? ==> h == |Below(all.value[..j], 128)| && h + todo == j
      decreases |s| - p
    {
      var c, q := DecodeNext(s, p);
      if c == UINT_MAX { return false, h, todo; }
      if c < 128 { h := h + 1; } else { todo := todo + 1; }
      if all.Some? {
        assert c == all.value[j] && all.value[j..][1..] == all.value[j + 1..];
        BelowSplit(all.value, j, 128);
      }
      p := q;
      j := j + 1;
    }
    ok := true;
    assert all.Some? ==> all.value[..j] == all.value;
  }

  /** The ASCII characters of a label are written in order. */
  lemma BasicNext(cps: seq<nat>, j: nat)
    requires j < |cps|
    ensures cps[j] < 128 ==> BasicBytes(cps[..j + 1]) == BasicBytes(cps[..j]) + [cps[j]]
    ensures cps[j] >= 128 ==> BasicBytes(cps[..j + 1]) == BasicBytes(cps[..j])
  {
    BelowSplit(cps, j, 128);
  }

  lemma BasicComplete(cps: seq<nat>, j: nat)
    requires j <= |cps| && |BasicBytes(cps[..j])| == |BasicBytes(cps)|
    ensures BasicBytes(cps[..j]) == BasicBytes(cps)
  {
    BelowConcat(cps[..j], cps[j..], 128);
    assert cps[..j] + cps[j..] == cps;
  }

  /** One character of that loop. */
  method PutIfAscii(d: array<Byte>, ghost first: nat, pos: nat, end: nat, ghost cps: seq<nat>, ghost j: nat, c: nat,
                    ghost full: seq<Byte>, ghost orig: seq<Byte>) returns (next: nat)
    requires j < |cps| && c == cps[j]
    requires Holds(d, first, pos, end, full + BasicBytes(cps[..j]), orig)
    modifies d
    ensures Holds(d, first, next, end, full + BasicBytes(cps[..j + 1]), orig)
    ensures |BasicBytes(cps[..j + 1])| == |BasicBytes(cps[..j])| + if c > 127 then 0 else 1
  {
    next := pos;
    BasicNext(cps, j);
    if c > 127 { return; }
    ghost var basic := BasicBytes(cps[..j]);
    next := Put(d, first, pos, end, c, full + basic, orig);
    Regroup(full, basic, [c]);
  }

  /** The ASCII characters, in order; the loop stops once it has written h of them. */
  method WriteAscii(s: seq<Byte>, ghost cps: seq<nat>, h: nat, d: array<Byte>, ghost first: nat, pos: nat, end: nat,
                    ghost full: seq<Byte>, ghost orig: seq<Byte>) returns (next: nat)
    requires DecodeFrom(s, 0) == Some(cps) && h == |BasicBytes(cps)|
    requires Holds(d, first, pos, end, full, orig)
    modifies d
    ensures Holds(d, first, next, end, full + BasicBytes(cps), orig)
  {
    next := pos;
    var p, x := 0, 0;
    ghost var j := 0;
    assert cps[0..] == cps && full + BasicBytes(cps[..0]) == full;
    while p < |s|
      invariant 0 <= p <= |s| && 0 <= j <= |cps| && DecodeFrom(s, p) == Some(cps[j..])
      invariant x == |BasicBytes(cps[..j])|
      invariant Holds(d, first, next, end, full + BasicBytes(cps[..j]), orig)
      decreases |s| - p
    {
      var c, q := DecodeAgain(s, p, cps, j);
      next := PutIfAscii(d, first, next, end, cps, j, c, full, orig);
      p, j := q, j + 1;
      if c > 127 { continue; }
      x := x + 1;
      if x == h { break; }
    }
    assert p == |s| ==> cps[..j] == cps;
    BasicComplete(cps, j);
  }

  /** One turn of the digit loop; `last` is its break. */
  method NextDigit(q: nat, k: nat, bias: nat) returns (last: bool, digit: nat, rest: nat)
    ensures digit < 36
    ensures last ==> WriteInteger(q, k, bias) == [Alphabet(digit)]
    ensures !last ==> rest < q && WriteInteger(q, k, bias) == [Alphabet(digit)] + WriteInteger(rest, k + 36, bias)
  {
    var t := 1;
    if k > bias { t := k - bias; }
    if t > 26 { t := 26; }
    assert t == Threshold(k, bias);
    if q < t { return true, q, 0; }
    QuotientFalls(q, t);
    var x := q - t;
    var y := 36 - t;
    last, digit, rest := false, t + x % y, x / y;
  }

  /** The digit loop: delta as a generalized variable-length integer. */
  method WriteDelta(delta: nat, bias: nat, d: array<Byte>, ghost first: nat, pos: nat, end: nat,
                    ghost full: seq<Byte>, ghost orig: seq<Byte>) returns (next: nat)
    requires Holds(d, first, pos, end, full, orig)
    modifies d
    ensures Holds(d, first, next, end, full + WriteInteger(delta, 36, bias), orig)
  {
    next := pos;
    var k: nat, q: nat := 36, delta;
    ghost var done := full;
    var last := false;
    while !last
      invariant !last ==> done + WriteInteger(q, k, bias) == full + WriteInteger(delta, 36, bias)
      invariant last ==> done == full + WriteInteger(delta, 36, bias)
      invariant Holds(d, first, next, end, done, orig)
      decreases !last, q
    {
      var digit, rest;
      last, digit, rest := NextDigit(q, k, bias);
      next := Put(d, first, next, end, Alphabet(digit), done, orig);
      if !last {
        assert done + WriteInteger(q, k, bias) == done + [Alphabet(digit)] + WriteInteger(rest, k + 36, bias);
      }
      done := done + [Alphabet(digit)];
      q := rest;
      k := k + 36;
    }
  }

  lemma HalfOf350th(x: nat)
    ensures x / 2 / 350 == x / 700
  {
  }

  /**
    * Halving, then dividing by 350 the first time, is dividing by 2 or by 700; adding delta / h
    * to the half cannot overflow.
    */
  method Damp(delta0: nat, h: nat, first: bool) returns (delta: nat)
    requires h > 0 && delta0 <= UINT_MAX
    ensures delta <= UINT_MAX && AdaptLoop(delta, 0) == Adapt(delta0, h, first)
  {
    HalfOf350th(delta0);
    delta := delta0 / 2;
    if first { delta := delta / 350; }
    DivAtMost(delta, h);
    assert delta + delta / h <= delta0;
    delta := delta + delta / h;
  }

  method AdaptBias(delta0: nat, h: nat, first: bool) returns (bias: nat)
    requires h > 0 && delta0 <= UINT_MAX
    ensures bias == Adapt(delta0, h, first)
  {
    var delta := Damp(delta0, h, first);
    bias := 0;
    while delta > 35 * 26 / 2
      invariant AdaptLoop(delta, bias) == Adapt(delta0, h, first)
    {
      delta := delta / 35;
      bias := bias + 36;
    }
    bias := bias + 36 * delta / (delta + 38);
  }

  /** The least code point not below n; UINT_MAX stands for "none". */
  method FindLeast(s: seq<Byte>, ghost cps: seq<nat>, n: nat) returns (m: nat)
    requires DecodeFrom(s, 0) == Some(cps) && CountFrom(cps, n) > 0
    ensures m == LeastFrom(cps, n)
  {
    m := UINT_MAX;
    var p := 0;
    ghost var j := 0;
    assert cps[0..] == cps;
    while p < |s|
      invariant 0 <= p <= |s| && 0 <= j <= |cps| && DecodeFrom(s, p) == Some(cps[j..])
      invariant m == UINT_MAX || (n <= m && m in cps)
      invariant forall i :: 0 <= i < j && cps[i] >= n ==> m <= cps[i]
      decreases |s| - p
    {
      var c, q := DecodeAgain(s, p, cps, j);
      if c >= n {
        if c < m { m := c; }
      }
      p := q;
      j := j + 1;
    }
    ghost var least := LeastFrom(cps, n);
    ghost var i :| 0 <= i < |cps| && cps[i] == least;
  }

  /** The variables of the main loop, all 32 bits wide. */
  datatype Vars = Vars(n: nat, delta: nat, bias: nat, h: nat, first: bool)

  ghost function VarsOf(e: Encoder): Vars
  {
    Vars(e.n, e.delta, e.bias, e.h, e.first)
  }

  ghost function Output(e: Encoder): seq<Byte>
  {
    ACE_PREFIX + e.out
  }

  /** One occurrence of n: write delta, adapt the bias. */
  method WriteOne(v: Vars, d: array<Byte>, ghost start: nat, pos: nat, end: nat, ghost e: Encoder,
                  ghost orig: seq<Byte>)
    returns (w: Vars, next: nat)
    requires VarsOf(e) == v && v.delta <= UINT_MAX && Holds(d, start, pos, end, Output(e), orig)
    modifies d
    ensures VarsOf(Emit(e)) == w && Holds(d, start, next, end, Output(Emit(e)), orig)
  {
    next := WriteDelta(v.delta, v.bias, d, start, pos, end, Output(e), orig);
    Regroup(ACE_PREFIX, e.out, WriteInteger(v.delta, 36, v.bias));
    var bias := AdaptBias(v.delta, v.h + 1, v.first);
    w := v.(bias := bias, delta := 0, first := false, h := v.h + 1);
  }

  /** The body of the inner scan, for the character c. */
  method VisitCharacter(c: nat, v: Vars, todo0: nat, d: array<Byte>, ghost start: nat, pos: nat, end: nat,
                        ghost e: Encoder, ghost orig: seq<Byte>)
    returns (ok: bool, w: Vars, todo: nat, next: nat)
    requires VarsOf(e) == v && v.delta <= UINT_MAX && (c == v.n ==> todo0 > 0)
    requires Holds(d, start, pos, end, Output(e), orig)
    modifies d
    ensures ok == Visit(e, c).Some?
    ensures ok ==> VarsOf(Visit(e, c).value) == w && w.delta <= UINT_MAX && w.h + todo == v.h + todo0
    ensures Holds(d, start, next, end, Output(if ok then Visit(e, c).value else e), orig)
  {
    ok, w, todo, next := true, v, todo0, pos;
    if c < v.n {
      w := v.(delta := if v.delta == UINT_MAX then 0 else v.delta + 1);  // ++delta on 32 bits
      ok := w.delta != 0;
    } else if c == v.n {
      w, next := WriteOne(v, d, start, pos, end, e, orig);
      todo := todo0 - 1;
    }
  }

  predicate NotBefore(cps: seq<nat>, n: nat, j: nat)
    requires j <= |cps|
  {
    forall i :: 0 <= i < j ==> cps[i] != n
  }

  /** The inner scan has come to position j, in state e; an occurrence of n may have been seen. */
  ghost predicate Scanned(cps: seq<nat>, j: nat, e0: Encoder, e: Encoder, hit: bool)
  {
    && j <= |cps| && e.n == e0.n && Pass(cps, 0, e0) == Pass(cps, j, e)
    && (if hit then e.delta < j else NotBefore(cps, e.n, j))
    && e.h == |Done(cps, e.n, j)|
  }

  lemma ScanStep(cps: seq<nat>, j: nat, e0: Encoder, e: Encoder, hit: bool)
    requires Scanned(cps, j, e0, e, hit) && j < |cps|
    ensures Visit(e, cps[j]).None? ==> Pass(cps, 0, e0) == None
    ensures Visit(e, cps[j]).Some? ==> Scanned(cps, j + 1, e0, Visit(e, cps[j]).value, hit || cps[j] == e.n)
    ensures cps[j] == e.n ==> e.h < |cps|
  {
    DoneSteps(cps, e.n, j);
  }

  lemma ScanEnd(cps: seq<nat>, e0: Encoder, e: Encoder, hit: bool)
    requires Scanned(cps, |cps|, e0, e, hit) && e.n in cps
    ensures Pass(cps, 0, e0) == Some(e) && e.delta < |cps| && e.h == |Below(cps, e.n + 1)|
  {
    assert cps[..|cps|] == cps && cps[|cps|..] == [];
  }

  /** The inner scan of the main loop, for the code point n. */
  method ScanFor(s: seq<Byte>, ghost cps: seq<nat>, v0: Vars, todo0: nat, d: array<Byte>, ghost start: nat, pos: nat,
                 end: nat, ghost e0: Encoder, ghost orig: seq<Byte>)
    returns (ok: bool, v: Vars, todo: nat, next: nat, ghost e: Encoder)
    requires DecodeFrom(s, 0) == Some(cps) && v0.n in cps && VarsOf(e0) == v0 && v0.delta <= UINT_MAX
    requires v0.h == |Done(cps, v0.n, 0)| && v0.h + todo0 == |cps| && Holds(d, start, pos, end, Output(e0), orig)
    modifies d
    ensures ok == Pass(cps, 0, e0).Some? && Holds(d, start, next, end, Output(e), orig)
    ensures ok ==> Pass(cps, 0, e0) == Some(e) && VarsOf(e) == v && v.n == v0.n && v.delta < |cps|
    ensures ok ==> v.h == |Below(cps, v.n + 1)| && v.h + todo == |cps|
  {
    ok, v, todo, next, e := true, v0, todo0, pos, e0;
    var p := 0;
    ghost var j, hit := 0, false;
    assert cps[0..] == cps;
    while p < |s|
      invariant p <= |s| && j <= |cps| && DecodeFrom(s, p) == Some(cps[j..])
      invariant VarsOf(e) == v && v.delta <= UINT_MAX && v.h + todo == |cps| && Scanned(cps, j, e0, e, hit)
      invariant Holds(d, start, next, end, Output(e), orig)
      decreases |s| - p
    {
      var c, q := DecodeAgain(s, p, cps, j);
      ScanStep(cps, j, e0, e, hit);
      ok, v, todo, next := VisitCharacter(c, v, todo, d, start, next, end, e, orig);
      if !ok { return; }
      e, j, hit := Visit(e, c).value, j + 1, hit || c == e.n;
      p := q;
    }
    assert j == |cps|;
    ScanEnd(cps, e0, e, hit);
  }

  /** Passing position j adds one character to what is done exactly if it is n. */
  lemma DoneSteps(cps: seq<nat>, n: nat, j: nat)
    requires j < |cps|
    ensures |Done(cps, n, j + 1)| == |Done(cps, n, j)| + if cps[j] == n then 1 else 0
    ensures cps[j] == n ==> |Done(cps, n, j)| < |cps|
  {
    BelowSplit(cps, j, n);
    BelowSplit(cps, j, n + 1);
  }

  lemma {:induction false} CountComplement(cps: seq<nat>, n: nat)
    ensures CountFrom(cps, n) + |Below(cps, n)| == |cps|
  {
    if cps != [] { CountComplement(cps[..|cps| - 1], n); }
  }

  /** A pass for the least code point m left starts with everything below n done. */
  lemma NothingBetween(cps: seq<nat>, n: nat, m: nat)
    requires n <= m && forall c :: c in cps && c >= n ==> m <= c
    ensures |Done(cps, m, 0)| == |Below(cps, n)|
  {
    assert cps[..0] == [] && cps[0..] == cps;
    assert forall i :: 0 <= i < |cps| ==> cps[i] in cps;
    BelowSame(cps, n, m);
  }

  /** The guard before the multiplication refuses exactly the sums that 32 bits cannot hold. */
  lemma NoOverflow(delta: nat, x: nat, y: nat)
    requires y > 0 && delta <= UINT_MAX
    ensures !Overflows(delta, x, y) <==> delta + Times(x, y) <= UINT_MAX
  {
    var room := UINT_MAX - delta;
    DivMod(room, y);
    if x <= room / y {
      MulMonotone(x, room / y, y);
    } else {
      MulMonotone(room / y + 1, x, y);
      MulSuccessor(room / y, y);
    }
  }

  /** The first half of a turn: find the next code point and charge delta for skipping to it. */
  method MoveToLeast(s: seq<Byte>, ghost cps: seq<nat>, v: Vars, ghost e: Encoder) returns (ok: bool, w: Vars)
    requires DecodeFrom(s, 0) == Some(cps) && CountFrom(cps, v.n) > 0 && VarsOf(e) == v && v.delta <= UINT_MAX
    ensures ok == !Overflows(e.delta, LeastFrom(cps, e.n) - e.n, e.h + 1)
    ensures ok ==> w == VarsOf(Charged(e, LeastFrom(cps, e.n))) && w.delta <= UINT_MAX
  {
    var m := FindLeast(s, cps, v.n);
    var x, y := m - v.n, v.h + 1;
    assert v.delta == e.delta && x == m - e.n && y == e.h + 1;
    w := v;
    ok := !Overflows(v.delta, x, y);
    if ok {
      NoOverflow(v.delta, x, y);
      w := v.(delta := v.delta + Times(x, y), n := m);
      ChargedVars(e, m, v, w);
    }
  }

  lemma ChargedVars(e: Encoder, m: nat, v: Vars, w: Vars)
    requires VarsOf(e) == v && e.n <= m && w == v.(delta := v.delta + Times(m - v.n, v.h + 1), n := m)
    ensures w == VarsOf(Charged(e, m))
  {
  }

  /** What a turn of the main loop starts from. */
  ghost predicate AtTurn(cps: seq<nat>, e: Encoder, v: Vars, todo: nat)
  {
    VarsOf(e) == v && v.delta <= UINT_MAX && v.h == |Below(cps, v.n)| && todo == CountFrom(cps, v.n)
  }

  /** The counts when the pass for the least code point left begins, and after it. */
  lemma TurnCounts(cps: seq<nat>, n: nat, m: nat)
    requires CountFrom(cps, n) > 0 && m == LeastFrom(cps, n)
    ensures |Done(cps, m, 0)| == |Below(cps, n)| && |Below(cps, n)| + CountFrom(cps, n) == |cps|
    ensures CountFrom(cps, m + 1) < CountFrom(cps, n) && |Below(cps, m + 1)| + CountFrom(cps, m + 1) == |cps|
  {
    CountComplement(cps, n);
    NothingBetween(cps, n, m);
    CountFalls(cps, n, m + 1);
    CountComplement(cps, m + 1);
  }

  /** The second half: the scan, and the increments after it. */
  method PassFor(s: seq<Byte>, ghost cps: seq<nat>, v0: Vars, todo0: nat, d: array<Byte>, ghost start: nat, pos: nat,
                 end: nat, ghost e0: Encoder, ghost orig: seq<Byte>)
    returns (ok: bool, v: Vars, todo: nat, next: nat, ghost e: Encoder)
    requires DecodeFrom(s, 0) == Some(cps) && |cps| <= UINT_MAX && v0.n in cps
    requires VarsOf(e0) == v0 && v0.delta <= UINT_MAX
    requires v0.h == |Done(cps, v0.n, 0)| && v0.h + todo0 == |cps| && Holds(d, start, pos, end, Output(e0), orig)
    modifies d
    ensures ok == Pass(cps, 0, e0).Some? && Holds(d, start, next, end, Output(e), orig)
    ensures ok ==> e == EndPass(Pass(cps, 0, e0).value) && VarsOf(e) == v && v.n == v0.n + 1 && v.delta <= UINT_MAX
    ensures ok ==> v.h == |Below(cps, v.n)| && v.h + todo == |cps|
  {
    ok, v, todo, next, e := ScanFor(s, cps, v0, todo0, d, start, pos, end, e0, orig);
    if ok {
      v := v.(delta := v.delta + 1, n := v.n + 1);
      e := EndPass(e);
    }
  }

  lemma RoundIs(cps: seq<nat>, e: Encoder, m: nat)
    requires CountFrom(cps, e.n) > 0 && m == LeastFrom(cps, e.n)
    ensures Overflows(e.delta, m - e.n, e.h + 1) || Pass(cps, 0, Charged(e, m)).None? ==> Round(cps, e) == None
    ensures !Overflows(e.delta, m - e.n, e.h + 1) && Pass(cps, 0, Charged(e, m)).Some?
        ==> Round(cps, e) == Some(EndPass(Pass(cps, 0, Charged(e, m)).value))
  {
  }

  /** One turn of the main loop. */
  method NextCodePoint(s: seq<Byte>, ghost cps: seq<nat>, v0: Vars, todo0: nat, d: array<Byte>, ghost start: nat,
                       pos: nat, end: nat, ghost e0: Encoder, ghost orig: seq<Byte>)
    returns (ok: bool, v: Vars, todo: nat, next: nat, ghost e: Encoder)
    requires DecodeFrom(s, 0) == Some(cps) && |cps| <= UINT_MAX && AtTurn(cps, e0, v0, todo0) && todo0 > 0
    requires Holds(d, start, pos, end, Output(e0), orig)
    modifies d
    ensures ok == Round(cps, e0).Some? && Holds(d, start, next, end, Output(e), orig)
    ensures ok ==> Round(cps, e0) == Some(e) && AtTurn(cps, e, v, todo) && todo < todo0
  {
    ghost var m := LeastFrom(cps, v0.n);
    RoundIs(cps, e0, m);
    ok, v := MoveToLeast(s, cps, v0, e0);
    if ok {
      TurnCounts(cps, v0.n, m);
      ok, v, todo, next, e := PassFor(s, cps, v, todo0, d, start, pos, end, Charged(e0, m), orig);
      assert ok ==> v.n == m + 1 && todo == CountFrom(cps, m + 1);
    } else {
      todo, next, e := todo0, pos, e0;
    }
  }

  /** The main loop of the encoder, from after the ASCII part to the end of the label. */
  method WriteDeltas(s: seq<Byte>, ghost cps: seq<nat>, h0: nat, todo0: nat,
                     d: array<Byte>, ghost start: nat, pos: nat, end: nat, ghost orig: seq<Byte>)
    returns (rc: int, next: nat, ghost full: seq<Byte>)
    requires DecodeFrom(s, 0) == Some(cps) && |cps| <= UINT_MAX
    requires h0 == |Below(cps, 128)| && h0 + todo0 == |cps|
    requires Holds(d, start, pos, end, Output(FirstEncoder(cps)), orig)
    modifies d
    ensures Holds(d, start, next, end, full, orig)
    ensures rc == if Encode(cps).None? then UV_E2BIG else 0
    ensures Encode(cps).Some? ==> full == ACE_PREFIX + Encode(cps).value
  {
    var v := Vars(128, 0, 72, h0, true);
    var todo := todo0;
    next := pos;
    ghost var e := FirstEncoder(cps);
    CountComplement(cps, 128);
    while todo > 0
      invariant AtTurn(cps, e, v, todo) && Passes(cps, e) == Encode(cps)
      invariant Holds(d, start, next, end, Output(e), orig)
      decreases todo
    {
      var ok;
      ok, v, todo, next, e := NextCodePoint(s, cps, v, todo, d, start, next, end, e, orig);
      if !ok { return UV_E2BIG, next, Output(e); }
    }
    full := Output(e);
    rc := 0;
  }

  /** What a label becomes: itself when it is ASCII, otherwise "xn--" and its Punycode. */
  function LabelToAscii(cps: seq<nat>): Option<seq<Byte>>
  {
    if CountFrom(cps, 128) == 0 then Some(BasicBytes(cps))
    else if Encode(cps).None? then None
    else Some(ACE_PREFIX + Encode(cps).value)
  }

  /** "xn--", as far as it fits. */
  method WritePrefix(d: array<Byte>, pos: nat, end: nat, ghost orig: seq<Byte>) returns (next: nat)
    requires Holds(d, pos, pos, end, [], orig)
    modifies d
    ensures Holds(d, pos, next, end, ACE_PREFIX, orig)
  {
    next := Put(d, pos, pos, end, 120, [], orig);
    next := Put(d, pos, next, end, 110, [120], orig);
    next := Put(d, pos, next, end, 45, [120, 110], orig);
    next := Put(d, pos, next, end, 45, [120, 110, 45], orig);
  }

  lemma {:induction false} AsciiDecodes(s: seq<Byte>, p: nat)
    requires p <= |s| && forall i :: 0 <= i < |s| ==> s[i] < 128
    ensures DecodeFrom(s, p).Some? && DecodeFrom(s, p).value == s[p..]
    decreases |s| - p
  {
    if p < |s| {
      AsciiDecodes(s, p + 1);
      assert s[p..] == [s[p]] + s[p + 1..];
    }
  }

  /** A label without code points beyond ASCII stays as it is. */
  lemma AsciiLabelStays(cps: seq<nat>)
    ensures CountFrom(cps, 128) == 0 <==> forall i :: 0 <= i < |cps| ==> cps[i] < 128
    ensures CountFrom(cps, 128) == 0 ==> LabelToAscii(cps).Some? && LabelToAscii(cps).value == cps
  {
    if CountFrom(cps, 128) == 0 {
      CountZero(cps, 128);
      assert forall i :: 0 <= i < |cps| ==> cps[i] in cps;
      BelowAll(cps, 128);
    }
    if forall i :: 0 <= i < |cps| ==> cps[i] < 128 {
      BelowAll(cps, 128);
      CountComplement(cps, 128);
    }
  }

  /** What the answer to a label of ASCII characters comes to. */
  lemma AsciiAnswer(s: seq<Byte>)
    requires forall i :: 0 <= i < |s| ==> s[i] < 128
    ensures DecodeFrom(s, 0).Some? && DecodeFrom(s, 0).value == s && CountFrom(DecodeFrom(s, 0).value, 128) == 0
    ensures LabelToAscii(DecodeFrom(s, 0).value).Some? && LabelToAscii(DecodeFrom(s, 0).value).value == s
  {
    AsciiDecodes(s, 0);
    AsciiLabelStays(DecodeFrom(s, 0).value);
  }

  /** The label written, once its characters have been counted. */
  method WriteLabel(s: seq<Byte>, ghost cps: seq<nat>, h: nat, todo: nat, d: array<Byte>, pos: nat, end: nat)
    returns (rc: int, next: nat, ghost full: seq<Byte>)
    requires DecodeFrom(s, 0) == Some(cps) && |cps| <= UINT_MAX && pos <= end <= d.Length
    requires h == |Below(cps, 128)| && h + todo == |cps|
    modifies d
    ensures Holds(d, pos, next, end, full, old(d[..]))
    ensures match LabelToAscii(cps)
            case None => rc == UV_E2BIG
            case Some(out) => full == out && rc == if CountFrom(cps, 128) == 0 then AsInt(|cps|) else 0
  {
    ghost var orig := d[..];
    full, next := [], pos;
    CountComplement(cps, 128);
    if todo > 0 {
      next := WritePrefix(d, pos, end, orig);
      full := ACE_PREFIX;
    }
    next := WriteAscii(s, cps, h, d, pos, next, end, full, orig);
    full := full + BasicBytes(cps);
    if todo == 0 { return AsInt(h), next, full; }
    if h > 0 {
      next := Put(d, pos, next, end, DELIMITER, full, orig);
      full := full + [DELIMITER];
    }
    assert full == Output(FirstEncoder(cps));
    rc, next, full := WriteDeltas(s, cps, h, todo, d, pos, next, end, orig);
  }

  /**
    * uv__idna_toascii_label.  The counters h and todo are 32-bit, hence the bound on the
    * label's length.  When the buffer is too short the output is cut off, not refused.
    */
  method ToAsciiLabel(s: seq<Byte>, d: array<Byte>, pos: nat, end: nat)
    returns (rc: int, next: nat, ghost full: seq<Byte>)
    requires |s| <= UINT_MAX && pos <= end <= d.Length
    modifies d
    ensures Holds(d, pos, next, end, full, old(d[..]))
    ensures DecodeFrom(s, 0).None? ==> rc == UV_EINVAL && full == []
    ensures DecodeFrom(s, 0).Some? ==>
              var cps := DecodeFrom(s, 0).value;
              match LabelToAscii(cps)
              case None => rc == UV_E2BIG
              case Some(out) => full == out && rc == if CountFrom(cps, 128) == 0 then AsInt(|cps|) else 0
    ensures (forall i :: 0 <= i < |s| ==> s[i] < 128) ==>
              full == s && rc == AsInt(|s|) && (|s| < 0x8000_0000 ==> rc == |s|)
  {
    full, next := [], pos;
    var ok, h, todo := CountCharacters(s);
    if forall i :: 0 <= i < |s| ==> s[i] < 128 { AsciiAnswer(s); }
    if !ok { return UV_EINVAL, next, full; }
    rc, next, full := WriteLabel(s, DecodeFrom(s, 0).value, h, todo, d, pos, end);
  }

  /**
    * End to end: a label of Unicode scalar values with at least one beyond ASCII, given in
    * UTF-8, becomes "xn--" and a string from which RFC 3492 recovers exactly the label.
    */
  lemma LabelRoundTrip(cps: seq<nat>)
    requires forall i :: 0 <= i < |cps| ==> IsScalar(cps[i])
    requires CountFrom(cps, 128) > 0 && LabelToAscii(cps).Some?
    ensures DecodeFrom(EncodeText(cps), 0) == Some(cps)
    ensures var out := LabelToAscii(cps).value; [120, 110, 45, 45] <= out && Decode(out[4..]) == Some(cps)
  {
    DecodeText([], cps);
    assert [] + EncodeText(cps) == EncodeText(cps);
    RoundTrip(cps);
    assert (ACE_PREFIX + Encode(cps).value)[4..] == Encode(cps).value;
  }

  // ---------- labels that cannot overflow ----------

  /** Up to this length no 32-bit delta can overflow, whatever the code points. */
  const SAFE_LENGTH := 3855

  predicate IsSafe(cps: seq<nat>)
  {
    |cps| <= SAFE_LENGTH && forall i :: 0 <= i < |cps| ==> cps[i] <= 0x10FFFF
  }

  /** A scan adds at most one per character, and starts again from zero at an occurrence. */
  lemma {:induction false} PassSucceeds(cps: seq<nat>, j: nat, e: Encoder)
    requires j <= |cps| && e.h == |Done(cps, e.n, j)| && e.delta + (|cps| - j) <= UINT_MAX
    ensures Pass(cps, j, e).Some? && Pass(cps, j, e).value.h == |Done(cps, e.n, |cps|)|
    ensures Pass(cps, j, e).value.delta <= e.delta + (|cps| - j)
    ensures e.n in cps[j..] ==> Pass(cps, j, e).value.delta < |cps| - j
    decreases |cps| - j
  {
    if j < |cps| {
      DoneSteps(cps, e.n, j);
      PassSucceeds(cps, j + 1, Visit(e, cps[j]).value);
      assert cps[j..] == [cps[j]] + cps[j + 1..];
    }
  }

  /** Skipping to the next code point cannot overflow either. */
  lemma SkipSucceeds(cps: seq<nat>, delta: nat, x: nat, y: nat)
    requires IsSafe(cps) && delta <= |cps| && x <= 0x10FFFF && 0 < y <= |cps|
    ensures !Overflows(delta, x, y) && delta + Times(x, y) + |cps| <= UINT_MAX
  {
    MulMonotone(x, 0x10FFFF, y);
    NoOverflow(delta, x, y);
  }

  lemma TurnSucceeds(cps: seq<nat>, m: nat, e: Encoder)
    requires e.n == m && m in cps && e.h == |Done(cps, m, 0)| && e.delta + |cps| <= UINT_MAX
    ensures Pass(cps, 0, e).Some? && Pass(cps, 0, e).value.h == |Below(cps, m + 1)|
    ensures Pass(cps, 0, e).value.delta < |cps| && Pass(cps, 0, e).value.n == m
  {
    assert cps[0..] == cps;
    PassSucceeds(cps, 0, e);
    assert cps[..|cps|] == cps && cps[|cps|..] == [];
  }

  lemma {:induction false} RoundSucceeds(cps: seq<nat>, e: Encoder)
    requires IsSafe(cps) && CountFrom(cps, e.n) > 0 && e.h == |Below(cps, e.n)| && e.delta <= |cps|
    ensures Round(cps, e).Some?
    ensures Round(cps, e).value.h == |Below(cps, Round(cps, e).value.n)| && Round(cps, e).value.delta <= |cps|
  {
    var m := LeastFrom(cps, e.n);
    RoundIs(cps, e, m);
    TurnCounts(cps, e.n, m);
    SkipSucceeds(cps, e.delta, m - e.n, e.h + 1);
    TurnSucceeds(cps, m, Charged(e, m));
  }

  lemma {:induction false} PassesSucceed(cps: seq<nat>, e: Encoder)
    requires IsSafe(cps) && e.h == |Below(cps, e.n)| && e.delta <= |cps|
    ensures Passes(cps, e).Some?
    decreases CountFrom(cps, e.n)
  {
    if CountFrom(cps, e.n) > 0 {
      RoundSucceeds(cps, e);
      PassesSucceed(cps, Round(cps, e).value);
    }
  }

  /** A label of up to 3855 code points is always encoded, and comes back. */
  lemma SafeLabelRoundTrip(cps: seq<nat>)
    requires |cps| <= SAFE_LENGTH && forall i :: 0 <= i < |cps| ==> IsScalar(cps[i])
    ensures LabelToAscii(cps).Some? && DecodeFrom(EncodeText(cps), 0) == Some(cps)
    ensures CountFrom(cps, 128) > 0
        ==> [120, 110, 45, 45] <= LabelToAscii(cps).value && Decode(LabelToAscii(cps).value[4..]) == Some(cps)
  {
    PassesSucceed(cps, FirstEncoder(cps));
    DecodeText([], cps);
    assert [] + EncodeText(cps) == EncodeText(cps);
    if CountFrom(cps, 128) > 0 { LabelRoundTrip(cps); }
  }
}
