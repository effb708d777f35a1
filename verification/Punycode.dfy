/**
  * Punycode, RFC 3492: the bias adaptation of section 6.1, the decoder of section 6.2
  * (the reference the encoder is judged by) and the encoder of section 6.3 in the form
  * libuv's idna.c gives it, with 32-bit overflow checks.  The main result is RoundTrip:
  * whatever the encoder emits, the section 6.2 decoder turns back into the label.
  */
module Punycode {
  import opened Common

  // ---------- section 5: parameter values ----------

  const INITIAL_N: nat := 128
  const INITIAL_BIAS: nat := 72
  const DELIMITER: Byte := 45
  const UINT_MAX: nat := 0xFFFF_FFFF

  // ---------- section 6.1: bias adaptation ----------

  lemma DivAtMost(x: nat, h: nat)
    requires h > 0
    ensures 0 <= x / h <= x
  {
    DivMod(x, h);
    MulMonotone(1, h, x / h);
  }

  function AdaptLoop(delta: nat, k: nat): nat
  {
    if delta > 455 then AdaptLoop(delta / 35, k + 36)
    else
      DivAtMost(36 * delta, delta + 38);
      k + 36 * delta / (delta + 38)
  }

  function Adapt(delta: nat, numPoints: nat, firstTime: bool): nat
    requires numPoints > 0
  {
    var d := if firstTime then delta / 700 else delta / 2;
    DivAtMost(d, numPoints);
    AdaptLoop(d + d / numPoints, 0)
  }

  /** The threshold t of one digit position: k - bias clamped into 1..26. */
  function Threshold(k: nat, bias: nat): (t: nat)
    ensures 1 <= t <= 26
  {
    if k <= bias then 1 else if k >= bias + 26 then 26 else k - bias
  }

  const BASE := 36
  const TMIN := 1
  const TMAX := 26
  const SKEW := 38
  const DAMP := 700

  lemma ThresholdIs(k: nat, bias: nat)
    ensures k - bias < TMIN ==> Threshold(k, bias) == TMIN
    ensures TMIN <= k - bias <= TMAX ==> Threshold(k, bias) == k - bias
    ensures TMAX < k - bias ==> Threshold(k, bias) == TMAX
  {
  }

  /** x divided k times by BASE - TMIN. */
  function Scaled(x: nat, k: nat): nat
  {
    if k == 0 then x else Scaled(x / (BASE - TMIN), k - 1)
  }

  /** The loop divides as often as it must to get down to half of (BASE - TMIN) * TMAX. */
  lemma {:induction false} AdaptLoopIs(x: nat, bias: nat) returns (k: nat)
    ensures Scaled(x, k) <= (BASE - TMIN) * TMAX / 2
    ensures forall j :: 0 <= j < k ==> Scaled(x, j) > (BASE - TMIN) * TMAX / 2
    ensures AdaptLoop(x, bias) == bias + BASE * k + (BASE - TMIN + 1) * Scaled(x, k) / (Scaled(x, k) + SKEW)
    decreases x
  {
    if x > 455 {
      var k' := AdaptLoopIs(x / 35, bias + 36);
      k := k' + 1;
      forall j | 0 <= j < k ensures Scaled(x, j) > (BASE - TMIN) * TMAX / 2 {
        if j > 0 { assert Scaled(x / 35, j - 1) > 455; }
      }
    } else {
      k := 0;
    }
  }

  /** The adaptation in the parameters of section 5. */
  lemma AdaptIs(delta: nat, numPoints: nat, firstTime: bool) returns (x: nat, k: nat)
    requires numPoints > 0
    ensures var d := delta / (if firstTime then DAMP else 2); x == d + d / numPoints
    ensures Scaled(x, k) <= (BASE - TMIN) * TMAX / 2
    ensures forall j :: 0 <= j < k ==> Scaled(x, j) > (BASE - TMIN) * TMAX / 2
    ensures Adapt(delta, numPoints, firstTime)
         == BASE * k + (BASE - TMIN + 1) * Scaled(x, k) / (Scaled(x, k) + SKEW)
  {
    var d := if firstTime then delta / 700 else delta / 2;
    DivAtMost(d, numPoints);
    x := d + d / numPoints;
    k := AdaptLoopIs(x, 0);
  }

  // ---------- section 5: digits ----------

  function DigitValue(b: Byte): Option<nat>
  {
    if 97 <= b <= 122 then Some(b - 97)
    else if 65 <= b <= 90 then Some(b - 65)
    else if 48 <= b <= 57 then Some(b - 48 + 26)
    else None
  }

  /** A decimal digit or a lower-case letter. */
  predicate IsLowerDigit(b: Byte)
  {
    48 <= b <= 57 || 97 <= b <= 122
  }

  /** The encoder's table "abcdefghijklmnopqrstuvwxyz0123456789". */
  function Alphabet(d: nat): (b: Byte)
    requires d < 36
    ensures DigitValue(b) == Some(d) && IsLowerDigit(b)
  {
    if d < 26 then 97 + d else 48 + d - 26
  }

  // ---------- section 6.2: the decoder ----------

  /** Reads one generalized variable-length integer, adding it to i with weight w. */
  function ReadInteger(input: seq<Byte>, k: nat, w: nat, i: nat, bias: nat): (r: Option<(nat, seq<Byte>)>)
    ensures r.Some? ==> |r.value.1| < |input|
  {
    if input == [] || DigitValue(input[0]).None? then None
    else
      var digit := DigitValue(input[0]).value;
      var t := Threshold(k, bias);
      var i' := i + Times(digit, w);
      if digit < t then Some((i', input[1..]))
      else ReadInteger(input[1..], k + 36, Times(w, 36 - t), i', bias)
  }

  datatype Decoder = Decoder(n: nat, i: nat, bias: nat, output: seq<nat>)

  /** What the decoder does once it has read an integer that moved i to newI. */
  function Insert(d: Decoder, newI: nat): Option<Decoder>
    requires d.i <= newI
  {
    var len := |d.output| + 1;
    var n := d.n + newI / len;
    var pos := newI % len;
    if n < 128 then None
    else Some(Decoder(n, pos + 1, Adapt(newI - d.i, len, d.i == 0),
                      d.output[..pos] + [n] + d.output[pos..]))
  }

  lemma ReadIntegerGrows(input: seq<Byte>, k: nat, w: nat, i: nat, bias: nat)
    ensures var r := ReadInteger(input, k, w, i, bias); r.Some? ==> i <= r.value.0
  {
  }

  /** One turn of the main loop: read an integer, insert a code point. */
  function DecodeOne(input: seq<Byte>, d: Decoder): (r: Option<(Decoder, seq<Byte>)>)
    ensures r.Some? ==> |r.value.1| < |input|
  {
    ReadIntegerGrows(input, 36, 1, d.i, d.bias);
    var r := ReadInteger(input, 36, 1, d.i, d.bias);
    if r.None? then None
    else
      var d' := Insert(d, r.value.0);
      if d'.None? then None else Some((d'.value, r.value.1))
  }

  function DecodeInsertions(input: seq<Byte>, d: Decoder): Option<Decoder>
    decreases |input|
  {
    if input == [] then Some(d)
    else
      var r := DecodeOne(input, d);
      if r.None? then None else DecodeInsertions(r.value.1, r.value.0)
  }

  /** The position of the last delimiter, or |input| when there is none. */
  function LastDelimiter(input: seq<Byte>): (p: nat)
    ensures p <= |input|
    ensures p < |input| ==> input[p] == DELIMITER
    ensures forall k :: 0 <= k < |input| && (p == |input| || p < k) ==> input[k] != DELIMITER
  {
    if input == [] then 0
    else
      var last := |input| - 1;
      if input[last] == DELIMITER then last
      else
        var p := LastDelimiter(input[..last]);
        if p == last then last + 1 else p
  }

  function Decode(input: seq<Byte>): Option<seq<nat>>
  {
    var p := LastDelimiter(input);
    var basic := if p < |input| then input[..p] else [];
    var rest := if 0 < p < |input| then input[p + 1..] else input;
    if exists k :: 0 <= k < |basic| && basic[k] >= 128 then None
    else
      var r := DecodeInsertions(rest, Decoder(INITIAL_N, 0, INITIAL_BIAS, basic));
      if r.None? then None else Some(r.value.output)
  }

  // ---------- section 6.3: the encoder ----------

  function WriteInteger(q: nat, k: nat, bias: nat): (out: seq<Byte>)
    ensures out != [] && forall i :: 0 <= i < |out| ==> IsLowerDigit(out[i])
    decreases q
  {
    var t := Threshold(k, bias);
    if q < t then [Alphabet(q)]
    else
      QuotientFalls(q, t);
      [Alphabet(t + (q - t) % (36 - t))] + WriteInteger((q - t) / (36 - t), k + 36, bias)
  }

  lemma QuotientFalls(q: nat, t: nat)
    requires 1 <= t <= 26 && t <= q
    ensures 0 <= (q - t) / (36 - t) <= q / 10 && (q - t) / (36 - t) < q
    ensures t <= t + (q - t) % (36 - t) < 36
  {
    DivShrinks(q - t, 36 - t);
  }

  lemma DivShrinks(x: nat, y: nat)
    requires y >= 10
    ensures x / y <= x / 10
  {
    DivMod(x, y);
    MulMonotone(10, y, x / y);
  }

  datatype Encoder = Encoder(n: nat, delta: nat, bias: nat, h: nat, first: bool, out: seq<Byte>)

  /** Writes delta and adapts the bias: what happens at an occurrence of the code point n. */
  function Emit(e: Encoder): Encoder
  {
    e.(out := e.out + WriteInteger(e.delta, 36, e.bias),
       bias := Adapt(e.delta, e.h + 1, e.first),
       first := false, h := e.h + 1, delta := 0)
  }

  /** One character c of the label during the pass for e.n; None is the overflow of delta. */
  function Visit(e: Encoder, c: nat): (r: Option<Encoder>)
    ensures r.Some? ==> r.value.n == e.n
  {
    if c < e.n then if e.delta == UINT_MAX then None else Some(e.(delta := e.delta + 1))
    else if c == e.n then Some(Emit(e))
    else Some(e)
  }

  /** One left-to-right pass over the label, from position j, for the code point e.n. */
  function Pass(cps: seq<nat>, j: nat, e: Encoder): (r: Option<Encoder>)
    requires j <= |cps|
    ensures r.Some? ==> r.value.n == e.n
    decreases |cps| - j
  {
    if j == |cps| then Some(e)
    else
      var e' := Visit(e, cps[j]);
      if e'.None? then None else Pass(cps, j + 1, e'.value)
  }

  /** How many code points of the label are at least n, that is, still to be encoded. */
  function CountFrom(cps: seq<nat>, n: nat): nat
  {
    if cps == [] then 0
    else CountFrom(cps[..|cps| - 1], n) + if cps[|cps| - 1] >= n then 1 else 0
  }

  /** The least code point of the label that is at least n. */
  function LeastFrom(cps: seq<nat>, n: nat): (m: nat)
    requires CountFrom(cps, n) > 0
    ensures m >= n && m in cps
    ensures forall c :: c in cps && c >= n ==> m <= c
  {
    var last := cps[|cps| - 1];
    var front := cps[..|cps| - 1];
    assert forall c :: c in cps <==> c in front || c == last;
    if CountFrom(front, n) == 0 then CountZero(front, n); last
    else
      var m := LeastFrom(front, n);
      if n <= last < m then last else m
  }

  lemma {:induction false} CountZero(cps: seq<nat>, n: nat)
    ensures CountFrom(cps, n) == 0 <==> forall c :: c in cps ==> c < n
  {
    if cps != [] {
      var last := cps[|cps| - 1];
      var front := cps[..|cps| - 1];
      assert forall c :: c in cps <==> c in front || c == last;
      assert last in cps;
      CountZero(front, n);
    }
  }

  lemma {:induction false} CountFalls(cps: seq<nat>, n: nat, n': nat)
    requires n <= n'
    ensures CountFrom(cps, n') <= CountFrom(cps, n)
    ensures (exists c :: c in cps && n <= c < n') ==> CountFrom(cps, n') < CountFrom(cps, n)
  {
    if cps != [] {
      var last := cps[|cps| - 1];
      var front := cps[..|cps| - 1];
      assert forall c :: c in cps <==> c in front || c == last;
      CountFalls(front, n, n');
    }
  }

  /** delta + x * y would not fit 32 bits. */
  predicate Overflows(delta: nat, x: nat, y: nat)
    requires y > 0
  {
    delta > UINT_MAX || x > (UINT_MAX - delta) / y
  }

  /** The encoder moved on to the code point m, with delta charged for the skip. */
  function Charged(e: Encoder, m: nat): Encoder
    requires e.n <= m
  {
    e.(delta := e.delta + Times(m - e.n, e.h + 1), n := m)
  }

  function EndPass(e: Encoder): Encoder
  {
    e.(delta := e.delta + 1, n := e.n + 1)
  }

  /** One round: move on to the least code point left, and make the pass for it. */
  function Round(cps: seq<nat>, e: Encoder): (r: Option<Encoder>)
    requires CountFrom(cps, e.n) > 0
    ensures r.Some? ==> CountFrom(cps, r.value.n) < CountFrom(cps, e.n)
  {
    var m := LeastFrom(cps, e.n);
    if Overflows(e.delta, m - e.n, e.h + 1) then None
    else
      var r := Pass(cps, 0, Charged(e, m));
      if r.None? then None
      else
        CountFalls(cps, e.n, m + 1);
        Some(EndPass(r.value))
  }

  /** All rounds; None is the UV_E2BIG overflow. */
  function Passes(cps: seq<nat>, e: Encoder): Option<seq<Byte>>
    decreases CountFrom(cps, e.n)
  {
    if CountFrom(cps, e.n) == 0 then Some(e.out)
    else
      var e' := Round(cps, e);
      if e'.None? then None else Passes(cps, e'.value)
  }

  /** The code points of the label that are below n, in label order. */
  function Below(cps: seq<nat>, n: nat): (r: seq<nat>)
    ensures forall c :: c in r ==> c < n
    ensures |r| <= |cps|
  {
    if cps == [] then []
    else Below(cps[..|cps| - 1], n) + if cps[|cps| - 1] < n then [cps[|cps| - 1]] else []
  }

  function BasicBytes(cps: seq<nat>): seq<Byte>
  {
    var b := Below(cps, 128);
    assert forall i :: 0 <= i < |b| ==> b[i] in b;
    b
  }

  /** The ASCII code points first, then a delimiter if there were any. */
  function Prefix(basic: seq<Byte>): seq<Byte>
  {
    if basic == [] then [] else basic + [DELIMITER]
  }

  function FirstEncoder(cps: seq<nat>): Encoder
  {
    var basic := BasicBytes(cps);
    Encoder(INITIAL_N, 0, INITIAL_BIAS, |basic|, true, Prefix(basic))
  }

  /** The Punycode form of a label (what idna.c writes after "xn--"). */
  function Encode(cps: seq<nat>): Option<seq<Byte>>
  {
    Passes(cps, FirstEncoder(cps))
  }

  // ---------- the variable-length integer round trip ----------

  /** One whole integer: every digit but the last reaches its threshold, the last does not. */
  predicate IsInteger(s: seq<Byte>, k: nat, bias: nat)
  {
    && s != []
    && DigitValue(s[0]).Some?
    && var t := Threshold(k, bias);
       if |s| == 1 then DigitValue(s[0]).value < t
       else DigitValue(s[0]).value >= t && IsInteger(s[1..], k + 36, bias)
  }

  function IntegerValue(s: seq<Byte>, k: nat, bias: nat): nat
    requires IsInteger(s, k, bias)
  {
    var digit := DigitValue(s[0]).value;
    if |s| == 1 then digit else digit + Times(36 - Threshold(k, bias), IntegerValue(s[1..], k + 36, bias))
  }

  lemma DivMod(x: nat, y: nat)
    requires y > 0
    ensures x % y + Times(y, x / y) == x
  {
  }

  lemma {:induction false} WriteIsInteger(q: nat, k: nat, bias: nat)
    ensures IsInteger(WriteInteger(q, k, bias), k, bias)
    ensures IntegerValue(WriteInteger(q, k, bias), k, bias) == q
    decreases q
  {
    var t := Threshold(k, bias);
    var s := WriteInteger(q, k, bias);
    if q >= t {
      QuotientFalls(q, t);
      var q' := (q - t) / (36 - t);
      assert s[1..] == WriteInteger(q', k + 36, bias);
      WriteIsInteger(q', k + 36, bias);
      DivMod(q - t, 36 - t);
    }
  }

  lemma {:induction false} ReadIsInteger(s: seq<Byte>, rest: seq<Byte>, k: nat, w: nat, i: nat, bias: nat)
    requires IsInteger(s, k, bias)
    ensures ReadInteger(s + rest, k, w, i, bias) == Some((i + Times(w, IntegerValue(s, k, bias)), rest))
    decreases |s|
  {
    var digit := DigitValue(s[0]).value;
    assert (s + rest)[1..] == s[1..] + rest;
    if |s| > 1 {
      var y := 36 - Threshold(k, bias);
      var v := IntegerValue(s[1..], k + 36, bias);
      ReadIsInteger(s[1..], rest, k + 36, Times(w, y), i + Times(digit, w), bias);
      WeightedSum(w, digit, y, v);
    }
  }

  lemma WeightedSum(w: nat, digit: nat, y: nat, v: nat)
    ensures Times(digit, w) + Times(Times(w, y), v) == Times(w, digit + Times(y, v))
  {
  }

  /** Whole integers decode independently of what follows them. */
  lemma {:induction false} ReadIntegerExtends(input: seq<Byte>, k: nat, w: nat, i: nat, bias: nat, more: seq<Byte>)
    requires ReadInteger(input, k, w, i, bias).Some?
    ensures ReadInteger(input + more, k, w, i, bias)
         == Some((ReadInteger(input, k, w, i, bias).value.0, ReadInteger(input, k, w, i, bias).value.1 + more))
    decreases |input|
  {
    assert (input + more)[1..] == input[1..] + more;
    var digit := DigitValue(input[0]).value;
    var t := Threshold(k, bias);
    if digit >= t {
      ReadIntegerExtends(input[1..], k + 36, Times(w, 36 - t), i + Times(digit, w), bias, more);
    }
  }

  lemma {:induction false} DecodeInsertionsExtends(input: seq<Byte>, more: seq<Byte>, d: Decoder)
    requires DecodeInsertions(input, d).Some?
    ensures DecodeInsertions(input + more, d) == DecodeInsertions(more, DecodeInsertions(input, d).value)
    decreases |input|
  {
    if input == [] {
      assert input + more == more;
    } else {
      DecodeOneExtends(input, more, d);
      var r := DecodeOne(input, d).value;
      DecodeInsertionsExtends(r.1, more, r.0);
    }
  }

  lemma DecodeOneExtends(input: seq<Byte>, more: seq<Byte>, d: Decoder)
    requires DecodeOne(input, d).Some?
    ensures DecodeOne(input + more, d) == Some((DecodeOne(input, d).value.0, DecodeOne(input, d).value.1 + more))
  {
    ReadIntegerExtends(input, 36, 1, d.i, d.bias, more);
  }

  // ---------- the label as the decoder sees it during a pass ----------

  lemma {:induction false} BelowConcat(a: seq<nat>, b: seq<nat>, n: nat)
    ensures Below(a + b, n) == Below(a, n) + Below(b, n)
    decreases |b|
  {
    if b == [] {
      assert a + b == a;
    } else {
      var front := b[..|b| - 1];
      assert (a + b)[..|a + b| - 1] == a + front;
      BelowConcat(a, front, n);
    }
  }

  lemma BelowSplit(cps: seq<nat>, j: nat, n: nat)
    requires j < |cps|
    ensures Below(cps[j..], n) == (if cps[j] < n then [cps[j]] else []) + Below(cps[j + 1..], n)
    ensures Below(cps[..j + 1], n) == Below(cps[..j], n) + if cps[j] < n then [cps[j]] else []
  {
    assert cps[j..] == [cps[j]] + cps[j + 1..];
    BelowConcat([cps[j]], cps[j + 1..], n);
    assert [cps[j]][..0] == [];
    assert cps[..j + 1][..j] == cps[..j];
  }

  lemma {:induction false} BelowSame(cps: seq<nat>, n: nat, n': nat)
    requires forall i :: 0 <= i < |cps| ==> (cps[i] < n <==> cps[i] < n')
    ensures Below(cps, n) == Below(cps, n')
  {
    if cps != [] {
      BelowSame(cps[..|cps| - 1], n, n');
    }
  }

  lemma {:induction false} BelowAll(cps: seq<nat>, n: nat)
    requires forall i :: 0 <= i < |cps| ==> cps[i] < n
    ensures Below(cps, n) == cps
  {
    if cps != [] {
      BelowAll(cps[..|cps| - 1], n);
    }
  }

  /** What has been encoded when the pass for n has reached position j. */
  function Done(cps: seq<nat>, n: nat, j: nat): seq<nat>
    requires j <= |cps|
  {
    Below(cps[..j], n + 1) + Below(cps[j..], n)
  }

  /**
    * The encoder and the section 6.2 decoder in step: d is where the decoder stands after
    * everything written so far, and delta is the distance from there to the slot for code
    * point e.n at position j of the label.
    */
  ghost predicate InStep(cps: seq<nat>, j: nat, e: Encoder, start: Decoder, skip: nat, d: Decoder)
    requires j <= |cps|
  {
    && skip <= |e.out|
    && DecodeInsertions(e.out[skip..], start) == Some(d)
    && d.output == Done(cps, e.n, j)
    && e.h == |d.output|
    && d.bias == e.bias
    && 128 <= d.n <= e.n
    && (e.first <==> d.i == 0)
    && d.i + e.delta == Times(e.n - d.n, e.h + 1) + |Below(cps[..j], e.n + 1)|
  }

  /** Reading delta puts the decoder's next insertion at code point e.n and slot pos. */
  lemma ReadDelta(e: Encoder, d: Decoder, pos: nat, d': Decoder)
    requires 128 <= d.n <= e.n && d.i + e.delta == Times(e.n - d.n, e.h + 1) + pos
    requires e.h == |d.output| && pos <= e.h && d.bias == e.bias && (e.first <==> d.i == 0)
    requires d' == Decoder(e.n, pos + 1, Emit(e).bias, d.output[..pos] + [e.n] + d.output[pos..])
    ensures DecodeOne(WriteInteger(e.delta, 36, e.bias), d) == Some((d', []))
  {
    ReadWritten(e.delta, d.i, e.bias);
    InsertAt(d, d.i + e.delta, e.n, pos);
  }

  lemma ReadWritten(q: nat, i: nat, bias: nat)
    ensures ReadInteger(WriteInteger(q, 36, bias), 36, 1, i, bias) == Some((i + q, []))
  {
    var digits := WriteInteger(q, 36, bias);
    WriteIsInteger(q, 36, bias);
    ReadIsInteger(digits, [], 36, 1, i, bias);
    assert digits + [] == digits;
  }

  lemma InsertAt(d: Decoder, newI: nat, n: nat, pos: nat)
    requires 128 <= d.n <= n && pos <= |d.output| && d.i <= newI
    requires newI == Times(n - d.n, |d.output| + 1) + pos
    ensures Insert(d, newI) == Some(Decoder(n, pos + 1, Adapt(newI - d.i, |d.output| + 1, d.i == 0),
                                            d.output[..pos] + [n] + d.output[pos..]))
  {
    DivModUnique(newI, |d.output| + 1, n - d.n, pos);
  }

  lemma DecodeEmitted(e: Encoder, start: Decoder, skip: nat, d: Decoder, d': Decoder)
    requires skip <= |e.out| && DecodeInsertions(e.out[skip..], start) == Some(d)
    requires DecodeOne(WriteInteger(e.delta, 36, e.bias), d) == Some((d', []))
    ensures DecodeInsertions(Emit(e).out[skip..], start) == Some(d')
  {
    var digits := WriteInteger(e.delta, 36, e.bias);
    assert Emit(e).out[skip..] == e.out[skip..] + digits;
    DecodeInsertionsExtends(e.out[skip..], digits, start);
    assert DecodeInsertions([], d') == Some(d');
  }

  /** Inserting e.n at its slot is exactly what moves the pass over position j. */
  lemma DoneGrows(cps: seq<nat>, j: nat, n: nat)
    requires j < |cps| && cps[j] == n
    ensures |Below(cps[..j], n + 1)| <= |Done(cps, n, j)|
    ensures |Below(cps[..j + 1], n + 1)| == |Below(cps[..j], n + 1)| + 1
    ensures (var pos := |Below(cps[..j], n + 1)|;
             Done(cps, n, j + 1) == Done(cps, n, j)[..pos] + [n] + Done(cps, n, j)[pos..])
  {
    var done := Below(cps[..j], n + 1);
    BelowSplit(cps, j, n);
    BelowSplit(cps, j, n + 1);
    assert Done(cps, n, j)[..|done|] == done && Done(cps, n, j)[|done|..] == Below(cps[j..], n);
  }

  lemma EmitInStep(cps: seq<nat>, j: nat, e: Encoder, start: Decoder, skip: nat, d: Decoder) returns (d': Decoder)
    requires j < |cps| && cps[j] == e.n && InStep(cps, j, e, start, skip, d)
    ensures InStep(cps, j + 1, Emit(e), start, skip, d')
  {
    var pos := |Below(cps[..j], e.n + 1)|;
    DoneGrows(cps, j, e.n);
    d' := Decoder(e.n, pos + 1, Emit(e).bias, d.output[..pos] + [e.n] + d.output[pos..]);
    ReadDelta(e, d, pos, d');
    DecodeEmitted(e, start, skip, d, d');
    EmittedInStep(cps, j + 1, Emit(e), start, skip, d');
  }

  /** Right after a delta has been written, the decoder stands behind what it has inserted. */
  lemma EmittedInStep(cps: seq<nat>, j: nat, e: Encoder, start: Decoder, skip: nat, d: Decoder)
    requires j <= |cps| && skip <= |e.out| && DecodeInsertions(e.out[skip..], start) == Some(d)
    requires d.output == Done(cps, e.n, j) && e.h == |d.output| && d.bias == e.bias && 128 <= d.n == e.n
    requires !e.first && e.delta == 0 && d.i == |Below(cps[..j], e.n + 1)| > 0
    ensures InStep(cps, j, e, start, skip, d)
  {
    NoTimes(e.h + 1);
  }

  lemma NoTimes(c: nat)
    ensures Times(0, c) == 0
  {
  }

  lemma DivModUnique(x: int, len: nat, q: nat, r: nat)
    requires 0 <= r < len && x == Times(q, len) + r
    ensures x / len == q && x % len == r
  {
    var q', r' := x / len, x % len;
    assert x == q' * len + r';
    if q < q' { MulGap(q, q', len); }
    if q > q' { MulGap(q', q, len); }
  }

  lemma TimesAdds(a: nat, b: nat, c: nat)
    ensures Times(a, c) + Times(b, c) == Times(a + b, c)
  {
  }

  lemma MulGap(a: int, b: int, len: nat)
    requires a < b
    ensures a * len + len <= b * len
  {
    MulMonotone(a + 1, b, len);
    MulSuccessor(a, len);
  }

  lemma MulMonotone(a: int, b: int, c: nat)
    requires a <= b
    ensures a * c <= b * c
  {
  }

  lemma MulSuccessor(a: int, c: int)
    ensures (a + 1) * c == a * c + c
  {
  }

  lemma {:induction false} PassInStep(cps: seq<nat>, j: nat, e: Encoder, start: Decoder, skip: nat, d: Decoder)
    returns (d': Decoder)
    requires j <= |cps| && InStep(cps, j, e, start, skip, d)
    requires Pass(cps, j, e).Some?
    ensures InStep(cps, |cps|, Pass(cps, j, e).value, start, skip, d')
    decreases |cps| - j
  {
    if j == |cps| {
      d' := d;
    } else {
      var d1 := VisitInStep(cps, j, e, start, skip, d);
      d' := PassInStep(cps, j + 1, Visit(e, cps[j]).value, start, skip, d1);
    }
  }

  /** A character already done moves the slot by one; a later one does not. */
  lemma DoneSkips(cps: seq<nat>, j: nat, n: nat)
    requires j < |cps| && cps[j] != n
    ensures Done(cps, n, j + 1) == Done(cps, n, j)
    ensures |Below(cps[..j + 1], n + 1)| == |Below(cps[..j], n + 1)| + if cps[j] < n then 1 else 0
  {
    BelowSplit(cps, j, n);
    BelowSplit(cps, j, n + 1);
  }

  lemma SkipInStep(cps: seq<nat>, j: nat, e: Encoder, start: Decoder, skip: nat, d: Decoder)
    requires j < |cps| && cps[j] != e.n && InStep(cps, j, e, start, skip, d)
    ensures InStep(cps, j + 1, e.(delta := e.delta + if cps[j] < e.n then 1 else 0), start, skip, d)
  {
    DoneSkips(cps, j, e.n);
  }

  lemma VisitInStep(cps: seq<nat>, j: nat, e: Encoder, start: Decoder, skip: nat, d: Decoder) returns (d': Decoder)
    requires j < |cps| && InStep(cps, j, e, start, skip, d) && Visit(e, cps[j]).Some?
    ensures InStep(cps, j + 1, Visit(e, cps[j]).value, start, skip, d')
  {
    if cps[j] == e.n {
      d' := EmitInStep(cps, j, e, start, skip, d);
    } else {
      SkipInStep(cps, j, e, start, skip, d);
      d' := d;
    }
  }

  /** Between passes the next pass can begin at any code point up to the least one left. */
  lemma NextPassInStep(cps: seq<nat>, e: Encoder, m: nat, start: Decoder, skip: nat, d: Decoder)
    requires InStep(cps, 0, e, start, skip, d)
    requires e.n <= m && forall c :: c in cps && c >= e.n ==> m <= c
    ensures InStep(cps, 0, Charged(e, m), start, skip, d)
  {
    assert cps[..0] == [] && cps[0..] == cps;
    assert forall i :: 0 <= i < |cps| ==> cps[i] in cps;
    BelowSame(cps, e.n, m);
    TimesAdds(e.n - d.n, m - e.n, e.h + 1);
  }

  lemma EndPassInStep(cps: seq<nat>, e: Encoder, start: Decoder, skip: nat, d: Decoder)
    requires InStep(cps, |cps|, e, start, skip, d)
    ensures InStep(cps, 0, EndPass(e), start, skip, d)
  {
    assert cps[..0] == [] && cps[0..] == cps && cps[..|cps|] == cps && cps[|cps|..] == [];
    TimesAdds(e.n - d.n, 1, e.h + 1);
  }

  /** The decoder run over everything from position skip of an output gives the label back. */
  ghost predicate Decodes(out: seq<Byte>, skip: nat, start: Decoder, cps: seq<nat>)
  {
    && skip <= |out|
    && DecodeInsertions(out[skip..], start).Some?
    && DecodeInsertions(out[skip..], start).value.output == cps
  }

  lemma AllDone(cps: seq<nat>, e: Encoder, start: Decoder, skip: nat, d: Decoder)
    requires InStep(cps, 0, e, start, skip, d) && CountFrom(cps, e.n) == 0
    ensures Decodes(e.out, skip, start, cps)
  {
    CountZero(cps, e.n);
    assert cps[..0] == [] && cps[0..] == cps;
    assert forall i :: 0 <= i < |cps| ==> cps[i] in cps;
    BelowAll(cps, e.n);
  }

  lemma RoundInStep(cps: seq<nat>, e: Encoder, start: Decoder, skip: nat, d: Decoder) returns (d': Decoder)
    requires InStep(cps, 0, e, start, skip, d)
    requires CountFrom(cps, e.n) > 0 && Round(cps, e).Some?
    ensures InStep(cps, 0, Round(cps, e).value, start, skip, d') && ExtendsBy(e.out, Round(cps, e).value.out)
  {
    var m := LeastFrom(cps, e.n);
    var e1 := Charged(e, m);
    NextPassInStep(cps, e, m, start, skip, d);
    PassExtends(cps, 0, e1);
    d' := PassInStep(cps, 0, e1, start, skip, d);
    EndPassInStep(cps, Pass(cps, 0, e1).value, start, skip, d');
  }

  lemma {:induction false} PassesDecode(cps: seq<nat>, e: Encoder, start: Decoder, skip: nat, d: Decoder)
    requires InStep(cps, 0, e, start, skip, d)
    requires Passes(cps, e).Some?
    ensures ExtendsBy(e.out, Passes(cps, e).value) && Decodes(Passes(cps, e).value, skip, start, cps)
    decreases CountFrom(cps, e.n)
  {
    if CountFrom(cps, e.n) == 0 {
      AllDone(cps, e, start, skip, d);
    } else {
      var d' := RoundInStep(cps, e, start, skip, d);
      PassesDecode(cps, Round(cps, e).value, start, skip, d');
    }
  }

  /** b is a followed by digits only. */
  predicate ExtendsBy(a: seq<Byte>, b: seq<Byte>)
  {
    a <= b && forall k :: |a| <= k < |b| ==> IsLowerDigit(b[k])
  }

  lemma {:induction false} PassExtends(cps: seq<nat>, j: nat, e: Encoder)
    requires j <= |cps| && Pass(cps, j, e).Some?
    ensures ExtendsBy(e.out, Pass(cps, j, e).value.out)
    decreases |cps| - j
  {
    if j < |cps| {
      PassExtends(cps, j + 1, Visit(e, cps[j]).value);
    }
  }

  // ---------- main result ----------

  lemma StartInStep(cps: seq<nat>)
    ensures var start := Decoder(INITIAL_N, 0, INITIAL_BIAS, BasicBytes(cps));
            InStep(cps, 0, FirstEncoder(cps), start, |Prefix(BasicBytes(cps))|, start)
  {
    var prefix := Prefix(BasicBytes(cps));
    assert prefix[|prefix|..] == [] && cps[..0] == [] && cps[0..] == cps;
    NoTimes(|BasicBytes(cps)| + 1);
  }

  lemma LastDelimiterIs(input: seq<Byte>, p: nat)
    requires p <= |input| && (p < |input| ==> input[p] == DELIMITER)
    requires forall k :: 0 <= k < |input| && (p == |input| || p < k) ==> input[k] != DELIMITER
    ensures LastDelimiter(input) == p
  {
  }

  lemma DecodeAfterPrefix(out: seq<Byte>, basic: seq<Byte>, cps: seq<nat>)
    requires forall k :: 0 <= k < |basic| ==> basic[k] < 128
    requires ExtendsBy(Prefix(basic), out)
    requires Decodes(out, |Prefix(basic)|, Decoder(INITIAL_N, 0, INITIAL_BIAS, basic), cps)
    ensures Decode(out) == Some(cps)
  {
    if basic == [] {
      LastDelimiterIs(out, |out|);
      assert out[0..] == out;
    } else {
      assert out[|basic|] == Prefix(basic)[|basic|];
      LastDelimiterIs(out, |basic|);
      assert out[..|basic|] == basic;
    }
  }

  /** The output is the label's own ASCII characters, the delimiter if there are any, and lower-case digits. */
  lemma EncodedForm(cps: seq<nat>)
    requires Encode(cps).Some?
    ensures var basic, out := BasicBytes(cps), Encode(cps).value;
            && basic <= out && (basic != [] ==> |out| > |basic| && out[|basic|] == 45)
            && forall k :: |basic| < k < |out| || (basic == [] && k == 0 < |out|) ==> IsLowerDigit(out[k])
  {
    var basic := BasicBytes(cps);
    var start := Decoder(INITIAL_N, 0, INITIAL_BIAS, basic);
    StartInStep(cps);
    PassesDecode(cps, FirstEncoder(cps), start, |Prefix(basic)|, start);
    if basic != [] { assert Encode(cps).value[|basic|] == Prefix(basic)[|basic|]; }
  }

  /**
    * Whatever the encoder produces for a label, the decoder of RFC 3492 section 6.2 turns
    * back into exactly the label's code points, in order.
    */
  lemma RoundTrip(cps: seq<nat>)
    requires Encode(cps).Some?
    ensures Decode(Encode(cps).value) == Some(cps)
  {
    var basic := BasicBytes(cps);
    var start := Decoder(INITIAL_N, 0, INITIAL_BIAS, basic);
    StartInStep(cps);
    PassesDecode(cps, FirstEncoder(cps), start, |Prefix(basic)|, start);
    assert forall k :: 0 <= k < |basic| ==> basic[k] in Below(cps, 128);
    DecodeAfterPrefix(Encode(cps).value, basic, cps);
  }
}
