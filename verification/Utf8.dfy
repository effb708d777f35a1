/**
  * The UTF-8 decoder of libuv's idna.c.  Bit operations on bytes are written as division
  * and remainder by powers of two; a result of UINT_MAX is the decoder's "invalid" value.
  */
module Utf8 {
  import opened Common
  import opened Punycode

  // ---------- the encoding of RFC 3629 section 3 ----------

  predicate IsScalar(c: int)
  {
    0 <= c < 0xD800 || 0xE000 <= c <= 0x10FFFF
  }

  function EncodeScalar(c: nat): (r: seq<Byte>)
    requires IsScalar(c)
    ensures 1 <= |r| <= 4
  {
    if c < 0x80 then [c]
    else if c < 0x800 then [0xC0 + c / 0x40, 0x80 + c % 0x40]
    else if c < 0x10000 then [0xE0 + c / 0x40 / 0x40, 0x80 + c / 0x40 % 0x40, 0x80 + c % 0x40]
    else [0xF0 + c / 0x40 / 0x40 / 0x40, 0x80 + c / 0x40 / 0x40 % 0x40, 0x80 + c / 0x40 % 0x40, 0x80 + c % 0x40]
  }

  function EncodeText(cps: seq<nat>): seq<Byte>
    requires forall i :: 0 <= i < |cps| ==> IsScalar(cps[i])
  {
    if cps == [] then [] else EncodeScalar(cps[0]) + EncodeText(cps[1..])
  }

  // ---------- the decoder ----------

  /** 0x80 == (0xC0 & (b ^ c ^ d)): the exclusive or has bit 7 set and bit 6 clear. */
  predicate MarksContinuation(b: Byte, c: Byte, d: Byte)
  {
    (b / 128 + c / 128 + d / 128) % 2 == 1 && (b / 64 + c / 64 + d / 64) % 2 == 0
  }

  /** The checks after the switch: a, b, c and d hold the bits of the code point. */
  function Assemble(a: nat, b: Byte, c: Byte, d: Byte, min: nat): nat
  {
    var v := a * 0x40000 + b % 64 * 0x1000 + c % 64 * 0x40 + d % 64;
    if !MarksContinuation(b, c, d) || v < min || v > 0x10FFFF || 0xD800 <= v <= 0xDFFF then UINT_MAX
    else v
  }

  /** How long a sequence the lead byte announces. */
  function LeadLength(a: Byte): nat
  {
    if a < 0xC0 || a > 0xF7 then 1 else if a < 0xE0 then 2 else if a < 0xF0 then 3 else 4
  }

  /** Decodes at position p; the second component is the position after the bytes taken. */
  function Decode1(s: seq<Byte>, p: nat): (r: (nat, nat))
    requires p < |s|
    ensures r.1 == if p + LeadLength(s[p]) <= |s| then p + LeadLength(s[p]) else |s|
    ensures r.0 == UINT_MAX || IsScalar(r.0)
  {
    var a := s[p];
    var left := |s| - (p + 1);
    if a < 128 then (a, p + 1)
    else if a > 0xF7 then (UINT_MAX, p + 1)
    else if left >= 3 && a > 0xEF then (Assemble(a % 8, s[p + 1], s[p + 2], s[p + 3], 0x10000), p + 4)
    else if left >= 2 && a > 0xDF then (Assemble(0, 0x80 + a % 16, s[p + 1], s[p + 2], 0x800), p + 3)
    else if left >= 1 && a > 0xBF then (Assemble(0, 0x80, 0x80 + a % 32, s[p + 1], 0x80), p + 2)
    else (UINT_MAX, p + 1)
  }

  /** The code points from position p on, or None where the decoder reports an error. */
  function DecodeFrom(s: seq<Byte>, p: nat): (r: Option<seq<nat>>)
    requires p <= |s|
    ensures r.Some? ==> |r.value| <= |s| - p && forall i :: 0 <= i < |r.value| ==> IsScalar(r.value[i])
    decreases |s| - p
  {
    if p == |s| then Some([])
    else
      var (c, p') := Decode1(s, p);
      if c == UINT_MAX then None
      else
        var r := DecodeFrom(s, p');
        if r.None? then None else Some([c] + r.value)
  }

  // ---------- well-formed text decodes to itself ----------

  /** Three proper continuation bytes put their six bits each below the bits of a. */
  lemma AssembleBits(a: nat, x: nat, y: nat, z: nat, min: nat)
    requires x < 64 && y < 64 && z < 64
    ensures (var v := a * 0x40000 + x * 0x1000 + y * 0x40 + z;
             Assemble(a, 0x80 + x, 0x80 + y, 0x80 + z, min)
             == if v < min || v > 0x10FFFF || 0xD800 <= v <= 0xDFFF then UINT_MAX else v)
  {
    ContinuationBits(x);
    ContinuationBits(y);
    ContinuationBits(z);
  }

  lemma ContinuationBits(x: nat)
    requires x < 64
    ensures (0x80 + x) / 128 == 1 && (0x80 + x) / 64 == 2 && (0x80 + x) % 64 == x
  {
  }

  lemma AssembleTwo(c: nat)
    requires 0x80 <= c < 0x800
    ensures Assemble(0, 0x80, 0x80 + (0xC0 + c / 0x40) % 32, 0x80 + c % 0x40, 0x80) == c
  {
    var y, z := c / 0x40, c % 0x40;
    LeadBits(0xC0 + y);
    AssembleBits(0, 0, y, z, 0x80);
  }

  lemma AssembleThree(c: nat)
    requires IsScalar(c) && 0x800 <= c < 0x10000
    ensures Assemble(0, 0x80 + (0xE0 + c / 0x40 / 0x40) % 16, 0x80 + c / 0x40 % 0x40, 0x80 + c % 0x40, 0x800) == c
  {
    var x, y, z := c / 0x40 / 0x40, c / 0x40 % 0x40, c % 0x40;
    LeadBits(0xE0 + x);
    AssembleBits(0, x, y, z, 0x800);
  }

  lemma AssembleFour(c: nat)
    requires 0x10000 <= c <= 0x10FFFF
    ensures Assemble((0xF0 + c / 0x40 / 0x40 / 0x40) % 8, 0x80 + c / 0x40 / 0x40 % 0x40, 0x80 + c / 0x40 % 0x40,
                     0x80 + c % 0x40, 0x10000) == c
  {
    var a, x, y, z := c / 0x40 / 0x40 / 0x40, c / 0x40 / 0x40 % 0x40, c / 0x40 % 0x40, c % 0x40;
    LeadBits(0xF0 + a);
    AssembleBits(a, x, y, z, 0x10000);
  }

  lemma DecodeScalar(before: seq<Byte>, c: nat, rest: seq<Byte>)
    requires IsScalar(c)
    ensures Decode1(before + EncodeScalar(c) + rest, |before|) == (c, |before| + |EncodeScalar(c)|)
  {
    var e := EncodeScalar(c);
    var s := before + e + rest;
    var p := |before|;
    assert s[p] == e[0];
    if 0x80 <= c < 0x800 {
      assert s[p + 1] == e[1];
      AssembleTwo(c);
    } else if 0x800 <= c < 0x10000 {
      assert s[p + 1] == e[1] && s[p + 2] == e[2];
      AssembleThree(c);
    } else if 0x10000 <= c {
      assert s[p + 1] == e[1] && s[p + 2] == e[2] && s[p + 3] == e[3];
      AssembleFour(c);
    }
  }

  lemma DecodeFromStep(s: seq<Byte>, p: nat, c: nat, p': nat)
    requires p < |s| && Decode1(s, p) == (c, p') && c != UINT_MAX && DecodeFrom(s, p').Some?
    ensures DecodeFrom(s, p) == Some([c] + DecodeFrom(s, p').value)
  {
  }

  lemma {:induction false} DecodeText(before: seq<Byte>, cps: seq<nat>)
    requires forall i :: 0 <= i < |cps| ==> IsScalar(cps[i])
    ensures DecodeFrom(before + EncodeText(cps), |before|) == Some(cps)
    decreases |cps|
  {
    var s := before + EncodeText(cps);
    if cps != [] {
      var e := EncodeScalar(cps[0]);
      var rest := EncodeText(cps[1..]);
      assert s == before + e + rest;
      DecodeScalar(before, cps[0], rest);
      DecodeText(before + e, cps[1..]);
      DecodeFromStep(s, |before|, cps[0], |before + e|);
      assert cps == [cps[0]] + cps[1..];
    }
  }

  // ---------- what else the decoder lets through ----------

  predicate IsContinuation(b: Byte)
  {
    0x80 <= b <= 0xBF
  }

  /** The lead byte asks for more continuation bytes than are left. */
  predicate CutShort(s: seq<Byte>, p: nat)
    requires p < |s|
  {
    p + LeadLength(s[p]) > |s|
  }

  /** The bits of a scalar value are the bits of its encoding. */
  lemma EncodeBits(a: nat, x: nat, y: nat, z: nat)
    requires x < 64 && y < 64 && z < 64
    requires IsScalar(a * 0x40000 + x * 0x1000 + y * 0x40 + z)
    ensures (var v := a * 0x40000 + x * 0x1000 + y * 0x40 + z;
             EncodeScalar(v) == if v < 0x80 then [v]
                                else if v < 0x800 then [0xC0 + y, 0x80 + z]
                                else if v < 0x10000 then [0xE0 + x, 0x80 + y, 0x80 + z]
                                else [0xF0 + a, 0x80 + x, 0x80 + y, 0x80 + z])
  {
    var v := a * 0x40000 + x * 0x1000 + y * 0x40 + z;
    assert v / 0x40 == a * 0x1000 + x * 0x40 + y;
    assert v / 0x40 / 0x40 == a * 0x40 + x;
    assert v / 0x40 / 0x40 / 0x40 == a;
  }

  /** Every byte of the sequence after its lead is a continuation byte. */
  predicate Continued(s: seq<Byte>, p: nat)
    requires p < |s| && !CutShort(s, p)
  {
    forall k :: p < k < p + LeadLength(s[p]) ==> IsContinuation(s[k])
  }

  lemma WellFormedIfContinued(s: seq<Byte>, p: nat)
    requires p < |s| && Decode1(s, p).0 != UINT_MAX && !CutShort(s, p) && Continued(s, p)
    ensures s[p..Decode1(s, p).1] == EncodeScalar(Decode1(s, p).0)
  {
    var a := s[p];
    if a > 0xEF {
      WellFormedFour(s, p);
    } else if a > 0xDF {
      WellFormedThree(s, p);
    } else if a >= 128 {
      WellFormedTwo(s, p);
    }
  }

  /** What a lead byte keeps of the code point. */
  lemma LeadBits(b: Byte)
    ensures 0xC0 <= b <= 0xDF ==> b % 32 == b - 0xC0
    ensures 0xE0 <= b <= 0xEF ==> b % 16 == b - 0xE0
    ensures 0xF0 <= b <= 0xF7 ==> b % 8 == b - 0xF0
  {
  }

  lemma WellFormedTwo(s: seq<Byte>, p: nat)
    requires p + 2 <= |s| && 0xC0 <= s[p] <= 0xDF && Decode1(s, p).0 != UINT_MAX && IsContinuation(s[p + 1])
    ensures s[p..p + 2] == EncodeScalar(Decode1(s, p).0)
  {
    var y, z := s[p] - 0xC0, s[p + 1] - 0x80;
    LeadBits(s[p]);
    AssembleBits(0, 0, y, z, 0x80);
    EncodeBits(0, 0, y, z);
  }

  lemma WellFormedThree(s: seq<Byte>, p: nat)
    requires p + 3 <= |s| && 0xE0 <= s[p] <= 0xEF && Decode1(s, p).0 != UINT_MAX
    requires IsContinuation(s[p + 1]) && IsContinuation(s[p + 2])
    ensures s[p..p + 3] == EncodeScalar(Decode1(s, p).0)
  {
    var x, y, z := s[p] - 0xE0, s[p + 1] - 0x80, s[p + 2] - 0x80;
    LeadBits(s[p]);
    AssembleBits(0, x, y, z, 0x800);
    EncodeBits(0, x, y, z);
  }

  /** The four-byte case of the decoder on proper continuation bytes. */
  lemma DecodesFour(s: seq<Byte>, p: nat, a: nat, x: nat, y: nat, z: nat)
    requires p + 4 <= |s| && a < 8 && x < 64 && y < 64 && z < 64
    requires s[p] as int == 0xF0 + a && s[p + 1] as int == 0x80 + x
    requires s[p + 2] as int == 0x80 + y && s[p + 3] as int == 0x80 + z
    ensures Decode1(s, p).0 == UINT_MAX || Decode1(s, p).0 == a * 0x40000 + x * 0x1000 + y * 0x40 + z >= 0x10000
  {
    LeadBits(s[p]);
    AssembleBits(a, x, y, z, 0x10000);
  }

  lemma WellFormedFour(s: seq<Byte>, p: nat)
    requires p + 4 <= |s| && 0xF0 <= s[p] <= 0xF7 && Decode1(s, p).0 != UINT_MAX
    requires IsContinuation(s[p + 1]) && IsContinuation(s[p + 2]) && IsContinuation(s[p + 3])
    ensures s[p..p + 4] == EncodeScalar(Decode1(s, p).0)
  {
    var a, x, y, z := s[p] - 0xF0, s[p + 1] - 0x80, s[p + 2] - 0x80, s[p + 3] - 0x80;
    DecodesFour(s, p, a, x, y, z);
    EncodeBits(a, x, y, z);
  }

  lemma EncodingIsContinued(c: nat)
    requires IsScalar(c)
    ensures forall k :: 0 < k < |EncodeScalar(c)| ==> IsContinuation(EncodeScalar(c)[k])
    ensures !CutShort(EncodeScalar(c), 0)
  {
  }

  /**
    * The decoder's one exclusive or does not check each continuation byte, and the fall
    * through its switch takes a lead byte whose sequence is cut short: what it accepts is
    * the encoding of what it returns exactly when neither happened.
    */
  lemma AcceptedIsWellFormed(s: seq<Byte>, p: nat)
    requires p < |s| && Decode1(s, p).0 != UINT_MAX
    ensures s[p..Decode1(s, p).1] == EncodeScalar(Decode1(s, p).0) <==> !CutShort(s, p) && Continued(s, p)
  {
    var c, q := Decode1(s, p).0, Decode1(s, p).1;
    if s[p..q] == EncodeScalar(c) {
      EncodingIsContinued(c);
      assert s[p] == s[p..q][0];
      forall k | p < k < q ensures IsContinuation(s[k]) { assert s[k] == s[p..q][k - p]; }
    } else if !CutShort(s, p) && Continued(s, p) {
      WellFormedIfContinued(s, p);
    }
  }

  /** A four-byte lead with two bytes after it, the last in the text, is read as U+1000. */
  lemma CutShortAccepted(s: seq<Byte>)
    requires |s| == 3 && s[0] == 0xF1 && s[1] == 0x80 && s[2] == 0x80
    ensures Decode1(s, 0) == (0x1000, 3) && s != EncodeScalar(0x1000)
  {
  }

  /** A three-byte lead followed by two letters is read as U+1041. */
  lemma MalformedAccepted(s: seq<Byte>)
    requires |s| == 3 && s[0] == 0xE1 && s[1] == 0x41 && s[2] == 0x41
    ensures Decode1(s, 0) == (0x1041, 3) && s != EncodeScalar(0x1041)
  {
    var a, letter := s[0], s[1];
    assert a % 16 == 1;
    ContinuationBits(1);
    assert letter / 128 == 0 && letter / 64 == 1 && letter % 64 == 1;
  }
}
