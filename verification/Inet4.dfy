/** inet_ntop4 and inet_pton4 of libuv's inet.c: dotted-decimal IPv4 text. */
module Inet4 {
  import opened Common

  const UV_ENOSPC: int := -28

  // ---------- printing ----------

  function Digit(d: nat): (c: char)
    requires d < 10
    ensures DigitOf(c) == Some(d)
  {
    (48 + d) as char
  }

  function DigitOf(c: char): (d: Option<nat>)
    ensures d.Some? ==> d.value < 10
  {
    if '0' <= c <= '9' then Some(c as int - 48) else None
  }

  /** "%u". */
  function Decimal(n: nat): (s: string)
    ensures s != []
  {
    if n < 10 then [Digit(n)] else Decimal(n / 10) + [Digit(n % 10)]
  }

  function Text4(b: seq<Byte>): string
    requires |b| == 4
  {
    Decimal(b[0]) + "." + Decimal(b[1]) + "." + Decimal(b[2]) + "." + Decimal(b[3])
  }

  lemma DecimalLength(n: Byte)
    ensures |Decimal(n)| <= 3
  {
    if n >= 10 {
      assert Decimal(n) == Decimal(n / 10) + [Digit(n % 10)];
      if n >= 100 { assert Decimal(n / 10) == Decimal(n / 10 / 10) + [Digit(n / 10 % 10)]; }
    }
  }

  lemma Text4Length(b: seq<Byte>)
    requires |b| == 4
    ensures |Text4(b)| < 16
  {
    DecimalLength(b[0]);
    DecimalLength(b[1]);
    DecimalLength(b[2]);
    DecimalLength(b[3]);
  }

  /** inet_ntop4 into a buffer of the given size; the text never exceeds its temporary buffer. */
  method Ntop4(src: seq<Byte>, size: nat) returns (err: int, dst: string)
    requires |src| == 4
    ensures |Text4(src)| < 16
    ensures |Text4(src)| >= size ==> err == UV_ENOSPC
    ensures |Text4(src)| < size ==> err == 0 && dst == Text4(src)
  {
    Text4Length(src);
    var tmp := Text4(src);
    if |tmp| <= 0 || |tmp| >= size { return UV_ENOSPC, ""; }
    return 0, tmp;
  }

  // ---------- parsing ----------

  /**
    * The parser from the middle: `done` are the finished octets, cur the value of the one
    * being read, saw whether it has a digit yet.
    */
  function Parse4(s: string, done: seq<Byte>, cur: Byte, saw: bool): (r: Option<seq<Byte>>)
    ensures |done| <= 3 && r.Some? ==> |r.value| == 4
  {
    var octets := |done| + if saw then 1 else 0;
    if s == [] then if octets < 4 then None else Some(done + [cur])
    else if DigitOf(s[0]).Some? then
      var nw := cur * 10 + DigitOf(s[0]).value;
      if (saw && cur == 0) || nw > 255 || (!saw && octets + 1 > 4) then None
      else Parse4(s[1..], done, nw, true)
    else if s[0] == '.' && saw then
      if octets == 4 then None else Parse4(s[1..], done + [cur], 0, false)
    else None
  }

  function Pton4(s: string): Option<seq<Byte>>
  {
    Parse4(s, [], 0, false)
  }

  /** inet_pton4 as it runs: tmp and tp are the four octets and the one being written. */
  method InetPton4(src: string) returns (r: Option<seq<Byte>>)
    ensures r == Pton4(src)
  {
    var saw, octets := false, 0;
    var tmp: array<Byte> := new Byte[4](_ => 0);
    var tp := 0;
    var i := 0;
    assert tmp[..0] == [];
    while i < |src|
      invariant 0 <= i <= |src| && 0 <= tp < 4 && octets == tp + if saw then 1 else 0
      invariant !saw ==> tmp[tp] == 0
      invariant Pton4(src) == Parse4(src[i..], tmp[..tp], tmp[tp], saw)
    {
      var ch := src[i];
      assert src[i..][1..] == src[i + 1..];
      i := i + 1;
      var d := DigitOf(ch);
      if d.Some? {
        var cur: int := tmp[tp];
        var nw := cur * 10 + d.value;
        if saw && tmp[tp] == 0 { return None; }
        if nw > 255 { return None; }
        ghost var done := tmp[..tp];
        tmp[tp] := nw;
        assert tmp[..tp] == done;
        if !saw {
          octets := octets + 1;
          if octets > 4 { return None; }
          saw := true;
        }
      } else if ch == '.' && saw {
        if octets == 4 { return None; }
        ghost var done := tmp[..tp + 1];
        assert done == tmp[..tp] + [tmp[tp]];
        tp := tp + 1;
        tmp[tp] := 0;
        assert tmp[..tp] == done;
        saw := false;
      } else {
        return None;
      }
    }
    if octets < 4 { return None; }
    assert tmp[..] == tmp[..tp] + [tmp[tp]];
    return Some(tmp[..]);
  }

  // ---------- what is printed is read back ----------

  /** One digit more. */
  lemma ParseDigit(d: nat, rest: string, done: seq<Byte>, cur: Byte, saw: bool)
    requires d < 10 && |done| < 4 && cur * 10 + d <= 255 && (saw ==> cur > 0)
    ensures Parse4([Digit(d)] + rest, done, cur, saw) == Parse4(rest, done, cur * 10 + d, true)
  {
  }

  lemma {:induction false} ParseDecimal(n: Byte, rest: string, done: seq<Byte>)
    requires |done| < 4
    ensures Parse4(Decimal(n) + rest, done, 0, false) == Parse4(rest, done, n, true)
  {
    if n < 10 {
      ParseDigit(n, rest, done, 0, false);
    } else {
      var rest' := [Digit(n % 10)] + rest;
      assert Decimal(n) + rest == Decimal(n / 10) + rest';
      ParseDecimal(n / 10, rest', done);
      ParseDigit(n % 10, rest, done, n / 10, true);
    }
  }

  lemma ParseDotted(n: Byte, rest: string, done: seq<Byte>)
    requires |done| < 3
    ensures Parse4(Decimal(n) + "." + rest, done, 0, false) == Parse4(rest, done + [n], 0, false)
  {
    assert Decimal(n) + "." + rest == Decimal(n) + ("." + rest);
    ParseDecimal(n, "." + rest, done);
    assert ("." + rest)[1..] == rest;
  }

  lemma Read4Printed(b: seq<Byte>)
    requires |b| == 4
    ensures Pton4(Text4(b)) == Some(b)
  {
    var t3 := Decimal(b[3]);
    var t2 := Decimal(b[2]) + "." + t3;
    var t1 := Decimal(b[1]) + "." + t2;
    assert Text4(b) == Decimal(b[0]) + "." + t1;
    ParseDotted(b[0], t1, []);
    ParseDotted(b[1], t2, [] + [b[0]]);
    ParseDotted(b[2], t3, [] + [b[0]] + [b[1]]);
    var done := [] + [b[0]] + [b[1]] + [b[2]];
    assert t3 + "" == t3;
    ParseDecimal(b[3], "", done);
    assert done + [b[3]] == b;
  }

  // ---------- nothing else is accepted ----------

  /** The text of the octets finished so far, each with its dot. */
  function Dotted(done: seq<Byte>): string
  {
    if done == [] then "" else Dotted(done[..|done| - 1]) + Decimal(done[|done| - 1]) + "."
  }

  function Partial(done: seq<Byte>, cur: Byte, saw: bool): string
  {
    Dotted(done) + if saw then Decimal(cur) else ""
  }

  /** Reading one more character extends the text of what has been read by that character. */
  lemma PartialDigit(done: seq<Byte>, cur: Byte, saw: bool, c: char, rest: string)
    requires DigitOf(c).Some? && (saw ==> cur > 0) && (!saw ==> cur == 0) && cur * 10 + DigitOf(c).value <= 255
    ensures Partial(done, cur * 10 + DigitOf(c).value, true) + rest == Partial(done, cur, saw) + ([c] + rest)
  {
  }

  lemma PartialDot(done: seq<Byte>, cur: Byte, rest: string)
    ensures Partial(done + [cur], 0, false) + rest == Partial(done, cur, true) + ("." + rest)
  {
  }

  /** Whatever is accepted is the text of the result. */
  lemma {:induction false} AcceptedText(s: string, done: seq<Byte>, cur: Byte, saw: bool)
    requires Parse4(s, done, cur, saw).Some? && |done| <= 3 && (!saw ==> cur == 0)
    ensures |Parse4(s, done, cur, saw).value| == 4
    ensures (var b := Parse4(s, done, cur, saw).value; Partial(done, cur, saw) + s == Partial(b[..3], b[3], true))
    decreases |s|
  {
    if s == [] {
      assert (done + [cur])[..3] == done;
    } else {
      assert s == [s[0]] + s[1..];
      if DigitOf(s[0]).Some? {
        PartialDigit(done, cur, saw, s[0], s[1..]);
        AcceptedText(s[1..], done, cur * 10 + DigitOf(s[0]).value, true);
      } else {
        PartialDot(done, cur, s[1..]);
        AcceptedText(s[1..], done + [cur], 0, false);
      }
    }
  }

  lemma DottedText(b: seq<Byte>)
    requires |b| == 4
    ensures Partial(b[..3], b[3], true) == Text4(b)
  {
    assert b[..3][..2] == b[..2] && b[..2][..1] == b[..1] && b[..1][..0] == [];
    assert Dotted(b[..1]) == Decimal(b[0]) + ".";
    assert Dotted(b[..2]) == Dotted(b[..1]) + Decimal(b[1]) + ".";
    assert Dotted(b[..3]) == Dotted(b[..2]) + Decimal(b[2]) + ".";
  }

  /** inet_pton4 accepts exactly the strings inet_ntop4 prints, and inverts it. */
  lemma Accepts4Exactly(s: string, b: seq<Byte>)
    requires |b| == 4
    ensures Pton4(s) == Some(b) <==> s == Text4(b)
  {
    if Pton4(s) == Some(b) {
      AcceptedText(s, [], 0, false);
      DottedText(b);
      assert Partial([], 0, false) + s == s;
    }
    if s == Text4(b) { Read4Printed(b); }
  }
}
