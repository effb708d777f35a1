/** inet_ntop6 and inet_pton6 of libuv's inet.c: IPv6 text with "::" and embedded IPv4. */
module Inet6 {
  import opened Common
  import opened Inet4

  // ---------- printing ----------

  function HexDigit(d: nat): (c: char)
    requires d < 16
    ensures HexDigitOf(c) == Some(d)
  {
    HexCode(d) as char
  }

  /** A position in "0123456789abcdef" or in "0123456789ABCDEF". */
  function HexDigitOf(c: char): Option<nat>
  {
    HexValue(c as int)
  }

  /** "%x". */
  function Hex(w: nat): (s: string)
    ensures s != [] && HexDigitOf(s[0]).Some?
  {
    if w < 16 then [HexDigit(w)] else Hex(w / 16) + [HexDigit(w % 16)]
  }

  type Word = w: int | 0 <= w < 0x10000

  function WordBytes(w: Word): seq<Byte>
  {
    [w / 256, w % 256]
  }

  function BytesOf(words: seq<Word>): (b: seq<Byte>)
    ensures |b| == 2 * |words|
  {
    if words == [] then [] else BytesOf(words[..|words| - 1]) + WordBytes(words[|words| - 1])
  }

  function ZeroBytes(n: nat): (b: seq<Byte>)
    ensures |b| == n && forall i :: 0 <= i < n ==> b[i] == 0
  {
    seq(n, _ => 0)
  }

  /** A run of zero words to be written "::"; base -1 means that there is none. */
  datatype Run = Run(base: int, len: nat)

  predicate ZeroRun(words: seq<Word>, r: Run)
  {
    r.base == -1
    || (&& 0 <= r.base && 2 <= r.len && r.base + r.len <= |words|
        && forall i :: r.base <= i < r.base + r.len ==> words[i] == 0)
  }

  predicate Inside(r: Run, i: int)
  {
    r.base != -1 && r.base <= i < r.base + r.len
  }

  /** The address is printed with an IPv4 tail from word 6 on. */
  predicate Embeds4(words: seq<Word>, r: Run)
    requires |words| == 8
  {
    r.base == 0 && (r.len == 6 || (r.len == 7 && words[7] != 1) || (r.len == 5 && words[5] == 0xffff))
  }

  /** The formatting loop from word i on, and the colon after a trailing run. */
  function TextFrom(words: seq<Word>, r: Run, i: nat): string
    requires |words| == 8 && i <= 8
    decreases 8 - i
  {
    if i == 8 then if r.base != -1 && r.base + r.len == 8 then ":" else ""
    else if Inside(r, i) then (if i == r.base then ":" else "") + TextFrom(words, r, i + 1)
    else
      (if i != 0 then ":" else "") + TokenFrom(words, r, i)
  }

  /** The same from a word that is printed, without the colon before it. */
  function TokenFrom(words: seq<Word>, r: Run, i: nat): string
    requires |words| == 8 && i < 8
    decreases 8 - i, 0
  {
    if i == 6 && Embeds4(words, r) then Text4(BytesOf(words[6..])) else Hex(words[i]) + TextFrom(words, r, i + 1)
  }

  // ---------- parsing ----------

  /** After the loop: the last word, and the gap of "::" (colonp) filled with zeros. */
  function Finish6(out: seq<Byte>, colonp: Option<nat>, seen: nat, val: nat): Option<seq<Byte>>
    requires seen > 0 ==> val < 0x10000
    requires colonp.Some? ==> colonp.value <= |out|
  {
    if seen > 0 && |out| + 2 > 16 then None
    else
      var out := if seen > 0 then out + WordBytes(val) else out;
      if colonp.Some? then
        if |out| >= 16 then None
        else Some(out[..colonp.value] + ZeroBytes(16 - |out|) + out[colonp.value..])
      else if |out| != 16 then None else Some(out)
  }

  /** The loop from the middle: s is what is left, tok the text from the current token on. */
  function Parse6(s: string, tok: string, out: seq<Byte>, colonp: Option<nat>, seen: nat, val: nat): Option<seq<Byte>>
    requires seen <= 4 && (seen == 0 ==> val == 0) && val < Power16(seen)
    requires colonp.Some? ==> colonp.value <= |out|
  {
    if s == [] then Finish6(out, colonp, seen, val)
    else if HexDigitOf(s[0]).Some? then
      if seen + 1 > 4 then None else Parse6(s[1..], tok, out, colonp, seen + 1, val * 16 + HexDigitOf(s[0]).value)
    else if s[0] == ':' then
      if seen == 0 then
        if colonp.Some? then None else Parse6(s[1..], s[1..], out, Some(|out|), 0, 0)
      else if s[1..] == [] || |out| + 2 > 16 then None
      else Parse6(s[1..], s[1..], out + WordBytes(val), colonp, 0, 0)
    else if s[0] == '.' && |out| + 4 <= 16 then
      var b := Pton4(tok);
      if b.None? then None else Finish6(out + b.value, colonp, 0, 0)
    else None
  }

  /** What seen digits can amount to. */
  function Power16(seen: nat): nat
    requires seen <= 4
  {
    [1, 16, 0x100, 0x1000, 0x10000][seen]
  }

  function Pton6(s: string): Option<seq<Byte>>
  {
    if s != [] && s[0] == ':' then
      if |s| > 1 && s[1] == ':' then Parse6(s[1..], s[1..], [], None, 0, 0) else None
    else Parse6(s, s, [], None, 0, 0)
  }

  // ---------- reading back one token ----------

  lemma {:induction false} HexBounds(w: Word)
    ensures |Hex(w)| <= 4 && w < Power16(|Hex(w)|)
    ensures w >= 16 ==> |Hex(w)| == |Hex(w / 16)| + 1
  {
    if w >= 16 {
      assert |Hex(w)| == |Hex(w / 16)| + 1;
      if w >= 0x100 {
        assert |Hex(w / 16)| == |Hex(w / 16 / 16)| + 1;
        if w >= 0x1000 { assert |Hex(w / 16 / 16)| == |Hex(w / 16 / 16 / 16)| + 1; }
      }
    }
  }

  /** One hexadecimal digit more. */
  lemma {:induction false} ParseHexDigit(c: char, rest: string, tok: string, out: seq<Byte>, cp: Option<nat>,
                                         seen: nat, val: nat)
    requires HexDigitOf(c).Some? && seen < 4 && (seen == 0 ==> val == 0) && val < Power16(seen)
    requires cp.Some? ==> cp.value <= |out|
    ensures val * 16 + HexDigitOf(c).value < Power16(seen + 1)
    ensures Parse6([c] + rest, tok, out, cp, seen, val)
         == Parse6(rest, tok, out, cp, seen + 1, val * 16 + HexDigitOf(c).value)
  {
  }

  lemma {:induction false} ParseHex(w: Word, rest: string, tok: string, out: seq<Byte>, cp: Option<nat>)
    requires cp.Some? ==> cp.value <= |out|
    ensures |Hex(w)| <= 4 && w < Power16(|Hex(w)|)
    ensures Parse6(Hex(w) + rest, tok, out, cp, 0, 0) == Parse6(rest, tok, out, cp, |Hex(w)|, w)
    decreases w
  {
    HexBounds(w);
    if w < 16 {
      ParseHexDigit(HexDigit(w), rest, tok, out, cp, 0, 0);
    } else {
      var c := HexDigit(w % 16);
      assert Hex(w) + rest == Hex(w / 16) + ([c] + rest);
      ParseHex(w / 16, [c] + rest, tok, out, cp);
      ParseHexDigit(c, rest, tok, out, cp, |Hex(w / 16)|, w / 16);
    }
  }

  /** The digits of an octet pass for hexadecimal ones until the dot comes. */
  lemma {:induction false} ParseOctet(n: Byte, rest: string, tok: string, out: seq<Byte>, cp: Option<nat>)
    returns (v: nat)
    requires cp.Some? ==> cp.value <= |out|
    ensures |Decimal(n)| <= 3 && v < Power16(|Decimal(n)|)
    ensures Parse6(Decimal(n) + rest, tok, out, cp, 0, 0) == Parse6(rest, tok, out, cp, |Decimal(n)|, v)
    decreases n
  {
    DecimalLength(n);
    if n < 10 {
      ParseHexDigit(Digit(n), rest, tok, out, cp, 0, 0);
      v := n;
    } else {
      var c := Digit(n % 10);
      assert Decimal(n) + rest == Decimal(n / 10) + ([c] + rest);
      var u := ParseOctet(n / 10, [c] + rest, tok, out, cp);
      ParseHexDigit(c, rest, tok, out, cp, |Decimal(n / 10)|, u);
      v := u * 16 + HexDigitOf(c).value;
    }
  }

  lemma {:induction false} Parse4Tail(b: seq<Byte>, out: seq<Byte>, cp: Option<nat>)
    requires |b| == 4 && |out| + 4 <= 16 && (cp.Some? ==> cp.value <= |out|)
    ensures Parse6(Text4(b), Text4(b), out, cp, 0, 0) == Finish6(out + b, cp, 0, 0)
  {
    var rest := "." + Decimal(b[1]) + "." + Decimal(b[2]) + "." + Decimal(b[3]);
    assert Text4(b) == Decimal(b[0]) + rest;
    var v := ParseOctet(b[0], rest, Text4(b), out, cp);
    Read4Printed(b);
    assert rest[0] == '.';
  }

  // ---------- reading back a whole address ----------

  lemma {:induction false} BytesOfConcat(a: seq<Word>, b: seq<Word>)
    ensures BytesOf(a + b) == BytesOf(a) + BytesOf(b)
    decreases |b|
  {
    if b == [] {
      assert a + b == a;
    } else {
      assert (a + b)[..|a + b| - 1] == a + b[..|b| - 1];
      BytesOfConcat(a, b[..|b| - 1]);
    }
  }

  lemma {:induction false} BytesOfZeros(words: seq<Word>)
    requires forall i :: 0 <= i < |words| ==> words[i] == 0
    ensures BytesOf(words) == ZeroBytes(2 * |words|)
  {
    if words != [] { BytesOfZeros(words[..|words| - 1]); }
  }

  /** The bytes the parser has stored when words[..i] have been read, the run left out. */
  function Packed(words: seq<Word>, r: Run, i: nat): seq<Byte>
    requires i <= |words| && ZeroRun(words, r)
  {
    if r.base == -1 || i <= r.base then BytesOf(words[..i])
    else if i <= r.base + r.len then BytesOf(words[..r.base])
    else BytesOf(words[..r.base]) + BytesOf(words[r.base + r.len..i])
  }

  function Gap(r: Run, i: nat): Option<nat>
    requires r.base >= -1
  {
    if r.base == -1 || i <= r.base then None else Some(2 * r.base)
  }

  lemma {:induction false} PackedNext(words: seq<Word>, r: Run, i: nat)
    requires i < |words| && ZeroRun(words, r) && !Inside(r, i)
    ensures Packed(words, r, i + 1) == Packed(words, r, i) + WordBytes(words[i])
    ensures Gap(r, i + 1) == Gap(r, i)
    ensures |Packed(words, r, i)| == 2 * if Gap(r, i).None? then i else i - r.len
    ensures Gap(r, i).Some? ==> Gap(r, i).value <= |Packed(words, r, i)|
  {
    if r.base == -1 || i < r.base {
      assert words[..i + 1][..i] == words[..i];
    } else {
      var from := r.base + r.len;
      assert words[from..i + 1] == words[from..i] + [words[i]];
      BytesOfConcat(words[from..i], [words[i]]);
      assert BytesOf([words[i]]) == WordBytes(words[i]) by { assert [words[i]][..0] == []; }
    }
  }

  lemma {:induction false} BytesAround(x: seq<Word>, zeros: seq<Word>, y: seq<Word>)
    requires forall i :: 0 <= i < |zeros| ==> zeros[i] == 0
    ensures BytesOf(x + zeros + y) == BytesOf(x) + ZeroBytes(2 * |zeros|) + BytesOf(y)
  {
    BytesOfConcat(x + zeros, y);
    BytesOfConcat(x, zeros);
    BytesOfZeros(zeros);
  }

  lemma {:induction false} ThreeParts(words: seq<Word>, b: nat, e: nat)
    requires b <= e <= |words| && forall i :: b <= i < e ==> words[i] == 0
    ensures words[..b] + words[b..e] + words[e..] == words
    ensures forall i :: 0 <= i < e - b ==> words[b..e][i] == 0
  {
  }

  lemma {:induction false} AroundRun(words: seq<Word>, b: nat, e: nat)
    requires b <= e <= |words| && forall i :: b <= i < e ==> words[i] == 0
    ensures BytesOf(words) == BytesOf(words[..b]) + ZeroBytes(2 * (e - b)) + BytesOf(words[e..])
  {
    ThreeParts(words, b, e);
    var x, zeros, y := words[..b], words[b..e], words[e..];
    BytesAround(x, zeros, y);
  }

  /** Filling the gap with zeros gives the whole address. */
  lemma {:induction false} Unpacked(words: seq<Word>, r: Run)
    requires |words| == 8 && ZeroRun(words, r)
    ensures Gap(r, 8).Some? ==> Gap(r, 8).value <= |Packed(words, r, 8)|
    ensures Finish6(Packed(words, r, 8), Gap(r, 8), 0, 0) == Some(BytesOf(words))
  {
    if r.base == -1 {
      assert words[..8] == words;
    } else {
      var b, e := r.base, r.base + r.len;
      AroundRun(words, b, e);
      assert words[e..8] == words[e..];
      var out := Packed(words, r, 8);
      assert out == BytesOf(words[..b]) + BytesOf(words[e..]);
      assert out[..2 * b] == BytesOf(words[..b]) && out[2 * b..] == BytesOf(words[e..]);
    }
  }

  lemma {:induction false} SkipRun(words: seq<Word>, r: Run, i: nat)
    requires |words| == 8 && ZeroRun(words, r) && r.base != -1 && r.base < i <= r.base + r.len
    ensures TextFrom(words, r, i) == TextFrom(words, r, r.base + r.len)
    decreases 8 - i
  {
    if i < r.base + r.len { SkipRun(words, r, i + 1); }
  }

  /** After the run comes a colon in any case. */
  lemma {:induction false} AfterRunColon(words: seq<Word>, r: Run)
    requires |words| == 8 && ZeroRun(words, r) && r.base != -1
    ensures TextFrom(words, r, r.base + r.len) != [] && TextFrom(words, r, r.base + r.len)[0] == ':'
  {
  }

  lemma {:induction false} TailBytes(words: seq<Word>, r: Run)
    requires |words| == 8 && ZeroRun(words, r) && Embeds4(words, r) && !Inside(r, 6)
    ensures Packed(words, r, 6) + BytesOf(words[6..]) == Packed(words, r, 8) && Gap(r, 6) == Gap(r, 8)
    ensures |Packed(words, r, 6)| <= 12 && Gap(r, 6) == Some(0)
  {
    PackedNext(words, r, 6);
    PackedNext(words, r, 7);
    assert words[6..] == [words[6]] + [words[7]];
    BytesOfConcat([words[6]], [words[7]]);
    assert BytesOf([words[6]]) == WordBytes(words[6]) by { assert [words[6]][..0] == []; }
    assert BytesOf([words[7]]) == WordBytes(words[7]) by { assert [words[7]][..0] == []; }
  }

  lemma {:induction false} ReadTail(words: seq<Word>, r: Run)
    requires |words| == 8 && ZeroRun(words, r) && Embeds4(words, r) && !Inside(r, 6)
    ensures Gap(r, 6) == Some(0)
    ensures Parse6(TokenFrom(words, r, 6), TokenFrom(words, r, 6), Packed(words, r, 6), Gap(r, 6), 0, 0)
         == Some(BytesOf(words))
  {
    TailBytes(words, r);
    Parse4Tail(BytesOf(words[6..]), Packed(words, r, 6), Gap(r, 6));
    Unpacked(words, r);
  }

  /** Reading from a word that is printed, with no digits pending. */
  lemma {:induction false} ReadToken(words: seq<Word>, r: Run, i: nat)
    requires |words| == 8 && i < 8 && ZeroRun(words, r) && !Inside(r, i)
    ensures Gap(r, i).Some? ==> Gap(r, i).value <= |Packed(words, r, i)|
    ensures Parse6(TokenFrom(words, r, i), TokenFrom(words, r, i), Packed(words, r, i), Gap(r, i), 0, 0)
         == Some(BytesOf(words))
    decreases 8 - i, 2
  {
    PackedNext(words, r, i);
    if i == 6 && Embeds4(words, r) {
      ReadTail(words, r);
    } else {
      var x := TokenFrom(words, r, i);
      ParseHex(words[i], TextFrom(words, r, i + 1), x, Packed(words, r, i), Gap(r, i));
      AfterWord(words, r, i + 1, x);
    }
  }

  /** Word i - 1 is pending and the run begins at i: its first colon ends the word. */
  lemma {:induction false} EnterRun(words: seq<Word>, r: Run, tok: string)
    requires |words| == 8 && ZeroRun(words, r) && r.base >= 1
    ensures |Hex(words[r.base - 1])| <= 4 && words[r.base - 1] < Power16(|Hex(words[r.base - 1])|)
    ensures (var w := words[r.base - 1];
             var b := Parse6(TextFrom(words, r, r.base), tok, Packed(words, r, r.base - 1), None, |Hex(w)|, w);
             b == Some(BytesOf(words)))
    decreases 8 - r.base, 1
  {
    var s := TextFrom(words, r, r.base);
    HexBounds(words[r.base - 1]);
    PackedNext(words, r, r.base - 1);
    SkipRun(words, r, r.base + 1);
    AfterRunColon(words, r);
    assert s[1..] == TextFrom(words, r, r.base + r.len);
    AfterRun(words, r, s[1..]);
  }

  lemma {:induction false} AfterLastWord(words: seq<Word>, r: Run, tok: string)
    requires |words| == 8 && ZeroRun(words, r) && !Inside(r, 7)
    ensures |Hex(words[7])| <= 4 && words[7] < Power16(|Hex(words[7])|)
    ensures Gap(r, 7).Some? ==> Gap(r, 7).value <= |Packed(words, r, 7)|
    ensures Parse6(TextFrom(words, r, 8), tok, Packed(words, r, 7), Gap(r, 7), |Hex(words[7])|, words[7])
         == Some(BytesOf(words))
  {
    HexBounds(words[7]);
    PackedNext(words, r, 7);
    Unpacked(words, r);
  }

  /** From the state in which word i - 1 is pending. */
  lemma {:induction false} AfterWord(words: seq<Word>, r: Run, i: nat, tok: string)
    requires |words| == 8 && 1 <= i <= 8 && ZeroRun(words, r) && !Inside(r, i - 1)
    ensures |Hex(words[i - 1])| <= 4 && words[i - 1] < Power16(|Hex(words[i - 1])|)
    ensures Gap(r, i - 1).Some? ==> Gap(r, i - 1).value <= |Packed(words, r, i - 1)|
    ensures (var w := words[i - 1];
             var b := Parse6(TextFrom(words, r, i), tok, Packed(words, r, i - 1), Gap(r, i - 1), |Hex(w)|, w);
             b == Some(BytesOf(words)))
    decreases 8 - i, 3
  {
    HexBounds(words[i - 1]);
    PackedNext(words, r, i - 1);
    if i == 8 {
      AfterLastWord(words, r, tok);
    } else if Inside(r, i) {
      EnterRun(words, r, tok);
    } else {
      var s := TextFrom(words, r, i);
      assert s[1..] == TokenFrom(words, r, i);
      ReadToken(words, r, i);
    }
  }

  /** From the state just before the second colon of "::". */
  lemma {:induction false} AfterRun(words: seq<Word>, r: Run, tok: string)
    requires |words| == 8 && ZeroRun(words, r) && r.base != -1
    ensures Parse6(TextFrom(words, r, r.base + r.len), tok, BytesOf(words[..r.base]), None, 0, 0)
         == Some(BytesOf(words))
    decreases 8 - (r.base + r.len), 3
  {
    var j := r.base + r.len;
    var s := TextFrom(words, r, j);
    if j == 8 {
      assert s[1..] == "";
      Unpacked(words, r);
    } else {
      assert s[1..] == TokenFrom(words, r, j);
      ReadToken(words, r, j);
    }
  }

  lemma {:induction false} RunColon(words: seq<Word>, r: Run, j: nat)
    requires |words| == 8 && ZeroRun(words, r) && r.base != -1 && j == r.base + r.len
    ensures TextFrom(words, r, r.base) == ":" + TextFrom(words, r, j)
  {
    SkipRun(words, r, r.base + 1);
  }

  lemma {:induction false} TokenColon(words: seq<Word>, r: Run, i: nat)
    requires |words| == 8 && 0 < i < 8 && !Inside(r, i)
    ensures TextFrom(words, r, i) == ":" + TokenFrom(words, r, i)
  {
  }

  lemma {:induction false} ReadLeadingRun(words: seq<Word>, r: Run)
    requires |words| == 8 && ZeroRun(words, r) && r.base == 0
    ensures Pton6(TextFrom(words, r, 0)) == Some(BytesOf(words))
  {
    var s, rest := TextFrom(words, r, 0), TextFrom(words, r, r.len);
    RunColon(words, r, r.len);
    AfterRunColon(words, r);
    assert s[0] == ':' && s[1] == ':' && s[1..] == rest;
    AfterRun(words, r, rest);
    assert BytesOf(words[..0]) == [];
  }

  /** Whichever run of zeros is written "::", the text parses to the address. */
  lemma {:induction false} Read6Printed(words: seq<Word>, r: Run)
    requires |words| == 8 && ZeroRun(words, r)
    ensures Pton6(TextFrom(words, r, 0)) == Some(BytesOf(words))
  {
    if r.base == 0 {
      ReadLeadingRun(words, r);
    } else {
      var s := TokenFrom(words, r, 0);
      assert TextFrom(words, r, 0) == s;
      assert Packed(words, r, 0) == [] && Gap(r, 0) == None;
      ReadToken(words, r, 0);
      assert s[0] != ':';
    }
  }

  // ---------- inet_ntop6 ----------

  /** A byte in the half of its word where position i puts it. */
  function Shifted(b: int, i: nat): int
  {
    if i % 2 == 0 then b * 256 else b
  }

  /** The first k words are done, and nothing has been put behind word k. */
  ghost predicate JoinedTo(src: seq<Byte>, words: seq<Word>, k: nat)
    requires |src| == 16
  {
    && |words| == 8 && k <= 8 && BytesOf(words[..k]) == src[..2 * k]
    && forall j :: k < j < 8 ==> words[j] == 0
  }

  lemma HalfWord(src: seq<Byte>, words: seq<Word>, k: nat, w: Word)
    requires |src| == 16 && JoinedTo(src, words, k) && k < 8
    ensures JoinedTo(src, words[k := w], k)
  {
    assert words[k := w][..k] == words[..k];
  }

  lemma OneWordMore(src: seq<Byte>, words: seq<Word>, k: nat)
    requires |src| == 16 && JoinedTo(src, words, k) && k < 8
    requires words[k] as int == Shifted(src[2 * k], 0) + Shifted(src[2 * k + 1], 1)
    ensures JoinedTo(src, words, k + 1)
  {
    var w, more := words[k], words[..k + 1];
    assert more[..k] == words[..k] && more[k] == w;
    assert WordBytes(w) == [src[2 * k], src[2 * k + 1]];
    assert src[..2 * (k + 1)] == src[..2 * k] + [src[2 * k], src[2 * k + 1]];
  }

  /** The bytes put together to words; the two halves of a word share no bit. */
  method JoinWords(src: seq<Byte>) returns (words: seq<Word>)
    requires |src| == 16
    ensures |words| == 8 && BytesOf(words) == src
  {
    words := seq(8, _ => 0);
    ghost var k, odd := 0, false;
    for i := 0 to 16
      invariant JoinedTo(src, words, k) && i == 2 * k + if odd then 1 else 0
      invariant i < 16 ==> words[k] == if odd then Shifted(src[i - 1], 0) else 0
    {
      assert i / 2 == k && i % 2 == if odd then 1 else 0;
      var w: int := words[i / 2];
      HalfWord(src, words, k, w + Shifted(src[i], i));
      words := words[i / 2 := w + Shifted(src[i], i)];
      if odd {
        OneWordMore(src, words, k);
        k := k + 1;
      }
      odd := !odd;
    }
    assert words[..8] == words && src[..16] == src;
  }

  predicate Zeros(words: seq<Word>, base: int, len: int)
  {
    0 <= base && 0 < len && base + len <= |words| && forall i :: base <= i < base + len ==> words[i] == 0
  }

  /** No run of zeros within words[..end] is longer than r, and r is the first of its length. */
  ghost predicate Best(words: seq<Word>, r: Run, end: int)
  {
    (r.base != -1 ==> Zeros(words, r.base, r.len) && r.base + r.len <= end)
    && forall b, n :: Zeros(words, b, n) && b + n <= end ==> r.base != -1 && (n < r.len || (n == r.len && r.base <= b))
  }

  /** words[..i] ends in the run cur, or in a word that is not zero. */
  predicate Current(words: seq<Word>, cur: Run, i: int)
  {
    0 <= i <= |words|
    && if cur.base == -1 then i == 0 || words[i - 1] != 0
       else Zeros(words, cur.base, cur.len) && cur.base + cur.len == i && (cur.base == 0 || words[cur.base - 1] != 0)
  }

  function Start(cur: Run, i: int): int
  {
    if cur.base == -1 then i else cur.base
  }

  lemma {:induction false} RunEnds(words: seq<Word>, best: Run, cur: Run, i: int)
    requires Current(words, cur, i) && cur.base != -1 && Best(words, best, cur.base)
    requires i < |words| ==> words[i] != 0
    ensures Best(words, if best.base == -1 || cur.len > best.len then cur else best, i)
    ensures i < |words| ==> Best(words, if best.base == -1 || cur.len > best.len then cur else best, i + 1)
  {
  }

  lemma {:induction false} StillBest(words: seq<Word>, best: Run, i: int)
    requires 0 <= i < |words| && words[i] != 0 && Best(words, best, i)
    ensures Best(words, best, i + 1)
  {
  }

  /** The leftmost longest run of zeros, when it has two words or more. */
  method FindRun(words: seq<Word>) returns (best: Run)
    ensures ZeroRun(words, best)
    ensures IsLongest(words, best)
  {
    best := Run(-1, 0);
    var cur := Run(-1, 0);
    for i := 0 to |words|
      invariant Current(words, cur, i) && Best(words, best, Start(cur, i))
    {
      if words[i] == 0 {
        if cur.base == -1 { cur := Run(i, 1); } else { cur := cur.(len := cur.len + 1); }
      } else if cur.base != -1 {
        RunEnds(words, best, cur, i);
        if best.base == -1 || cur.len > best.len { best := cur; }
        cur := cur.(base := -1);
      } else {
        StillBest(words, best, i);
      }
    }
    if cur.base != -1 {
      RunEnds(words, best, cur, |words|);
      if best.base == -1 || cur.len > best.len { best := cur; }
    }
    if best.base != -1 && best.len < 2 { best := best.(base := -1); }
  }

  // ---------- the length of the text ----------

  lemma {:induction false} HexTextLength(words: seq<Word>, r: Run, i: nat)
    requires |words| == 8 && 1 <= i <= 8 && !Embeds4(words, r)
    ensures |TextFrom(words, r, i)| <= 5 * (8 - i) + 1
    decreases 8 - i
  {
    if i < 8 {
      HexTextLength(words, r, i + 1);
      HexBounds(words[i]);
    }
  }

  /** An address with an IPv4 tail is at most as long as ::ffff:255.255.255.255. */
  lemma {:induction false} TailTextLength(words: seq<Word>, r: Run)
    requires |words| == 8 && ZeroRun(words, r) && Embeds4(words, r)
    ensures |TextFrom(words, r, 0)| <= 22
  {
    SkipRun(words, r, 1);
    Text4Length(BytesOf(words[6..]));
    assert |TokenFrom(words, r, 6)| <= 15;
    HexBounds(words[5]);
    HexBounds(words[7]);
  }

  lemma {:induction false} TextLength(words: seq<Word>, r: Run)
    requires |words| == 8 && ZeroRun(words, r)
    ensures |TextFrom(words, r, 0)| <= 40
  {
    if Embeds4(words, r) {
      TailTextLength(words, r);
    } else {
      HexTextLength(words, r, 1);
      HexBounds(words[0]);
    }
  }

  const INET6_ADDRSTRLEN := 46

  /** One word, or the IPv4 tail and the end; sizes are those of the local buffer. */
  method PrintToken(src: seq<Byte>, words: seq<Word>, best: Run, i: nat, tmp: string)
    returns (err: int, next: string, last: bool)
    requires |src| == 16 && |words| == 8 && BytesOf(words) == src && i < 8
    requires |tmp + TokenFrom(words, best, i)| < INET6_ADDRSTRLEN
    ensures err == 0 && last == (i == 6 && Embeds4(words, best))
    ensures next + (if last then "" else TextFrom(words, best, i + 1)) == tmp + TokenFrom(words, best, i)
  {
    last := i == 6 && Embeds4(words, best);
    if last {
      TailOf(src, words);
      var text;
      err, text := Ntop4(src[12..], INET6_ADDRSTRLEN - |tmp|);
      if err != 0 { return; }
      next := tmp + text;
    } else {
      err, next := 0, tmp + Hex(words[i]);
    }
  }

  lemma {:induction false} InsideRun(words: seq<Word>, r: Run, i: nat, tmp: string)
    requires |words| == 8 && i < 8 && Inside(r, i)
    ensures tmp + TextFrom(words, r, i) == (if i == r.base then tmp + ":" else tmp) + TextFrom(words, r, i + 1)
  {
  }

  lemma {:induction false} OutsideRun(words: seq<Word>, r: Run, i: nat, tmp: string)
    requires |words| == 8 && i < 8 && !Inside(r, i)
    ensures tmp + TextFrom(words, r, i) == (if i != 0 then tmp + ":" else tmp) + TokenFrom(words, r, i)
  {
    var colon := if i != 0 then ":" else "";
    assert TextFrom(words, r, i) == colon + TokenFrom(words, r, i);
    Regroup(tmp, colon, TokenFrom(words, r, i));
  }

  /** What the formatting loop has still to write. */
  ghost function Unwritten(words: seq<Word>, r: Run, i: nat, last: bool): string
    requires |words| == 8 && i <= 8
  {
    if last then "" else TextFrom(words, r, i)
  }

  /** One round of the formatting loop. */
  method FormatWord(src: seq<Byte>, words: seq<Word>, best: Run, i: nat, tmp: string, ghost all: string)
    returns (err: int, next: string, last: bool)
    requires |src| == 16 && |words| == 8 && BytesOf(words) == src && i < 8
    requires tmp + TextFrom(words, best, i) == all && |all| < INET6_ADDRSTRLEN
    ensures err == 0 && next + Unwritten(words, best, i + 1, last) == all
    ensures last ==> best.base == 0 && best.len <= 6
  {
    next := tmp;
    if best.base != -1 && i >= best.base && i < best.base + best.len {
      InsideRun(words, best, i, tmp);
      if i == best.base { next := next + ":"; }
      return 0, next, false;
    }
    OutsideRun(words, best, i, tmp);
    if i != 0 { next := next + ":"; }
    err, next, last := PrintToken(src, words, best, i, next);
  }

  /** The formatting loop; its own buffer is never too short. */
  method Format6(src: seq<Byte>, words: seq<Word>, best: Run) returns (err: int, tmp: string)
    requires |src| == 16 && |words| == 8 && BytesOf(words) == src && ZeroRun(words, best)
    ensures err == 0 && tmp == TextFrom(words, best, 0) && |tmp| < INET6_ADDRSTRLEN
  {
    ghost var all := TextFrom(words, best, 0);
    TextLength(words, best);
    tmp := "";
    assert tmp + all == all;
    var i, last := 0, false;
    while i < 8 && !last
      invariant 0 <= i <= 8 && tmp + Unwritten(words, best, i, last) == all
      invariant last ==> best.base == 0 && best.len <= 6
      decreases !last, 8 - i
    {
      err, tmp, last := FormatWord(src, words, best, i, tmp, all);
      if err != 0 { return; }
      i := i + 1;
    }
    if best.base != -1 && best.base + best.len == 8 { tmp := tmp + ":"; }
    err := 0;
  }

  lemma {:induction false} TailOf(src: seq<Byte>, words: seq<Word>)
    requires |src| == 16 && |words| == 8 && BytesOf(words) == src
    ensures src[12..] == BytesOf(words[6..])
  {
  }

  ghost predicate PrintsWith(words: seq<Word>, r: Run, text: string)
  {
    |words| == 8 && ZeroRun(words, r) && IsLongest(words, r) && text == TextFrom(words, r, 0)
  }

  /** The canonical text: "::" stands for the leftmost longest run of two or more zero words. */
  ghost predicate Prints(src: seq<Byte>, text: string)
  {
    exists words: seq<Word>, r: Run :: BytesOf(words) == src && PrintsWith(words, r, text)
  }

  ghost predicate IsLongest(words: seq<Word>, r: Run)
  {
    if r.base != -1 then Best(words, r, |words|) else forall b, n :: Zeros(words, b, n) ==> n < 2
  }

  lemma {:induction false} BytesInjective(a: seq<Word>, b: seq<Word>)
    requires BytesOf(a) == BytesOf(b)
    ensures a == b
  {
    assert |a| == |b|;
    if a != [] {
      var x, y, n := BytesOf(a), BytesOf(b), |a| - 1;
      assert x[..2 * n] == BytesOf(a[..n]) && y[..2 * n] == BytesOf(b[..n]);
      BytesInjective(a[..n], b[..n]);
      assert x[2 * n] == a[n] / 256 && x[2 * n + 1] == a[n] % 256;
      assert y[2 * n] == b[n] / 256 && y[2 * n + 1] == b[n] % 256;
      assert a == a[..n] + [a[n]] && b == b[..n] + [b[n]];
    }
  }

  lemma {:induction false} NoRun(words: seq<Word>, r: Run, t: Run, i: nat)
    requires |words| == 8 && i <= 8 && r.base == -1 && t.base == -1
    ensures TextFrom(words, r, i) == TextFrom(words, t, i)
    decreases 8 - i
  {
    if i < 8 { NoRun(words, r, t, i + 1); }
  }

  /** An address has one canonical text. */
  lemma {:induction false} PrintsOne(src: seq<Byte>, s: string, t: string)
    requires Prints(src, s) && Prints(src, t)
    ensures s == t
  {
    var v: seq<Word>, p: Run :| BytesOf(v) == src && PrintsWith(v, p, s);
    var w: seq<Word>, q: Run :| BytesOf(w) == src && PrintsWith(w, q, t);
    BytesInjective(v, w);
    LongestIsOne(v, p, q);
    if p.base == -1 { NoRun(v, p, q, 0); }
  }

  lemma LongestIsOne(words: seq<Word>, p: Run, q: Run)
    requires ZeroRun(words, p) && IsLongest(words, p) && ZeroRun(words, q) && IsLongest(words, q)
    ensures p.base == q.base && (p.base != -1 ==> p == q)
  {
    assert p.base != -1 ==> Zeros(words, p.base, p.len);
    assert q.base != -1 ==> Zeros(words, q.base, q.len);
  }

  // ---------- which addresses are printed with an IPv4 tail ----------

  predicate AreZero(b: seq<Byte>)
  {
    forall i :: 0 <= i < |b| ==> b[i] == 0
  }

  /** ::ffff:0:0/96. */
  predicate IsMapped4(src: seq<Byte>)
    requires |src| == 16
  {
    AreZero(src[..10]) && src[10] == 255 && src[11] == 255
  }

  /** ::/96, unless the upper half of the IPv4 address is zero too. */
  predicate IsCompatible4(src: seq<Byte>)
    requires |src| == 16
  {
    AreZero(src[..12]) && !(src[12] == 0 && src[13] == 0)
  }

  lemma {:induction false} BytesAt(words: seq<Word>, src: seq<Byte>, i: nat)
    requires BytesOf(words) == src && i < |words|
    ensures src[2 * i] == words[i] / 256 && src[2 * i + 1] == words[i] % 256
    decreases |words|
  {
    var n := |words| - 1;
    if i < n {
      BytesAt(words[..n], BytesOf(words[..n]), i);
      assert src[..2 * n] == BytesOf(words[..n]);
    }
  }

  lemma WordIs(w: Word)
    ensures w == 0 <==> w / 256 == 0 && w % 256 == 0
    ensures w == 0xffff <==> w / 256 == 255 && w % 256 == 255
  {
  }

  lemma WordAt(words: seq<Word>, src: seq<Byte>, i: nat)
    requires BytesOf(words) == src && i < |words|
    ensures words[i] == 0 <==> src[2 * i] == 0 && src[2 * i + 1] == 0
    ensures words[i] == 0xffff <==> src[2 * i] == 255 && src[2 * i + 1] == 255
  {
    BytesAt(words, src, i);
    WordIs(words[i]);
  }

  predicate WordsAreZero(words: seq<Word>, n: nat)
    requires n <= |words|
  {
    forall i :: 0 <= i < n ==> words[i] == 0
  }

  lemma OneMoreZero(words: seq<Word>, n: nat)
    requires n < |words|
    ensures WordsAreZero(words, n + 1) <==> WordsAreZero(words, n) && words[n] == 0
  {
  }

  lemma TwoMoreZeros(src: seq<Byte>, n: nat)
    requires n + 2 <= |src|
    ensures AreZero(src[..n + 2]) <==> AreZero(src[..n]) && src[n] == 0 && src[n + 1] == 0
  {
    var most, less := src[..n + 2], src[..n];
    assert forall i :: 0 <= i < n ==> most[i] == less[i];
    assert most[n] == src[n] && most[n + 1] == src[n + 1];
  }

  lemma {:induction false} ZeroWords(words: seq<Word>, src: seq<Byte>, n: nat)
    requires BytesOf(words) == src && n <= |words|
    ensures AreZero(src[..2 * n]) <==> WordsAreZero(words, n)
    decreases n
  {
    if n > 0 {
      var m := n - 1;
      ZeroWords(words, src, m);
      OneMoreZero(words, m);
      WordAt(words, src, m);
      TwoMoreZeros(src, 2 * m);
    }
  }

  /** A tail is printed exactly for these two kinds of addresses. */
  lemma {:induction false} TailWhen(src: seq<Byte>, words: seq<Word>, r: Run)
    requires |src| == 16 && |words| == 8 && BytesOf(words) == src && ZeroRun(words, r) && IsLongest(words, r)
    ensures IsMapped4(src) <==> r == Run(0, 5) && words[5] == 0xffff
    ensures IsCompatible4(src) <==> r == Run(0, 6)
    ensures Embeds4(words, r) && !Inside(r, 6) <==> IsMapped4(src) || IsCompatible4(src)
  {
    ZeroWords(words, src, 5);
    ZeroWords(words, src, 6);
    WordAt(words, src, 5);
    WordAt(words, src, 6);
    assert IsMapped4(src) ==> Zeros(words, 0, 5);
    assert IsCompatible4(src) ==> Zeros(words, 0, 6);
    assert r.base == 0 && r.len == 6 && words[6] == 0 ==> Zeros(words, 0, 7);
  }

  lemma HexOfFfff()
    ensures Hex(0xffff) == "ffff"
  {
    assert Hex(0xf) == "f";
    assert Hex(0xff) == "f" + "f";
    assert Hex(0xfff) == "ff" + "f";
  }

  lemma TailTogether(t: string)
    ensures ":" + (":" + t) == "::" + t && ":" + (":" + ("ffff" + (":" + t))) == "::ffff:" + t
  {
  }

  lemma {:induction false} MappedText(src: seq<Byte>, words: seq<Word>)
    requires |src| == 16 && |words| == 8 && BytesOf(words) == src && ZeroRun(words, Run(0, 5)) && words[5] == 0xffff
    ensures TextFrom(words, Run(0, 5), 0) == "::ffff:" + Text4(src[12..])
  {
    var r := Run(0, 5);
    RunColon(words, r, 5);
    TokenColon(words, r, 5);
    TokenColon(words, r, 6);
    HexOfFfff();
    TailOf(src, words);
    TailTogether(Text4(src[12..]));
  }

  lemma {:induction false} CompatibleText(src: seq<Byte>, words: seq<Word>)
    requires |src| == 16 && |words| == 8 && BytesOf(words) == src && ZeroRun(words, Run(0, 6))
    ensures TextFrom(words, Run(0, 6), 0) == "::" + Text4(src[12..])
  {
    var r := Run(0, 6);
    RunColon(words, r, 6);
    TokenColon(words, r, 6);
    TailOf(src, words);
    TailTogether(Text4(src[12..]));
  }

  lemma {:induction false} HexHasNoDot(w: nat)
    ensures '.' !in Hex(w)
  {
    if w >= 16 { HexHasNoDot(w / 16); }
  }

  lemma {:induction false} NoDot(words: seq<Word>, r: Run, i: nat)
    requires |words| == 8 && i <= 8 && !(Embeds4(words, r) && !Inside(r, 6))
    ensures '.' !in TextFrom(words, r, i)
    decreases 8 - i
  {
    if i < 8 {
      NoDot(words, r, i + 1);
      HexHasNoDot(words[i]);
    }
  }

  /** What the text of an address looks like, from its bytes. */
  lemma PrintedTail(src: seq<Byte>, text: string)
    requires |src| == 16 && Prints(src, text)
    ensures IsMapped4(src) ==> text == "::ffff:" + Text4(src[12..])
    ensures IsCompatible4(src) ==> text == "::" + Text4(src[12..])
    ensures !IsMapped4(src) && !IsCompatible4(src) ==> '.' !in text
  {
    var words: seq<Word>, r: Run :| BytesOf(words) == src && PrintsWith(words, r, text);
    TailWhen(src, words, r);
    if IsMapped4(src) { MappedText(src, words); }
    else if IsCompatible4(src) { CompatibleText(src, words); }
    else { NoDot(words, r, 0); }
  }

  /** inet_ntop6: the canonical text, which parses back to the address, if the buffer can hold it. */
  method Ntop6(src: seq<Byte>, size: nat) returns (err: int, dst: string)
    requires |src| == 16
    ensures err == 0 ==> Prints(src, dst) && |dst| < size && |dst| < INET6_ADDRSTRLEN && Pton6(dst) == Some(src)
    ensures err == 0 && IsMapped4(src) ==> dst == "::ffff:" + Text4(src[12..])
    ensures err == 0 && IsCompatible4(src) ==> dst == "::" + Text4(src[12..])
    ensures err == 0 && !IsMapped4(src) && !IsCompatible4(src) ==> '.' !in dst
    ensures err != 0 ==> err == UV_ENOSPC && exists text :: Prints(src, text) && |text| >= size
  {
    var words := JoinWords(src);
    var best := FindRun(words);
    Read6Printed(words, best);
    var tmp;
    err, tmp := Format6(src, words, best);
    assert PrintsWith(words, best, tmp);
    PrintedTail(src, tmp);
    if |tmp| + 1 > size { return UV_ENOSPC, ""; }
    dst := tmp;
  }

  // ---------- inet_pton6 ----------

  /** Byte k after the last i bytes before tp have been moved to the end. */
  function MovedByte(was: seq<Byte>, tp: nat, i: nat, k: nat): Byte
    requires |was| == 16 && i <= tp < 16 && k < 16
  {
    if k >= 16 - i then was[k - (16 - tp)] else if k >= tp - i then 0 else was[k]
  }

  ghost predicate Moved(tmp: array<Byte>, was: seq<Byte>, tp: nat, i: nat)
    reads tmp
  {
    && tmp.Length == 16 == |was| && i <= tp < 16
    && forall k :: 0 <= k < 16 ==> tmp[k] == MovedByte(was, tp, i, k)
  }

  /** One turn of the loop that opens the gap. */
  method MoveByte(tmp: array<Byte>, ghost was: seq<Byte>, colonp: nat, n: nat, i: nat)
    requires 1 <= i <= n && Moved(tmp, was, colonp + n, i - 1)
    modifies tmp
    ensures Moved(tmp, was, colonp + n, i)
  {
    tmp[16 - i] := tmp[colonp + n - i];
    tmp[colonp + n - i] := 0;
  }

  /** The bytes after the gap moved to the end of the buffer, one by one from the last. */
  method OpenGap(tmp: array<Byte>, colonp: nat, tp: nat)
    requires tmp.Length == 16 && colonp <= tp < 16 && forall k :: tp <= k < 16 ==> tmp[k] == 0
    modifies tmp
    ensures tmp[..] == old(tmp[..colonp]) + ZeroBytes(16 - tp) + old(tmp[colonp..tp])
  {
    var n := tp - colonp;
    ghost var was := tmp[..];
    for i := 1 to n + 1
      invariant Moved(tmp, was, tp, i - 1)
    {
      MoveByte(tmp, was, colonp, n, i);
    }
    GapOpened(tmp[..], was, colonp, tp);
    assert was[..colonp] == old(tmp[..colonp]) && was[colonp..tp] == old(tmp[colonp..tp]);
  }

  lemma GapOpened(now: seq<Byte>, was: seq<Byte>, colonp: nat, tp: nat)
    requires |now| == 16 == |was| && colonp <= tp < 16
    requires forall k :: 0 <= k < 16 ==> now[k] == MovedByte(was, tp, tp - colonp, k)
    ensures now == was[..colonp] + ZeroBytes(16 - tp) + was[colonp..tp]
  {
  }

  /** The two bytes of a word stored at tp, if there is room. */
  method StoreWord(tmp: array<Byte>, tp: nat, val: int)
    requires tmp.Length == 16 && tp + 2 <= 16 && 0 <= val < 0x10000
    requires forall k :: tp <= k < 16 ==> tmp[k] == 0
    modifies tmp
    ensures tmp[..tp + 2] == old(tmp[..tp]) + WordBytes(val)
    ensures forall k :: tp + 2 <= k < 16 ==> tmp[k] == 0
  {
    tmp[tp] := val / 256 % 256;
    tmp[tp + 1] := val % 256;
    assert tmp[..tp + 2] == tmp[..tp] + [tmp[tp], tmp[tp + 1]];
  }

  /** After the loop. */
  method Complete(tmp: array<Byte>, tp0: nat, colonp: Option<nat>, seen: nat, val: nat) returns (r: Option<seq<Byte>>)
    requires tmp.Length == 16 && tp0 <= 16 && (colonp.Some? ==> colonp.value <= tp0) && (seen > 0 ==> val < 0x10000)
    requires forall k :: tp0 <= k < 16 ==> tmp[k] == 0
    modifies tmp
    ensures r == Finish6(old(tmp[..tp0]), colonp, seen, val)
  {
    var tp := tp0;
    if seen > 0 {
      if tp + 2 > 16 { return None; }
      StoreWord(tmp, tp, val);
      tp := tp + 2;
    }
    ghost var out := tmp[..tp];
    if colonp.Some? {
      if tp == 16 { return None; }
      assert out[..colonp.value] == tmp[..colonp.value] && out[colonp.value..] == tmp[colonp.value..tp];
      OpenGap(tmp, colonp.value, tp);
      tp := 16;
    }
    if tp != 16 { return None; }
    assert tmp[..16] == tmp[..];
    r := Some(tmp[..]);
  }

  /** A dotted tail after the words stored so far. */
  method StoreTail(tmp: array<Byte>, tp: nat, token: string) returns (ok: bool)
    requires tmp.Length == 16 && tp + 4 <= 16 && forall k :: tp <= k < 16 ==> tmp[k] == 0
    modifies tmp
    ensures ok == Pton4(token).Some?
    ensures ok ==> tmp[..tp + 4] == old(tmp[..tp]) + Pton4(token).value
    ensures forall k :: tp + 4 <= k < 16 ==> tmp[k] == 0
  {
    var b := InetPton4(token);
    ok := b.Some?;
    if ok {
      tmp[tp], tmp[tp + 1], tmp[tp + 2], tmp[tp + 3] := b.value[0], b.value[1], b.value[2], b.value[3];
    }
  }

  /** The loop: where it stands when it ends, or None when it gives up. */
  method Scan6(src: string, tmp: array<Byte>) returns (ok: bool, tp: nat, colonp: Option<nat>, seen: nat, val: nat)
    requires tmp.Length == 16 && forall k :: 0 <= k < 16 ==> tmp[k] == 0
    modifies tmp
    ensures ok ==> tp <= 16 && (colonp.Some? ==> colonp.value <= tp) && (seen > 0 ==> val < 0x10000)
    ensures ok ==> forall k :: tp <= k < 16 ==> tmp[k] == 0
    ensures Parse6(src, src, [], None, 0, 0) == if ok then Finish6(tmp[..tp], colonp, seen, val) else None
  {
    var i, token := 0, 0;
    tp, colonp, seen, val := 0, None, 0, 0;
    ok := false;
    assert tmp[..0] == [] && src[0..] == src;
    while i < |src|
      invariant 0 <= token <= i <= |src| && tp <= 16 && (colonp.Some? ==> colonp.value <= tp)
      invariant seen <= 4 && (seen == 0 ==> val == 0) && val < Power16(seen)
      invariant forall k :: tp <= k < 16 ==> tmp[k] == 0
      invariant Parse6(src, src, [], None, 0, 0) == Parse6(src[i..], src[token..], tmp[..tp], colonp, seen, val)
    {
      var ch := src[i];
      assert src[i..][1..] == src[i + 1..];
      i := i + 1;
      var d := HexDigitOf(ch);
      if d.Some? {
        val := val * 16 + d.value;
        seen := seen + 1;
        if seen > 4 { return; }
      } else if ch == ':' {
        token := i;
        if seen == 0 {
          if colonp.Some? { return; }
          colonp := Some(tp);
        } else {
          if i == |src| || tp + 2 > 16 { return; }
          StoreWord(tmp, tp, val);
          tp, seen, val := tp + 2, 0, 0;
        }
      } else {
        if ch != '.' || tp + 4 > 16 { return; }
        var read := StoreTail(tmp, tp, src[token..]);
        if !read { return; }
        tp, seen, val, ok := tp + 4, 0, 0, true;
        return;
      }
    }
    ok := true;
  }

  /** inet_pton6. */
  method InetPton6(src: string) returns (r: Option<seq<Byte>>)
    ensures r == Pton6(src)
  {
    var tmp: array<Byte> := new Byte[16](_ => 0);
    var start := 0;
    if src != [] && src[0] == ':' {
      if |src| == 1 || src[1] != ':' { return None; }
      start := 1;
    }
    assert start == 0 ==> src[start..] == src;
    var ok, tp, colonp, seen, val := Scan6(src[start..], tmp);
    if !ok { return None; }
    r := Complete(tmp, tp, colonp, seen, val);
  }
}
