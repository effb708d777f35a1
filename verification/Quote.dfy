/** cat_str_quote_ex2 of cat_string.c: bytes written as the body of a C string literal. */
module Quote {
  import opened Common

  const DOUBLE_QUOTE: Byte := 34
  const BACKSLASH: Byte := 92

  datatype Style = Style(zeroTerminated: bool, omitQuotes: bool, omitTrailingZero: bool, nonAsciiInHex: bool,
                         allInHex: bool, comment: bool, ellipsis: bool)

  /** cat_str_quote_size. */
  function QuoteSize(length: nat, style: Style): nat
  {
    4 * length + (if style.omitQuotes then 1 else 3) + (if style.ellipsis then 3 else 0)
  }

  // ---------- reading a literal back: section 6.4.4.4 of ISO C11 ----------

  predicate IsOctal(b: Byte)
  {
    48 <= b <= 55
  }

  /** How many octal digits s begins with, up to the given number. */
  function Octals(s: seq<Byte>, most: nat): (n: nat)
    ensures n <= |s|
  {
    if s == [] || most == 0 || !IsOctal(s[0]) then 0 else 1 + Octals(s[1..], most - 1)
  }

  function OctalNumber(s: seq<Byte>): int
  {
    if s == [] then 0 else
      var d: int := s[|s| - 1];
      OctalNumber(s[..|s| - 1]) * 8 + (d - 48)
  }

  /** How many hexadecimal digits s begins with; the language sets no limit. */
  function Hexes(s: seq<Byte>): (n: nat)
    ensures n <= |s|
  {
    if s == [] || HexValue(s[0]).None? then 0 else 1 + Hexes(s[1..])
  }

  function HexNumber(s: seq<Byte>): int
  {
    if s == [] then 0
    else HexNumber(s[..|s| - 1]) * 16 + match HexValue(s[|s| - 1]) { case Some(v) => v case None => 0 }
  }

  /** The byte a simple escape sequence stands for. */
  function Simple(e: Byte): Option<Byte>
  {
    if e == 34 || e == 39 || e == 63 || e == 92 then Some(e)
    else if e == 97 then Some(7)
    else if e == 98 then Some(8)
    else if e == 102 then Some(12)
    else if e == 110 then Some(10)
    else if e == 114 then Some(13)
    else if e == 116 then Some(9)
    else if e == 118 then Some(11)
    else None
  }

  /** The first character of a literal's body: its byte, and how many bytes it takes. */
  function ReadOne(s: seq<Byte>): (r: Option<(Byte, nat)>)
    requires s != []
    ensures r.Some? ==> 1 <= r.value.1 <= |s|
  {
    if s[0] != BACKSLASH then Some((s[0], 1))
    else if |s| == 1 then None
    else if IsOctal(s[1]) then
      var n := Octals(s[1..], 3);
      var v := OctalNumber(s[1..][..n]);
      if 0 <= v < 256 then Some((v, 1 + n)) else None
    else if s[1] == 120 then
      var n := Hexes(s[2..]);
      var v := HexNumber(s[2..][..n]);
      if n > 0 && 0 <= v < 256 then Some((v, 2 + n)) else None
    else match Simple(s[1]) { case Some(b) => Some((b, 2)) case None => None }
  }

  function Prepend(b: seq<Byte>, r: Option<(seq<Byte>, seq<Byte>)>): Option<(seq<Byte>, seq<Byte>)>
  {
    if r.None? then None else Some((b + r.value.0, r.value.1))
  }

  /** The bytes up to a double quote that is not escaped, and what follows from that quote on. */
  function Read(s: seq<Byte>): Option<(seq<Byte>, seq<Byte>)>
  {
    if s == [] || s[0] == DOUBLE_QUOTE then Some(([], s))
    else
      var c := ReadOne(s);
      if c.None? then None else Prepend([c.value.0], Read(s[c.value.1..]))
  }

  // ---------- what is written for a byte ----------

  function OctalOf(c: Byte, three: bool): (r: seq<Byte>)
    ensures 1 <= |r| <= 3
  {
    if three || c / 64 != 0 then [48 + c / 64, 48 + c / 8 % 8, 48 + c % 8]
    else if c / 8 != 0 then [48 + c / 8 % 8, 48 + c % 8]
    else [48 + c % 8]
  }

  /** The letter after the backslash for a byte that has one. */
  function Letter(c: Byte): (e: Option<Byte>)
    ensures e.Some? ==> Simple(e.value) == Some(c) && !IsOctal(e.value) && e.value != 120
    ensures c == DOUBLE_QUOTE || c == BACKSLASH ==> e.Some?
  {
    if c == DOUBLE_QUOTE || c == BACKSLASH then Some(c)
    else if c == 12 then Some(102)
    else if c == 10 then Some(110)
    else if c == 13 then Some(114)
    else if c == 9 then Some(116)
    else if c == 11 then Some(118)
    else None
  }

  predicate Printable(c: Byte)
  {
    32 <= c < 127
  }

  /** One byte; beforeDigit tells that an octal digit follows it in the input. */
  function Piece(c: Byte, beforeDigit: bool, escape: set<Byte>): (r: seq<Byte>)
    ensures 1 <= |r| <= 4
  {
    if Letter(c).Some? then [BACKSLASH, Letter(c).value]
    else if Printable(c) && c !in escape then [c]
    else [BACKSLASH] + OctalOf(c, beforeDigit)
  }

  function HexPiece(c: Byte): (r: seq<Byte>)
    ensures |r| == 4
  {
    [BACKSLASH, 120, HexCode(c / 16), HexCode(c % 16)]
  }

  predicate DigitAt(p: seq<Byte>, i: nat)
  {
    i < |p| && IsOctal(p[i])
  }

  /** The first n bytes of p quoted; the look-ahead sees all of p. */
  function Body(p: seq<Byte>, n: nat, escape: set<Byte>): (r: seq<Byte>)
    requires n <= |p|
    ensures |r| <= 4 * n
  {
    if n == 0 then [] else Body(p, n - 1, escape) + Piece(p[n - 1], DigitAt(p, n), escape)
  }

  function HexBody(p: seq<Byte>, n: nat): (r: seq<Byte>)
    requires n <= |p|
    ensures |r| == 4 * n
  {
    if n == 0 then [] else HexBody(p, n - 1) + HexPiece(p[n - 1])
  }

  // ---------- reading one byte back ----------

  lemma OctalsOne(x: Byte, tail: seq<Byte>, most: nat)
    requires IsOctal(x) && 1 <= most && (most == 1 || tail == [] || !IsOctal(tail[0]))
    ensures Octals([x] + tail, most) == 1 && OctalNumber([x]) == x as int - 48
  {
  }

  lemma OctalsTwo(x: Byte, y: Byte, tail: seq<Byte>, most: nat)
    requires IsOctal(x) && IsOctal(y) && 2 <= most && (most == 2 || tail == [] || !IsOctal(tail[0]))
    ensures Octals([x, y] + tail, most) == 2 && OctalNumber([x, y]) == (x as int - 48) * 8 + (y as int - 48)
  {
    assert ([x, y] + tail)[1..] == [y] + tail;
    OctalsOne(y, tail, most - 1);
    assert [x, y][..1] == [x] && [x][..0] == [];
  }

  lemma OctalsThree(x: Byte, y: Byte, z: Byte, tail: seq<Byte>)
    requires IsOctal(x) && IsOctal(y) && IsOctal(z)
    ensures Octals([x, y, z] + tail, 3) == 3
    ensures OctalNumber([x, y, z]) == ((x as int - 48) * 8 + (y as int - 48)) * 8 + (z as int - 48)
  {
    assert ([x, y, z] + tail)[1..] == [y, z] + tail;
    OctalsTwo(y, z, tail, 2);
    OctalsTwo(x, y, [], 2);
    assert [x, y, z][..2] == [x, y];
  }

  lemma OctalDigits(c: Byte)
    ensures (c / 64 * 8 + c / 8 % 8) * 8 + c % 8 == c
    ensures c / 64 == 0 ==> c / 8 % 8 * 8 + c % 8 == c
  {
  }

  lemma OctalsRead(c: Byte, three: bool, tail: seq<Byte>)
    requires three || tail == [] || !IsOctal(tail[0])
    ensures Octals(OctalOf(c, three) + tail, 3) == |OctalOf(c, three)| && OctalNumber(OctalOf(c, three)) == c
    ensures IsOctal(OctalOf(c, three)[0])
  {
    var r := OctalOf(c, three);
    OctalDigits(c);
    if |r| == 3 {
      OctalsThree(r[0], r[1], r[2], tail);
    } else if |r| == 2 {
      OctalsTwo(r[0], r[1], tail, 3);
    } else {
      OctalsOne(r[0], tail, 3);
    }
  }

  lemma ReadPiece(c: Byte, three: bool, escape: set<Byte>, tail: seq<Byte>)
    requires three || tail == [] || !IsOctal(tail[0])
    ensures ReadOne(Piece(c, three, escape) + tail) == Some((c, |Piece(c, three, escape)|))
    ensures Piece(c, three, escape)[0] != DOUBLE_QUOTE
    ensures Piece(c, three, escape)[0] == BACKSLASH || Piece(c, three, escape)[0] == c
  {
    var r := Piece(c, three, escape);
    var s := r + tail;
    if Letter(c).None? && !(Printable(c) && c !in escape) {
      var o := OctalOf(c, three);
      OctalsRead(c, three, tail);
      assert s[1..] == o + tail;
      assert s[1..][..|o|] == o;
    }
  }

  lemma HexesRead(h: Byte, l: Byte, tail: seq<Byte>)
    requires HexValue(h).Some? && HexValue(l).Some?
    requires tail == [] || HexValue(tail[0]).None?
    ensures Hexes([h, l] + tail) == 2
    ensures HexNumber([h, l]) == HexValue(h).value * 16 + HexValue(l).value
  {
    var s, t := [h, l] + tail, [l] + tail;
    assert s[1..] == t && t[1..] == tail;
    assert Hexes(s) == 1 + Hexes(t) && Hexes(t) == 1 + Hexes(tail);
    assert [h, l][..1] == [h] && [h][..0] == [];
    assert HexNumber([h]) == HexValue(h).value;
  }

  lemma ReadHexPiece(c: Byte, tail: seq<Byte>)
    requires tail == [] || HexValue(tail[0]).None?
    ensures ReadOne(HexPiece(c) + tail) == Some((c, 4))
  {
    var s := HexPiece(c) + tail;
    HexesRead(HexCode(c / 16), HexCode(c % 16), tail);
    assert s[2..] == [HexCode(c / 16), HexCode(c % 16)] + tail;
    assert s[2..][..2] == [HexCode(c / 16), HexCode(c % 16)];
  }

  // ---------- reading a whole body back ----------

  lemma ReadStep(r: seq<Byte>, c: Byte, tail: seq<Byte>)
    requires r != [] && r[0] != DOUBLE_QUOTE && ReadOne(r + tail) == Some((c, |r|))
    ensures Read(r + tail) == Prepend([c], Read(tail))
  {
  }

  lemma PrependTwice(a: seq<Byte>, b: seq<Byte>, r: Option<(seq<Byte>, seq<Byte>)>)
    ensures Prepend(a, Prepend(b, r)) == Prepend(a + b, r)
    ensures Prepend([], r) == r
  {
    if r.Some? { assert a + (b + r.value.0) == a + b + r.value.0 && [] + r.value.0 == r.value.0; }
  }

  /** Before this tail, the body reads as these bytes. */
  predicate ReadsAs(body: seq<Byte>, bytes: seq<Byte>, tail: seq<Byte>)
  {
    Read(body + tail) == Prepend(bytes, Read(tail))
  }

  lemma OneMoreByte(body: seq<Byte>, r: seq<Byte>, tail: seq<Byte>, p: seq<Byte>, n: nat)
    requires 0 < n <= |p| && ReadsAs(body, p[..n - 1], r + tail)
    requires r != [] && r[0] != DOUBLE_QUOTE && ReadOne(r + tail) == Some((p[n - 1], |r|))
    ensures ReadsAs(body + r, p[..n], tail)
  {
    var bytes, c := p[..n - 1], p[n - 1];
    ReadStep(r, c, tail);
    PrependTwice(bytes, [c], Read(tail));
    Regroup(body, r, tail);
    assert p[..n] == bytes + [c];
  }

  lemma NothingReads(tail: seq<Byte>)
    ensures ReadsAs([], [], tail)
  {
    assert [] + tail == tail;
    PrependTwice([], [], Read(tail));
  }

  /**
    * The short octal forms are never ambiguous: whatever follows, as long as it does not
    * begin with an octal digit that the look-ahead could not see, the reader gets the bytes
    * back and goes on after them.
    */
  lemma {:induction false} BodyReadsBack(p: seq<Byte>, n: nat, escape: set<Byte>, tail: seq<Byte>)
    requires n <= |p|
    requires DigitAt(p, n) || tail == [] || !IsOctal(tail[0])
    ensures ReadsAs(Body(p, n, escape), p[..n], tail)
  {
    if n == 0 {
      NothingReads(tail);
    } else {
      var r := Piece(p[n - 1], DigitAt(p, n), escape);
      ReadPiece(p[n - 1], DigitAt(p, n), escape, tail);
      assert (r + tail)[0] == r[0];
      BodyReadsBack(p, n - 1, escape, r + tail);
      OneMoreByte(Body(p, n - 1, escape), r, tail, p, n);
    }
  }

  lemma {:induction false} HexBodyReadsBack(p: seq<Byte>, n: nat, tail: seq<Byte>)
    requires n <= |p|
    requires tail == [] || HexValue(tail[0]).None?
    ensures ReadsAs(HexBody(p, n), p[..n], tail)
  {
    if n == 0 {
      NothingReads(tail);
    } else {
      var r := HexPiece(p[n - 1]);
      ReadHexPiece(p[n - 1], tail);
      assert (r + tail)[0] == BACKSLASH;
      HexBodyReadsBack(p, n - 1, r + tail);
      OneMoreByte(HexBody(p, n - 1), r, tail, p, n);
    }
  }

  // ---------- the whole text ----------

  function Opening(style: Style): seq<Byte>
  {
    (if style.comment then [32, 47, 42, 32] else []) + (if style.omitQuotes then [] else [DOUBLE_QUOTE])
  }

  function Ellipsis(style: Style): seq<Byte>
  {
    if style.ellipsis then [46, 46, 46] else []
  }

  function CommentEnd(style: Style): seq<Byte>
  {
    if style.comment then [32, 42, 47] else []
  }

  function Closing(style: Style): seq<Byte>
  {
    (if style.omitQuotes then [] else Ellipsis(style) + [DOUBLE_QUOTE]) + CommentEnd(style)
  }

  function Quoted(p: seq<Byte>, n: nat, hex: bool, escape: set<Byte>): (r: seq<Byte>)
    requires n <= |p|
    ensures |r| <= 4 * n
  {
    if hex then HexBody(p, n) else Body(p, n, escape)
  }

  lemma QuotedReads(p: seq<Byte>, n: nat, hex: bool, escape: set<Byte>, tail: seq<Byte>)
    requires n <= |p| && (tail == [] || HexValue(tail[0]).None?)
    ensures Read(Quoted(p, n, hex, escape) + tail) == Prepend(p[..n], Read(tail))
  {
    if hex { HexBodyReadsBack(p, n, tail); } else { BodyReadsBack(p, n, escape, tail); }
  }

  lemma ReadEllipsis(tail: seq<Byte>)
    ensures Read([46, 46, 46] + tail) == Prepend([46, 46, 46], Read(tail))
  {
    var one: seq<Byte> := [46];
    Regroup(one, one, tail);
    Regroup(one, one + one, tail);
    assert [46, 46, 46] == one + (one + one);
    ReadStep(one, 46, tail);
    ReadStep(one, 46, one + tail);
    ReadStep(one, 46, one + (one + tail));
    PrependTwice(one, one, Read(tail));
    PrependTwice(one, one + one, Read(tail));
  }

  /**
    * In quotes, the literal that is read back ends at the closing quote and holds exactly
    * the bytes quoted, followed by the ellipsis if one was asked for.
    */
  lemma QuotedReadsBack(p: seq<Byte>, n: nat, hex: bool, escape: set<Byte>, style: Style)
    requires n <= |p|
    requires !style.omitQuotes
    ensures Read(Quoted(p, n, hex, escape) + Closing(style))
         == Some((p[..n] + Ellipsis(style), [DOUBLE_QUOTE] + CommentEnd(style)))
  {
    var end := [DOUBLE_QUOTE] + CommentEnd(style);
    assert Read(end) == Some(([], end));
    assert Closing(style) == Ellipsis(style) + end;
    QuotedReads(p, n, hex, escape, Closing(style));
    if style.ellipsis {
      ReadEllipsis(end);
      PrependTwice(p[..n], Ellipsis(style), Read(end));
    } else {
      assert Closing(style) == end;
    }
    assert p[..n] + Ellipsis(style) + [] == p[..n] + Ellipsis(style);
  }

  /** Without quotes and comment, the whole text reads back. */
  lemma BareReadsBack(p: seq<Byte>, n: nat, hex: bool, escape: set<Byte>)
    requires n <= |p|
    ensures Read(Quoted(p, n, hex, escape)) == Some((p[..n], []))
  {
    QuotedReads(p, n, hex, escape, []);
    assert Quoted(p, n, hex, escape) + [] == Quoted(p, n, hex, escape);
    assert p[..n] + [] == p[..n];
  }

  // ---------- where the writer stops, and in which form it writes ----------

  /** The loops stop at byte i. */
  predicate Ends(p: seq<Byte>, i: nat, zeroTerminated: bool, omitTrailingZero: bool)
    requires i < |p|
  {
    p[i] == 0 && (zeroTerminated || (omitTrailingZero && i == |p| - 1))
  }

  predicate GoesOn(p: seq<Byte>, i: nat, n: nat, zeroTerminated: bool, omitTrailingZero: bool)
    requires n <= |p|
  {
    forall k :: i <= k < n ==> !Ends(p, k, zeroTerminated, omitTrailingZero)
  }

  /** The first such byte from i on, or the end. */
  function StopFrom(p: seq<Byte>, i: nat, zeroTerminated: bool, omitTrailingZero: bool): (n: nat)
    requires i <= |p|
    ensures i <= n <= |p| && (n < |p| ==> Ends(p, n, zeroTerminated, omitTrailingZero))
    ensures GoesOn(p, i, n, zeroTerminated, omitTrailingZero)
    decreases |p| - i
  {
    if i == |p| || Ends(p, i, zeroTerminated, omitTrailingZero) then i
    else StopFrom(p, i + 1, zeroTerminated, omitTrailingZero)
  }

  predicate ForcesHex(c: Byte)
  {
    c > 0x7e || (c < 32 && !(9 <= c <= 13))
  }

  /** A byte that forces hexadecimal stands before the end of the string. */
  predicate HasNonAscii(p: seq<Byte>, zeroTerminated: bool)
  {
    exists i :: 0 <= i < |p| && ForcesHex(p[i]) && (zeroTerminated ==> forall j :: 0 <= j <= i ==> p[j] != 0)
  }

  predicate InHex(p: seq<Byte>, style: Style)
  {
    style.allInHex || (style.nonAsciiInHex && HasNonAscii(p, style.zeroTerminated))
  }

  function Stop(p: seq<Byte>, style: Style): (n: nat)
    ensures n <= |p|
  {
    StopFrom(p, 0, style.zeroTerminated, style.omitTrailingZero && !InHex(p, style))
  }

  /** All that is written for the bytes p, without the final NUL. */
  function Text(p: seq<Byte>, style: Style, escape: set<Byte>): seq<Byte>
  {
    Opening(style) + Quoted(p, Stop(p, style), InHex(p, style), escape) + Closing(style)
  }

  // ---------- reading the whole output back ----------

  function Unspaced(s: seq<Byte>): seq<Byte>
  {
    if s != [] && s[0] == 32 then Unspaced(s[1..]) else s
  }

  /** A string literal: its bytes, and what follows the closing quote. */
  function ReadLiteral(s: seq<Byte>): Option<(seq<Byte>, seq<Byte>)>
  {
    if s == [] || s[0] != 34 then None
    else match Read(s[1..])
      case None => None
      case Some((bytes, rest)) => if rest == [] then None else Some((bytes, rest[1..]))
  }

  /** A literal alone, or alone within a comment: which of the two, and its bytes. */
  function ReadOutput(s: seq<Byte>): Option<(bool, seq<Byte>)>
  {
    var t := Unspaced(s);
    var comment := |t| >= 2 && t[0] == 47 && t[1] == 42;
    match ReadLiteral(if comment then Unspaced(t[2..]) else t)
    case None => None
    case Some((bytes, rest)) =>
      if (if comment then Unspaced(rest) == [42, 47] else rest == []) then Some((comment, bytes)) else None
  }

  lemma LiteralReadsBack(p: seq<Byte>, n: nat, hex: bool, escape: set<Byte>, style: Style)
    requires n <= |p| && !style.omitQuotes
    ensures ReadLiteral([DOUBLE_QUOTE] + (Quoted(p, n, hex, escape) + Closing(style)))
         == Some((p[..n] + if style.ellipsis then [46, 46, 46] else [], CommentEnd(style)))
  {
    var inside, end := Quoted(p, n, hex, escape) + Closing(style), [DOUBLE_QUOTE] + CommentEnd(style);
    assert ([DOUBLE_QUOTE] + inside)[1..] == inside && end[1..] == CommentEnd(style);
    QuotedReadsBack(p, n, hex, escape, style);
  }

  lemma SpacesSkipped(rest: seq<Byte>)
    requires rest == [] || rest[0] != 32
    ensures Unspaced(rest) == rest && Unspaced([32] + rest) == rest
  {
    assert ([32] + rest)[1..] == rest;
  }

  lemma OpeningParts(style: Style, inside: seq<Byte>)
    requires !style.omitQuotes
    ensures Opening(style) + inside
         == if style.comment then [32] + ([47, 42] + ([32] + ([DOUBLE_QUOTE] + inside))) else [DOUBLE_QUOTE] + inside
  {
  }

  /**
    * With quotes, in every style, the output is a string literal, in a comment if one was
    * asked for, and the literal's bytes are those quoted and the ellipsis.
    */
  lemma OutputReadsBack(p: seq<Byte>, style: Style, escape: set<Byte>)
    requires !style.omitQuotes
    ensures ReadOutput(Text(p, style, escape))
         == Some((style.comment, p[..Stop(p, style)] + if style.ellipsis then [46, 46, 46] else []))
  {
    var n, hex := Stop(p, style), InHex(p, style);
    var literal := [DOUBLE_QUOTE] + (Quoted(p, n, hex, escape) + Closing(style));
    LiteralReadsBack(p, n, hex, escape, style);
    Regroup(Opening(style), Quoted(p, n, hex, escape), Closing(style));
    OpeningParts(style, Quoted(p, n, hex, escape) + Closing(style));
    SpacesSkipped(literal);
    if style.comment {
      var inner := [32] + literal;
      SpacesSkipped([47, 42] + inner);
      assert ([47, 42] + inner)[2..] == inner;
      SpacesSkipped([42, 47]);
      assert CommentEnd(style) == [32] + [42, 47];
    }
  }

  /** Without quotes it is the bytes alone, which read back, between the marks of the comment. */
  lemma BareOutputReadsBack(p: seq<Byte>, style: Style, escape: set<Byte>)
    requires style.omitQuotes
    ensures var body := Quoted(p, Stop(p, style), InHex(p, style), escape);
            && Text(p, style, escape) == (if style.comment then [32, 47, 42, 32] + body + [32, 42, 47] else body)
            && Read(body) == Some((p[..Stop(p, style)], []))
  {
    BareReadsBack(p, Stop(p, style), InHex(p, style), escape);
  }

  // ---------- the end of a comment within the text ----------

  /** The two bytes that end a comment stand at i. */
  predicate EndsCommentAt(s: seq<Byte>, i: nat)
  {
    i + 1 < |s| && s[i] == 42 && s[i + 1] == 47
  }

  ghost predicate EndsComment(s: seq<Byte>)
  {
    exists i: nat :: EndsCommentAt(s, i)
  }

  lemma EndsCommentConcat(a: seq<Byte>, b: seq<Byte>)
    requires a != [] && b != []
    ensures EndsComment(a + b) <==> EndsComment(a) || EndsComment(b) || (a[|a| - 1] == 42 && b[0] == 47)
  {
    var s := a + b;
    if i: nat :| EndsCommentAt(a, i) { assert EndsCommentAt(s, i); }
    if i: nat :| EndsCommentAt(b, i) { assert EndsCommentAt(s, |a| + i); }
    if a[|a| - 1] == 42 && b[0] == 47 { assert EndsCommentAt(s, |a| - 1); }
    if i: nat :| EndsCommentAt(s, i) {
      if i + 1 < |a| { assert EndsCommentAt(a, i); }
      else if i >= |a| { assert EndsCommentAt(b, i - |a|); }
    }
  }

  /** Of the bytes written for c, only c itself can be an asterisk or a slash. */
  lemma StarsAndSlashes(c: Byte, beforeDigit: bool, escape: set<Byte>)
    ensures var r := Piece(c, beforeDigit, escape);
            && !EndsComment(r) && (r[0] == 47 <==> c == 47 && 47 !in escape)
            && (r[|r| - 1] == 42 <==> c == 42 && 42 !in escape)
  {
    assert 0 <= c / 64 < 8 && 0 <= c / 8 % 8 < 8 && 0 <= c % 8 < 8;
  }

  lemma LastOne(p: seq<Byte>, n: nat)
    requires 1 < n <= |p|
    ensures EndsComment(p[..n]) <==> EndsComment(p[..n - 1]) || (p[n - 2] == 42 && p[n - 1] == 47)
  {
    EndsCommentConcat(p[..n - 1], [p[n - 1]]);
    assert p[..n] == p[..n - 1] + [p[n - 1]];
  }

  predicate EndsInStar(s: seq<Byte>)
  {
    s != [] && s[|s| - 1] == 42
  }

  lemma OnePieceMore(p: seq<Byte>, n: nat, escape: set<Byte>, body: seq<Byte>, r: seq<Byte>)
    requires 1 < n <= |p| && body != [] && r != []
    requires EndsComment(body) <==> EndsComment(p[..n - 1]) && 42 !in escape && 47 !in escape
    requires EndsInStar(body) <==> p[n - 2] == 42 && 42 !in escape
    requires !EndsComment(r) && (r[0] == 47 <==> p[n - 1] == 47 && 47 !in escape)
    ensures EndsComment(body + r) <==> EndsComment(p[..n]) && 42 !in escape && 47 !in escape
  {
    EndsCommentConcat(body, r);
    LastOne(p, n);
  }

  lemma {:induction false} BodyEndsComment(p: seq<Byte>, n: nat, escape: set<Byte>, text: seq<Byte>)
    requires 0 < n <= |p| && text == Body(p, n, escape)
    ensures EndsComment(text) <==> EndsComment(p[..n]) && 42 !in escape && 47 !in escape
    ensures text != [] && (EndsInStar(text) <==> p[n - 1] == 42 && 42 !in escape)
    decreases n
  {
    var body, r := Body(p, n - 1, escape), Piece(p[n - 1], DigitAt(p, n), escape);
    StarsAndSlashes(p[n - 1], DigitAt(p, n), escape);
    assert text == body + r && text[|text| - 1] == r[|r| - 1];
    if n == 1 {
      assert body + r == r;
    } else {
      BodyEndsComment(p, n - 1, escape, body);
      OnePieceMore(p, n, escape, body, r);
    }
  }

  lemma {:induction false} HexBodyEndsNoComment(p: seq<Byte>, n: nat)
    requires 0 < n <= |p|
    ensures !EndsComment(HexBody(p, n)) && HexBody(p, n)[4 * n - 1] != 42
  {
    var r := HexPiece(p[n - 1]);
    assert !EndsComment(r) && r[3] != 42;
    if n == 1 {
      assert HexBody(p, 0) + r == r;
    } else {
      HexBodyEndsNoComment(p, n - 1);
      EndsCommentConcat(HexBody(p, n - 1), r);
    }
  }

  lemma Around(a: seq<Byte>, body: seq<Byte>, b: seq<Byte>)
    requires a != [] && b != [] && !EndsComment(a) && !EndsComment(b) && a[|a| - 1] != 42 && b[0] != 47
    ensures EndsComment(a + body + b) <==> EndsComment(body)
  {
    EndsCommentConcat(a + body, b);
    if body == [] { assert a + body == a; } else { EndsCommentConcat(a, body); }
  }

  lemma CommentMarks(style: Style)
    requires style.comment
    ensures var a, c := Opening(style), Closing(style);
            && !EndsComment(a) && a[|a| - 1] != 42
            && |c| > 1 && !EndsComment(c[..|c| - 1]) && c[0] != 47
  {
  }

  /** The end of a comment stands in the text before its own exactly if it stood in the input and was not escaped. */
  lemma CommentEndsEarly(p: seq<Byte>, style: Style, escape: set<Byte>, text: seq<Byte>)
    requires style.comment && text == Text(p, style, escape)
    ensures EndsComment(text[..|text| - 1])
       <==> !InHex(p, style) && EndsComment(p[..Stop(p, style)]) && 42 !in escape && 47 !in escape
  {
    var n, hex := Stop(p, style), InHex(p, style);
    var a, body, c := Opening(style), Quoted(p, n, hex, escape), Closing(style);
    CommentMarks(style);
    assert text[..|text| - 1] == a + body + c[..|c| - 1];
    Around(a, body, c[..|c| - 1]);
    if n > 0 {
      if hex { HexBodyEndsNoComment(p, n); } else { BodyEndsComment(p, n, escape, body); }
    }
  }

  /** Two bytes that do it, whenever they are not written in hexadecimal. */
  lemma StarSlashEndsComment(style: Style, text: seq<Byte>)
    requires style.comment && !style.allInHex && text == Text([42, 47], style, {})
    ensures EndsComment(text[..|text| - 1])
  {
    var p: seq<Byte> := [42, 47];
    StopIs(p, style);
    InHexIs(p, style);
    assert Stop(p, style) == 2 && p[..2] == p;
    assert EndsCommentAt(p, 0);
    CommentEndsEarly(p, style, {}, text);
  }

  // ---------- where it stops and what it escapes, byte by byte ----------

  /** A terminated string stops at its first zero; otherwise only a last zero may be left out. */
  lemma StopIs(p: seq<Byte>, style: Style)
    ensures style.zeroTerminated ==> 0 !in p[..Stop(p, style)] && (Stop(p, style) < |p| ==> p[Stop(p, style)] == 0)
    ensures !style.zeroTerminated ==>
              Stop(p, style) == if style.omitTrailingZero && !InHex(p, style) && p != [] && p[|p| - 1] == 0
                                then |p| - 1 else |p|
  {
    var n, omit := Stop(p, style), style.omitTrailingZero && !InHex(p, style);
    if style.zeroTerminated {
      forall k | 0 <= k < n ensures p[..n][k] != 0 { assert !Ends(p, k, true, omit); }
    } else if p != [] {
      assert n == |p| ==> !Ends(p, |p| - 1, false, omit);
    }
  }

  /** Left to choose, the writer uses hexadecimal exactly if a byte is neither printable nor white space. */
  lemma InHexIs(p: seq<Byte>, style: Style)
    ensures style.allInHex ==> InHex(p, style)
    ensures !style.allInHex && !style.nonAsciiInHex ==> !InHex(p, style)
    ensures !style.allInHex && style.nonAsciiInHex ==>
              (InHex(p, style) <==> exists i :: 0 <= i < |p| && !(32 <= p[i] <= 126 || 9 <= p[i] <= 13)
                                         && (style.zeroTerminated ==> forall j :: 0 <= j <= i ==> p[j] != 0))
  {
    if i :| 0 <= i < |p| && !(32 <= p[i] <= 126 || 9 <= p[i] <= 13)
            && (style.zeroTerminated ==> forall j :: 0 <= j <= i ==> p[j] != 0) {
      assert ForcesHex(p[i]);
    }
  }

  /** A printable byte that need not be escaped is written as it is, any other behind a backslash. */
  lemma PieceIs(c: Byte, beforeDigit: bool, escape: set<Byte>)
    ensures 32 <= c <= 126 && c != 34 && c != 92 && c !in escape ==> Piece(c, beforeDigit, escape) == [c]
    ensures !(32 <= c <= 126) || c == 34 || c == 92 || c in escape ==>
              |Piece(c, beforeDigit, escape)| > 1 && Piece(c, beforeDigit, escape)[0] == 92
  {
  }

  predicate IsLowerHex(b: Byte)
  {
    48 <= b <= 57 || 97 <= b <= 102
  }

  /** In hexadecimal every byte is written with two lower-case digits. */
  lemma HexPieceIs(c: Byte)
    ensures var r := HexPiece(c); r[..2] == [92, 120] && IsLowerHex(r[2]) && IsLowerHex(r[3])
    ensures HexNumber(HexPiece(c)[2..]) == c
  {
    var h, l := HexCode(c / 16), HexCode(c % 16);
    assert HexPiece(c)[2..] == [h, l] && [h, l][..1] == [h] && [h][..0] == [];
    assert HexNumber([h]) == c / 16;
  }

  predicate AllPrintable(s: seq<Byte>)
  {
    forall i :: 0 <= i < |s| ==> 32 <= s[i] <= 126
  }

  lemma PieceIsPrintable(c: Byte, beforeDigit: bool, escape: set<Byte>)
    ensures AllPrintable(Piece(c, beforeDigit, escape)) && AllPrintable(HexPiece(c))
  {
    assert 0 <= c / 64 < 8 && 0 <= c / 8 % 8 < 8 && 0 <= c % 8 < 8;
  }

  lemma PrintableConcat(a: seq<Byte>, b: seq<Byte>)
    requires AllPrintable(a) && AllPrintable(b)
    ensures AllPrintable(a + b)
  {
  }

  lemma {:induction false} BodyIsPrintable(p: seq<Byte>, n: nat, hex: bool, escape: set<Byte>)
    requires n <= |p|
    ensures AllPrintable(Quoted(p, n, hex, escape))
    decreases n
  {
    if n > 0 {
      var c, digit := p[n - 1], DigitAt(p, n);
      BodyIsPrintable(p, n - 1, hex, escape);
      PieceIsPrintable(c, digit, escape);
      PrintableConcat(Quoted(p, n - 1, hex, escape), if hex then HexPiece(c) else Piece(c, digit, escape));
    }
  }

  lemma MarksArePrintable(style: Style)
    ensures AllPrintable(Opening(style)) && AllPrintable(Closing(style))
  {
  }

  lemma PrintableAround(a: seq<Byte>, body: seq<Byte>, c: seq<Byte>)
    requires AllPrintable(a) && AllPrintable(body) && AllPrintable(c)
    ensures AllPrintable(a + body + c)
  {
    PrintableConcat(a, body);
    PrintableConcat(a + body, c);
  }

  /** Whatever the input, the output is printable ASCII. */
  lemma OutputIsPrintable(p: seq<Byte>, style: Style, escape: set<Byte>)
    ensures AllPrintable(Text(p, style, escape))
  {
    BodyIsPrintable(p, Stop(p, style), InHex(p, style), escape);
    MarksArePrintable(style);
    PrintableAround(Opening(style), Quoted(p, Stop(p, style), InHex(p, style), escape), Closing(style));
  }

  // ---------- the size of the text, from the input ----------

  predicate Lettered(c: Byte)
  {
    c == DOUBLE_QUOTE || c == BACKSLASH || 9 <= c <= 13
  }

  predicate Plain(c: Byte, escape: set<Byte>)
  {
    Printable(c) && !Lettered(c) && c !in escape
  }

  /** How many of the four bytes reserved for a byte it does not need. */
  function Spare(c: Byte, beforeDigit: bool, escape: set<Byte>): nat
  {
    if Plain(c, escape) then 3
    else if Lettered(c) then 2
    else if beforeDigit || c >= 64 then 0
    else if c >= 8 then 1
    else 2
  }

  function Spares(p: seq<Byte>, n: nat, escape: set<Byte>): nat
    requires n <= |p|
  {
    if n == 0 then 0 else Spares(p, n - 1, escape) + Spare(p[n - 1], DigitAt(p, n), escape)
  }

  lemma PieceSpare(c: Byte, beforeDigit: bool, escape: set<Byte>)
    ensures |Piece(c, beforeDigit, escape)| + Spare(c, beforeDigit, escape) == 4
  {
    assert c / 64 != 0 <==> c >= 64;
    assert c / 8 != 0 <==> c >= 8;
  }

  lemma {:induction false} BodySpares(p: seq<Byte>, n: nat, escape: set<Byte>)
    requires n <= |p|
    ensures |Body(p, n, escape)| + Spares(p, n, escape) == 4 * n
  {
    if n > 0 {
      var c, digit := p[n - 1], DigitAt(p, n);
      BodySpares(p, n - 1, escape);
      PieceSpare(c, digit, escape);
      assert |Body(p, n, escape)| == |Body(p, n - 1, escape)| + |Piece(c, digit, escape)|;
    }
  }

  /** The bytes reserved for the input that its text does not need. */
  function Slack(p: seq<Byte>, style: Style, escape: set<Byte>): nat
  {
    4 * (|p| - Stop(p, style)) + if InHex(p, style) then 0 else Spares(p, Stop(p, style), escape)
  }

  lemma TextSize(p: seq<Byte>, style: Style, escape: set<Byte>)
    ensures |Text(p, style, escape)| + Slack(p, style, escape)
         == 4 * |p| + |Opening(style)| + |Closing(style)|
  {
    BodySpares(p, Stop(p, style), escape);
  }

  /** The size is always enough without a comment; with one, exactly if the input leaves seven bytes unused. */
  lemma SizeSuffices(p: seq<Byte>, style: Style, escape: set<Byte>)
    ensures |Text(p, style, escape)| + 1 <= QuoteSize(|p|, style)
       <==> (style.comment ==> Slack(p, style, escape) + (if style.omitQuotes && style.ellipsis then 3 else 0) >= 7)
  {
    TextSize(p, style, escape);
  }

  /** In hexadecimal that takes a string that ends two bytes or more before its length. */
  lemma HexSizeSuffices(p: seq<Byte>, style: Style, escape: set<Byte>)
    requires style.comment && InHex(p, style) && !(style.omitQuotes && style.ellipsis)
    ensures |Text(p, style, escape)| + 1 <= QuoteSize(|p|, style) <==> Stop(p, style) + 2 <= |p|
  {
    SizeSuffices(p, style, escape);
  }

  lemma {:induction false} SparesGrow(p: seq<Byte>, m: nat, n: nat, escape: set<Byte>)
    requires m <= n <= |p|
    ensures Spares(p, m, escape) <= Spares(p, n, escape)
  {
    if m < n { SparesGrow(p, m, n - 1, escape); }
  }

  lemma PlainSpares(p: seq<Byte>, i: nat, n: nat, escape: set<Byte>)
    requires i < n <= |p| && Plain(p[i], escape)
    ensures Spares(p, n, escape) >= Spares(p, i, escape) + 3
  {
    SparesGrow(p, i + 1, n, escape);
  }

  /** In plain form, three bytes that are printed as they are suffice for a comment. */
  lemma ThreePlainBytes(p: seq<Byte>, style: Style, escape: set<Byte>, i: nat, j: nat, k: nat)
    requires !InHex(p, style) && i < j < k < Stop(p, style)
    requires Plain(p[i], escape) && Plain(p[j], escape) && Plain(p[k], escape)
    ensures |Text(p, style, escape)| + 1 <= QuoteSize(|p|, style)
  {
    PlainSpares(p, i, j, escape);
    PlainSpares(p, j, k, escape);
    PlainSpares(p, k, Stop(p, style), escape);
    SizeSuffices(p, style, escape);
  }

  /** A comment never fits for the empty string. */
  lemma EmptyCommentExceeds(style: Style, escape: set<Byte>)
    requires style.comment
    ensures |Text([], style, escape)| + 1 > QuoteSize(0, style)
  {
    SizeSuffices([], style, escape);
  }

  /**
    * The bound of 3 + 4 * length bytes that the comment above the C function gives knows
    * neither comments nor ellipses: it holds exactly if the input leaves room for them.
    */
  lemma StatedBound(p: seq<Byte>, style: Style, escape: set<Byte>)
    ensures |Text(p, style, escape)| + 1 <= 3 + 4 * |p|
       <==> (if style.comment then 7 else 0) + (if style.ellipsis && !style.omitQuotes then 3 else 0)
            <= Slack(p, style, escape) + if style.omitQuotes then 2 else 0
  {
    TextSize(p, style, escape);
  }

  /** The empty string in quotes with an ellipsis goes beyond it. */
  lemma EmptyEllipsisExceeds(style: Style, escape: set<Byte>)
    requires style.ellipsis && !style.omitQuotes
    ensures |Text([], style, escape)| + 1 > 3
  {
    StatedBound([], style, escape);
  }

  // ---------- the writer ----------

  method UsesHex(p: seq<Byte>, length: nat, style: Style) returns (hex: bool)
    requires length <= |p|
    ensures hex == InHex(p[..length], style)
  {
    hex := style.allInHex;
    if !hex && style.nonAsciiInHex {
      ghost var q := p[..length];
      for i := 0 to length
        invariant forall k :: 0 <= k < i ==> !ForcesHex(q[k]) && (style.zeroTerminated ==> q[k] != 0)
      {
        var c: int := p[i];
        assert q[i] == c;
        if style.zeroTerminated && c == 0 { return; }
        if c > 0x7e { return true; }
        var offset := if c < 9 then c + 0x1_0000_0000 - 9 else c - 9;  // (unsigned) (c - 9)
        if c < 32 && offset >= 5 { return true; }
      }
    }
  }

  method Append(out: array<Byte>, s: nat, text: seq<Byte>) returns (t: nat)
    requires s + |text| <= out.Length
    modifies out
    ensures t == s + |text| && out[..t] == old(out[..s]) + text
  {
    for i := 0 to |text|
      invariant out[..s + i] == old(out[..s]) + text[..i]
    {
      out[s + i] := text[i];
      assert out[..s + i + 1] == out[..s + i] + [text[i]];
    }
    t := s + |text|;
  }

  method WriteHex(p: seq<Byte>, length: nat, zeroTerminated: bool, out: array<Byte>, start: nat)
    returns (s: nat, n: nat)
    requires length <= |p| && start + 4 * StopFrom(p[..length], 0, zeroTerminated, false) <= out.Length
    modifies out
    ensures n == StopFrom(p[..length], 0, zeroTerminated, false)
    ensures s == start + 4 * n && out[..s] == old(out[..start]) + HexBody(p[..length], n)
  {
    s, n := start, 0;
    ghost var q, before := p[..length], out[..start];
    while n < length
      invariant n <= length && StopFrom(q, n, zeroTerminated, false) == StopFrom(q, 0, zeroTerminated, false)
      invariant s == start + 4 * n && out[..s] == before + HexBody(q, n)
    {
      var c := p[n];
      if zeroTerminated && c == 0 { break; }
      s := Append(out, s, HexPiece(c));
      Regroup(before, HexBody(q, n), HexPiece(c));
      n := n + 1;
    }
  }

  /** What the plain loop writes for each byte of q. */
  ghost predicate ArePieces(pieces: seq<seq<Byte>>, q: seq<Byte>, escape: set<Byte>)
  {
    |pieces| == |q|
    && forall i {:trigger DigitAt(q, i + 1)} :: 0 <= i < |q| ==> pieces[i] == Piece(q[i], DigitAt(q, i + 1), escape)
  }

  lemma {:induction false} BodyIsJoined(q: seq<Byte>, n: nat, escape: set<Byte>, pieces: seq<seq<Byte>>)
    requires n <= |q| && ArePieces(pieces, q, escape)
    ensures Body(q, n, escape) == Joined(pieces[..n])
  {
    if n > 0 {
      BodyIsJoined(q, n - 1, escape, pieces);
      JoinedNext(pieces, n - 1);
    }
  }

  method AppendPiece(out: array<Byte>, s: nat, piece: seq<Byte>, ghost before: seq<Byte>, ghost pieces: seq<seq<Byte>>,
                     ghost n: nat, ghost stop: nat)
    returns (t: nat)
    requires n < stop <= |pieces| && piece == pieces[n]
    requires s <= out.Length && out[..s] == before + Joined(pieces[..n])
    requires |before| + |Joined(pieces[..stop])| <= out.Length
    modifies out
    ensures t <= out.Length && out[..t] == before + Joined(pieces[..n + 1])
  {
    JoinedNext(pieces, n);
    JoinedGrows(pieces, n + 1, stop);
    t := Append(out, s, piece);
    Regroup(before, Joined(pieces[..n]), piece);
  }

  /** The plain loop. */
  method WritePieces(p: seq<Byte>, length: nat, zeroTerminated: bool, omitTrailingZero: bool, escape: set<Byte>,
                     out: array<Byte>, start: nat, ghost pieces: seq<seq<Byte>>)
    returns (s: nat, n: nat)
    requires length <= |p| && start <= out.Length && ArePieces(pieces, p[..length], escape)
    requires start + |Joined(pieces[..StopFrom(p[..length], 0, zeroTerminated, omitTrailingZero)])| <= out.Length
    modifies out
    ensures n == StopFrom(p[..length], 0, zeroTerminated, omitTrailingZero)
    ensures s <= out.Length && out[..s] == old(out[..start]) + Joined(pieces[..n])
  {
    s, n := start, 0;
    ghost var q, before := p[..length], out[..start];
    ghost var stop := StopFrom(q, 0, zeroTerminated, omitTrailingZero);
    while n < length && !(p[n] == 0 && (zeroTerminated || (n == length - 1 && omitTrailingZero)))
      invariant n <= length && StopFrom(q, n, zeroTerminated, omitTrailingZero) == stop
      invariant s <= out.Length && out[..s] == before + Joined(pieces[..n])
    {
      var piece := WritePiece(p[n], n + 1 < length && 48 <= p[n + 1] <= 55, escape);
      assert piece == pieces[n] by { assert DigitAt(q, n + 1) == (n + 1 < length && 48 <= p[n + 1] <= 55); }
      s := AppendPiece(out, s, piece, before, pieces, n, stop);
      n := n + 1;
    }
  }

  method WritePlain(p: seq<Byte>, length: nat, zeroTerminated: bool, omitTrailingZero: bool, escape: set<Byte>,
                    out: array<Byte>, start: nat)
    returns (s: nat, n: nat)
    requires length <= |p| && start <= out.Length
    requires (var stop := StopFrom(p[..length], 0, zeroTerminated, omitTrailingZero);
              start + |Body(p[..length], stop, escape)| <= out.Length)
    modifies out
    ensures n == StopFrom(p[..length], 0, zeroTerminated, omitTrailingZero)
    ensures s <= out.Length && out[..s] == old(out[..start]) + Body(p[..length], n, escape)
  {
    ghost var q := p[..length];
    ghost var pieces := seq(length, i requires 0 <= i < length => Piece(q[i], DigitAt(q, i + 1), escape));
    BodyIsJoined(q, StopFrom(q, 0, zeroTerminated, omitTrailingZero), escape, pieces);
    s, n := WritePieces(p, length, zeroTerminated, omitTrailingZero, escape, out, start, pieces);
  }

  /** The switch of the plain loop. */
  method WritePiece(c: Byte, beforeDigit: bool, escape: set<Byte>) returns (r: seq<Byte>)
    ensures r == Piece(c, beforeDigit, escape)
  {
    if c == 34 || c == 92 { return [92, c]; }
    if c == 12 { return [92, 102]; }
    if c == 10 { return [92, 110]; }
    if c == 13 { return [92, 114]; }
    if c == 9 { return [92, 116]; }
    if c == 11 { return [92, 118]; }
    if 32 <= c < 127 && c !in escape { return [c]; }
    r := [92];
    if beforeDigit {
      r := r + [48 + c / 64] + [48 + c / 8 % 8];
    } else if c / 8 != 0 {
      if c / 64 != 0 { r := r + [48 + c / 64]; }
      r := r + [48 + c / 8 % 8];
    }
    r := r + [48 + c % 8];
  }

  method WriteBody(p: seq<Byte>, length: nat, style: Style, escape: set<Byte>, hex: bool, out: array<Byte>, start: nat)
    returns (s: nat, n: nat)
    requires length <= |p| && hex == InHex(p[..length], style) && start <= out.Length
    requires start + |Quoted(p[..length], Stop(p[..length], style), hex, escape)| <= out.Length
    modifies out
    ensures n == Stop(p[..length], style)
    ensures s <= out.Length && out[..s] == old(out[..start]) + Quoted(p[..length], n, hex, escape)
  {
    if hex {
      s, n := WriteHex(p, length, style.zeroTerminated, out, start);
    } else {
      s, n := WritePlain(p, length, style.zeroTerminated, style.omitTrailingZero, escape, out, start);
    }
  }

  lemma NoZero(p: seq<Byte>, i: nat, omitTrailingZero: bool)
    requires i < |p| == StopFrom(p, 0, true, omitTrailingZero)
    ensures p[i] != 0
  {
    assert !Ends(p, i, true, omitTrailingZero);
  }

  method IsComplete(p: seq<Byte>, length: nat, stop: nat, style: Style) returns (complete: bool)
    requires length <= |p| && stop == Stop(p[..length], style)
    requires style.zeroTerminated && (forall i :: 0 <= i < length ==> p[i] != 0) ==> length < |p|
    ensures complete == (stop < length || (style.zeroTerminated && length < |p| && p[length] == 0))
  {
    complete := true;
    if stop == length {
      ghost var q := p[..length];
      if style.zeroTerminated {
        forall i | 0 <= i < length ensures p[i] != 0 { NoZero(q, i, style.omitTrailingZero && !InHex(q, style)); }
      }
      if !style.zeroTerminated || p[length] != 0 { complete := false; }
    }
  }

  method Terminate(out: array<Byte>, s: nat, style: Style) returns (t: nat)
    requires s + |Closing(style)| < out.Length
    modifies out
    ensures t == s + |Closing(style)| && out[..t] == old(out[..s]) + Closing(style) && out[t] == 0
  {
    t := Append(out, s, Closing(style));
    out[t] := 0;
  }

  /**
    * cat_str_quote_ex2 into a buffer that has room for the text and its NUL.  A
    * zero-terminated string has a zero after its length bytes unless one is among them.
    * The result tells whether the string was complete.
    */
  method QuoteEx2(p: seq<Byte>, length: nat, out: array<Byte>, style: Style, escape: set<Byte>)
    returns (complete: bool, outLength: nat)
    requires length <= |p|
    requires style.zeroTerminated && (forall i :: 0 <= i < length ==> p[i] != 0) ==> length < |p|
    requires |Text(p[..length], style, escape)| < out.Length
    modifies out
    ensures outLength < out.Length && out[outLength] == 0
    ensures out[..outLength] == Text(p[..length], style, escape)
    ensures complete == (Stop(p[..length], style) < length || (style.zeroTerminated && length < |p| && p[length] == 0))
  {
    var hex := UsesHex(p, length, style);
    var s := Append(out, 0, Opening(style));
    assert out[..s] == Opening(style);
    var stop;
    s, stop := WriteBody(p, length, style, escape, hex, out, s);
    complete := IsComplete(p, length, stop, style);
    outLength := Terminate(out, s, style);
  }
}
