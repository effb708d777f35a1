/**
  * Which strings inet_pton6 accepts, and what they stand for: groups of one to four
  * hexadecimal digits between colons, at most one "::", and perhaps a dotted IPv4 tail.
  */
module Inet6Grammar {
  import opened Common
  import opened Inet4
  import opened Inet6

  // ---------- the grammar ----------

  datatype Item = Group(digits: string) | Dotted(octets: seq<Byte>)

  predicate AreHex(s: string)
  {
    forall i :: 0 <= i < |s| ==> HexDigitOf(s[i]).Some?
  }

  predicate IsItem(x: Item)
  {
    match x
    case Group(digits) => 1 <= |digits| <= 4 && AreHex(digits)
    case Dotted(octets) => |octets| == 4
  }

  /** Items of which only the last may be dotted. */
  predicate AreItems(xs: seq<Item>)
  {
    xs == [] || (IsItem(xs[0]) && (|xs| > 1 ==> xs[0].Group?) && AreItems(xs[1..]))
  }

  predicate AreGroups(xs: seq<Item>)
    ensures AreGroups(xs) ==> AreItems(xs)
  {
    xs == [] || (IsItem(xs[0]) && xs[0].Group? && AreGroups(xs[1..]))
  }

  /** The number val with the digits of s written behind it. */
  function Appended(val: nat, s: string): nat
    requires AreHex(s)
    decreases |s|
  {
    if s == [] then val else Appended(val * 16 + HexDigitOf(s[0]).value, s[1..])
  }

  lemma {:induction false} AppendedBound(val: nat, s: string, seen: nat)
    requires AreHex(s) && seen + |s| <= 4 && val < Power16(seen)
    ensures Appended(val, s) < Power16(seen + |s|)
    decreases |s|
  {
    if s != [] {
      ParseHexDigit(s[0], [], [], [], None, seen, val);
      AppendedBound(val * 16 + HexDigitOf(s[0]).value, s[1..], seen + 1);
    }
  }

  function GroupValue(digits: string): Word
    requires IsItem(Group(digits))
  {
    AppendedBound(0, digits, 0);
    Appended(0, digits)
  }

  function TextOf(x: Item): string
    requires IsItem(x)
  {
    match x
    case Group(digits) => digits
    case Dotted(octets) => Text4(octets)
  }

  function ValueOf(x: Item): seq<Byte>
    requires IsItem(x)
  {
    match x
    case Group(digits) => WordBytes(GroupValue(digits))
    case Dotted(octets) => octets
  }

  /** The items with colons between them. */
  function Side(xs: seq<Item>): string
    requires AreItems(xs)
  {
    if xs == [] then "" else if |xs| == 1 then TextOf(xs[0]) else TextOf(xs[0]) + ":" + Side(xs[1..])
  }

  function SideValue(xs: seq<Item>): seq<Byte>
    requires AreItems(xs)
  {
    if xs == [] then [] else ValueOf(xs[0]) + SideValue(xs[1..])
  }

  datatype Address = Full(items: seq<Item>) | Gapped(left: seq<Item>, right: seq<Item>)

  /** Sixteen bytes in all, or fewer with "::" for those that are missing; "::" never stands for none. */
  predicate IsAddress(a: Address)
  {
    match a
    case Full(items) => AreItems(items) && |SideValue(items)| == 16
    case Gapped(left, right) => AreGroups(left) && AreItems(right) && |SideValue(left)| + |SideValue(right)| < 16
  }

  function AddressText(a: Address): string
    requires IsAddress(a)
  {
    match a
    case Full(items) => Side(items)
    case Gapped(left, right) => Side(left) + "::" + Side(right)
  }

  function AddressValue(a: Address): (b: seq<Byte>)
    requires IsAddress(a)
    ensures |b| == 16
  {
    match a
    case Full(items) => SideValue(items)
    case Gapped(left, right) =>
      var l, r := SideValue(left), SideValue(right);
      l + ZeroBytes(16 - |l| - |r|) + r
  }

  // ---------- one token ----------

  lemma {:induction false} ParseDigits(s: string, rest: string, tok: string, out: seq<Byte>, cp: Option<nat>, seen: nat,
                                       val: nat)
    requires AreHex(s) && seen + |s| <= 4 && (seen == 0 ==> val == 0) && val < Power16(seen)
    requires cp.Some? ==> cp.value <= |out|
    ensures Appended(val, s) < Power16(seen + |s|)
    ensures Parse6(s + rest, tok, out, cp, seen, val) == Parse6(rest, tok, out, cp, seen + |s|, Appended(val, s))
    decreases |s|
  {
    AppendedBound(val, s, seen);
    if s == [] {
      assert s + rest == rest;
    } else {
      assert s + rest == [s[0]] + (s[1..] + rest);
      ParseHexDigit(s[0], s[1..] + rest, tok, out, cp, seen, val);
      ParseDigits(s[1..], rest, tok, out, cp, seen + 1, val * 16 + HexDigitOf(s[0]).value);
    }
  }

  /** How many hexadecimal digits s begins with. */
  function HexRun(s: string): (n: nat)
    ensures n <= |s| && AreHex(s[..n]) && (n < |s| ==> HexDigitOf(s[n]).None?)
  {
    if s == [] || HexDigitOf(s[0]).None? then 0 else 1 + HexRun(s[1..])
  }

  lemma {:induction false} TooManyDigits(s: string, tok: string, out: seq<Byte>, cp: Option<nat>, seen: nat, val: nat)
    requires seen <= 4 < seen + HexRun(s) && (seen == 0 ==> val == 0) && val < Power16(seen)
    requires cp.Some? ==> cp.value <= |out|
    ensures Parse6(s, tok, out, cp, seen, val) == None
    decreases |s|
  {
    if seen < 4 {
      ParseHexDigit(s[0], s[1..], tok, out, cp, seen, val);
      assert s == [s[0]] + s[1..];
      TooManyDigits(s[1..], tok, out, cp, seen + 1, val * 16 + HexDigitOf(s[0]).value);
    }
  }

  /** The digits at the beginning of a token, and what the parser does behind them. */
  lemma {:induction false} ParseToken(tok: string, out: seq<Byte>, cp: Option<nat>, n: nat)
    requires n == HexRun(tok) && (cp.Some? ==> cp.value <= |out|)
    ensures n > 4 ==> Parse6(tok, tok, out, cp, 0, 0) == None
    ensures n <= 4 ==> Appended(0, tok[..n]) < Power16(n)
    ensures n <= 4 ==> Parse6(tok, tok, out, cp, 0, 0) == Parse6(tok[n..], tok, out, cp, n, Appended(0, tok[..n]))
  {
    if n > 4 {
      TooManyDigits(tok, tok, out, cp, 0, 0);
    } else {
      ParseDigits(tok[..n], tok[n..], tok, out, cp, 0, 0);
      assert tok[..n] + tok[n..] == tok;
    }
  }

  /** A word still pending at the end is a word stored. */
  lemma FinishWord(out: seq<Byte>, cp: Option<nat>, seen: nat, val: Word)
    requires seen > 0 && (cp.Some? ==> cp.value <= |out|)
    ensures Finish6(out, cp, seen, val) == Finish6(out + WordBytes(val), cp, 0, 0)
  {
  }

  // ---------- from the text to the grammar ----------

  /** Every item followed by a colon. */
  function Ended(xs: seq<Item>): string
    requires AreGroups(xs)
  {
    if xs == [] then "" else TextOf(xs[0]) + ":" + Ended(xs[1..])
  }

  /** What is left of an address with "::", from the beginning of a token on. */
  function GapText(left: seq<Item>, right: seq<Item>): string
    requires AreGroups(left) && AreItems(right)
  {
    Ended(left) + (":" + Side(right))
  }

  lemma GapTextStep(left: seq<Item>, right: seq<Item>)
    requires AreGroups(left) && AreItems(right) && left != []
    ensures GapText(left, right) == left[0].digits + ":" + GapText(left[1..], right)
  {
    Regroup(left[0].digits + ":", Ended(left[1..]), ":" + Side(right));
  }

  lemma GapTextStart(right: seq<Item>)
    requires AreItems(right)
    ensures GapText([], right) == ":" + Side(right)
  {
    assert "" + (":" + Side(right)) == ":" + Side(right);
  }

  /** What is left to read, from the beginning of a token on, as the rest of an address. */
  ghost predicate Reads(a: Address, tok: string, out: seq<Byte>, cp: Option<nat>, b: seq<Byte>)
    requires cp.Some? ==> cp.value <= |out|
  {
    match a
    case Full(items) =>
      AreItems(items) && tok == Side(items) && Finish6(out + SideValue(items), cp, 0, 0) == Some(b)
    case Gapped(left, right) =>
      && cp == None && AreGroups(left) && AreItems(right) && tok == GapText(left, right)
      && Finish6(out + SideValue(left) + SideValue(right), Some(|out + SideValue(left)|), 0, 0) == Some(b)
  }

  function Before(x: Item, a: Address): Address
  {
    match a
    case Full(items) => Full([x] + items)
    case Gapped(left, right) => Gapped([x] + left, right)
  }

  /** A group and a colon before the rest of an address. */
  lemma ReadsBefore(digits: string, a: Address, tok: string, out: seq<Byte>, cp: Option<nat>, b: seq<Byte>)
    requires IsItem(Group(digits)) && tok != [] && (cp.Some? ==> cp.value <= |out|)
    requires Reads(a, tok, out + WordBytes(GroupValue(digits)), cp, b)
    ensures Reads(Before(Group(digits), a), digits + ":" + tok, out, cp, b)
  {
    var x, w := Group(digits), WordBytes(GroupValue(digits));
    match a
    case Full(items) =>
      assert ([x] + items)[1..] == items;
      Regroup(out, w, SideValue(items));
    case Gapped(left, right) =>
      assert ([x] + left)[1..] == left;
      Regroup(out, w, SideValue(left));
      GapTextStep([x] + left, right);
  }

  /** The last token: nothing, a group, or a dotted tail. */
  lemma {:induction false} ParsedLast(tok: string, out: seq<Byte>, cp: Option<nat>, b: seq<Byte>) returns (a: Address)
    requires (cp.Some? ==> cp.value <= |out|) && Parse6(tok, tok, out, cp, 0, 0) == Some(b)
    requires HexRun(tok) == |tok| || tok[HexRun(tok)] == '.'
    ensures Reads(a, tok, out, cp, b)
  {
    var n := HexRun(tok);
    ParseToken(tok, out, cp, n);
    if n < |tok| {
      var octets := Pton4(tok).value;
      Accepts4Exactly(tok, octets);
      a := Full([Dotted(octets)]);
      assert octets + [] == octets;
    } else if n == 0 {
      a := Full([]);
      assert out + [] == out;
    } else {
      assert tok[..n] == tok;
      a := Full([Group(tok)]);
      var w := GroupValue(tok);
      FinishWord(out, cp, n, w);
      assert WordBytes(w) + [] == WordBytes(w);
    }
  }

  /** A token that a colon ends: nothing before the second colon of "::", or a group. */
  lemma {:induction false} ParseColon(tok: string, out: seq<Byte>, cp: Option<nat>, n: nat, rest: string)
    requires (cp.Some? ==> cp.value <= |out|) && Parse6(tok, tok, out, cp, 0, 0).Some?
    requires n == HexRun(tok) < |tok| && tok[n] != '.' && rest == tok[n + 1..]
    ensures tok == tok[..n] + ":" + rest && n <= 4
    ensures n == 0 ==> cp == None && Parse6(tok, tok, out, cp, 0, 0) == Parse6(rest, rest, out, Some(|out|), 0, 0)
    ensures n > 0 ==> rest != [] && IsItem(Group(tok[..n]))
    ensures n > 0 ==> (var w := WordBytes(GroupValue(tok[..n]));
                       Parse6(tok, tok, out, cp, 0, 0) == Parse6(rest, rest, out + w, cp, 0, 0))
  {
    ParseToken(tok, out, cp, n);
    assert tok[n..][1..] == rest;
  }

  lemma ReadsGap(right: seq<Item>, rest: string, out: seq<Byte>, b: seq<Byte>)
    requires Reads(Full(right), rest, out, Some(|out|), b)
    ensures Reads(Gapped([], right), ":" + rest, out, None, b)
  {
    GapTextStart(right);
    assert out + [] == out;
  }

  /** Whatever is accepted from the beginning of a token on is the rest of an address. */
  lemma {:induction false} Parsed(tok: string, out: seq<Byte>, cp: Option<nat>, b: seq<Byte>) returns (a: Address)
    requires (cp.Some? ==> cp.value <= |out|) && Parse6(tok, tok, out, cp, 0, 0) == Some(b)
    ensures Reads(a, tok, out, cp, b)
    decreases |tok|
  {
    var n := HexRun(tok);
    if n == |tok| || tok[n] == '.' {
      a := ParsedLast(tok, out, cp, b);
    } else {
      var digits, rest := tok[..n], tok[n + 1..];
      ParseColon(tok, out, cp, n, rest);
      if n == 0 {
        var a' := Parsed(rest, out, Some(|out|), b);
        a := Gapped([], a'.items);
        ReadsGap(a'.items, rest, out, b);
      } else {
        var a' := Parsed(rest, out + WordBytes(GroupValue(digits)), cp, b);
        a := Before(Group(digits), a');
        ReadsBefore(digits, a', rest, out, cp, b);
      }
    }
  }

  // ---------- from the grammar to the text ----------

  lemma {:induction false} DecimalFirst(n: nat)
    ensures HexDigitOf(Decimal(n)[0]).Some?
  {
    if n >= 10 { DecimalFirst(n / 10); }
  }

  lemma FirstIsHex(xs: seq<Item>)
    requires AreItems(xs) && xs != []
    ensures Side(xs) != [] && HexDigitOf(Side(xs)[0]).Some?
  {
    if xs[0].Dotted? { DecimalFirst(xs[0].octets[0]); }
  }

  /** A group and its colon store a word. */
  lemma ParseWord(digits: string, more: string, out: seq<Byte>, cp: Option<nat>)
    requires IsItem(Group(digits)) && more != [] && |out| + 2 <= 16 && (cp.Some? ==> cp.value <= |out|)
    ensures var tok := digits + ":" + more;
            Parse6(tok, tok, out, cp, 0, 0) == Parse6(more, more, out + WordBytes(GroupValue(digits)), cp, 0, 0)
  {
    var tok, rest := digits + ":" + more, ":" + more;
    assert tok == digits + rest && rest[1..] == more;
    ParseDigits(digits, rest, tok, out, cp, 0, 0);
  }

  lemma ReadLast(x: Item, out: seq<Byte>, cp: Option<nat>)
    requires IsItem(x) && (cp.Some? ==> cp.value <= |out|) && |out + ValueOf(x)| <= 16
    ensures Parse6(TextOf(x), TextOf(x), out, cp, 0, 0) == Finish6(out + ValueOf(x), cp, 0, 0)
  {
    match x
    case Dotted(octets) => Parse4Tail(octets, out, cp);
    case Group(digits) =>
      ParseDigits(digits, [], digits, out, cp, 0, 0);
      assert digits + [] == digits;
      FinishWord(out, cp, |digits|, GroupValue(digits));
  }

  lemma {:induction false} ReadSide(xs: seq<Item>, out: seq<Byte>, cp: Option<nat>)
    requires AreItems(xs) && (cp.Some? ==> cp.value <= |out|) && |out + SideValue(xs)| <= 16
    ensures Parse6(Side(xs), Side(xs), out, cp, 0, 0) == Finish6(out + SideValue(xs), cp, 0, 0)
    decreases |xs|
  {
    if xs == [] {
      assert out + [] == out;
    } else {
      var w := ValueOf(xs[0]);
      Regroup(out, w, SideValue(xs[1..]));
      if |xs| == 1 {
        assert w + [] == w;
        ReadLast(xs[0], out, cp);
      } else {
        FirstIsHex(xs[1..]);
        ParseWord(xs[0].digits, Side(xs[1..]), out, cp);
        ReadSide(xs[1..], out + w, cp);
      }
    }
  }

  lemma {:induction false} ReadGapped(left: seq<Item>, right: seq<Item>, out: seq<Byte>, tok: string)
    requires AreGroups(left) && AreItems(right) && |out + SideValue(left) + SideValue(right)| <= 16
    requires tok == GapText(left, right)
    ensures Parse6(tok, tok, out, None, 0, 0)
         == Finish6(out + SideValue(left) + SideValue(right), Some(|out + SideValue(left)|), 0, 0)
    decreases |left|
  {
    if left == [] {
      GapTextStart(right);
      assert out + [] == out && tok[1..] == Side(right);
      ReadSide(right, out, Some(|out|));
    } else {
      var w, more := ValueOf(left[0]), GapText(left[1..], right);
      Regroup(out, w, SideValue(left[1..]));
      GapTextStep(left, right);
      ParseWord(left[0].digits, more, out, None);
      ReadGapped(left[1..], right, out + w, more);
    }
  }

  lemma {:induction false} EndedIsSide(xs: seq<Item>)
    requires AreGroups(xs) && xs != []
    ensures Ended(xs) == Side(xs) + ":"
  {
    if |xs| > 1 {
      EndedIsSide(xs[1..]);
    } else {
      assert Ended(xs[1..]) == "";
    }
  }

  // ---------- main result ----------

  ghost predicate Denotes(s: string, b: seq<Byte>)
  {
    exists a :: IsAddress(a) && AddressText(a) == s && AddressValue(a) == b
  }

  lemma TwoColons(l: string, r: string)
    ensures l + "::" + r == (l + ":") + (":" + r)
  {
  }

  /** How the text of an address with "::" begins. */
  lemma GapTextBegins(left: seq<Item>, right: seq<Item>, s: string)
    requires AreGroups(left) && AreItems(right) && s == Side(left) + "::" + Side(right)
    ensures left == [] ==> s == ":" + GapText(left, right) && GapText(left, right)[0] == ':'
    ensures left != [] ==> s == GapText(left, right) && s[0] != ':'
  {
    TwoColons(Side(left), Side(right));
    if left == [] {
      GapTextStart(right);
      assert "" + ":" == ":";
    } else {
      EndedIsSide(left);
      FirstIsHex(left);
    }
  }

  lemma FinishGap(l: seq<Byte>, r: seq<Byte>)
    ensures Finish6([] + l + r, Some(|[] + l|), 0, 0)
         == if |l| + |r| < 16 then Some(l + ZeroBytes(16 - |l| - |r|) + r) else None
  {
    assert [] + l == l && (l + r)[..|l|] == l && (l + r)[|l|..] == r;
  }

  lemma FullIsRead(items: seq<Item>)
    requires IsAddress(Full(items))
    ensures Pton6(Side(items)) == Some(SideValue(items))
  {
    FirstIsHex(items);
    ReadSide(items, [], None);
    assert [] + SideValue(items) == SideValue(items);
  }

  lemma GappedIsRead(left: seq<Item>, right: seq<Item>, s: string)
    requires IsAddress(Gapped(left, right)) && s == AddressText(Gapped(left, right))
    ensures Pton6(s) == Some(AddressValue(Gapped(left, right)))
  {
    var tok := GapText(left, right);
    GapTextBegins(left, right, s);
    FinishGap(SideValue(left), SideValue(right));
    ReadGapped(left, right, [], tok);
    PtonFrom(s, tok);
  }

  /** The first of two colons at the beginning is skipped. */
  lemma PtonFrom(s: string, tok: string)
    requires tok != [] && s == (if tok[0] == ':' then ":" + tok else tok)
    ensures Pton6(s) == Parse6(tok, tok, [], None, 0, 0)
  {
    assert tok[0] == ':' ==> s[1..] == tok;
  }

  lemma ReadIsFull(s: string, b: seq<Byte>, tok: string, items: seq<Item>)
    requires Pton6(s) == Some(b) && tok == (if s != [] && s[0] == ':' then s[1..] else s)
    requires Reads(Full(items), tok, [], None, b)
    ensures IsAddress(Full(items)) && Side(items) == s && SideValue(items) == b
  {
    assert [] + SideValue(items) == SideValue(items);
    FirstIsHex(items);
  }

  lemma ReadIsGapped(s: string, b: seq<Byte>, tok: string, left: seq<Item>, right: seq<Item>)
    requires Pton6(s) == Some(b) && tok == (if s != [] && s[0] == ':' then s[1..] else s)
    requires Reads(Gapped(left, right), tok, [], None, b)
    ensures var a := Gapped(left, right); IsAddress(a) && AddressText(a) == s && AddressValue(a) == b
  {
    GapTextBegins(left, right, Side(left) + "::" + Side(right));
    FinishGap(SideValue(left), SideValue(right));
    assert s[0] == ':' ==> s == ":" + tok;
  }

  /** inet_pton6 accepts exactly the texts of the grammar, and reads their value. */
  lemma Accepts6Exactly(s: string, b: seq<Byte>)
    ensures Pton6(s) == Some(b) <==> Denotes(s, b)
  {
    if Pton6(s) == Some(b) {
      var tok := if s != [] && s[0] == ':' then s[1..] else s;
      var a := Parsed(tok, [], None, b);
      match a
      case Full(items) => ReadIsFull(s, b, tok, items);
      case Gapped(left, right) => ReadIsGapped(s, b, tok, left, right);
      assert IsAddress(a) && AddressText(a) == s && AddressValue(a) == b;
    }
    if Denotes(s, b) {
      var a :| IsAddress(a) && AddressText(a) == s && AddressValue(a) == b;
      match a
      case Full(items) => FullIsRead(items);
      case Gapped(left, right) => GappedIsRead(left, right, s);
    }
  }

  // ---------- the texts that are printed ----------

  predicate AreLower(s: string)
  {
    forall i :: 0 <= i < |s| ==> '0' <= s[i] <= '9' || 'a' <= s[i] <= 'f'
  }

  /** A group in lower case and without zeros before it. */
  predicate IsShort(s: string)
  {
    IsItem(Group(s)) && AreLower(s) && (|s| > 1 ==> s[0] != '0')
  }

  lemma {:induction false} AppendedOne(val: nat, s: string, c: char)
    requires AreHex(s) && HexDigitOf(c).Some?
    ensures AreHex(s + [c]) && Appended(val, s + [c]) == Appended(val, s) * 16 + HexDigitOf(c).value
    decreases |s|
  {
    if s != [] {
      assert (s + [c])[1..] == s[1..] + [c];
      AppendedOne(val * 16 + HexDigitOf(s[0]).value, s[1..], c);
    }
  }

  /** What is printed for a word is short, and stands for it. */
  lemma {:induction false} HexIsShort(w: Word)
    ensures IsShort(Hex(w)) && GroupValue(Hex(w)) == w && (w > 0 ==> Hex(w)[0] != '0')
    decreases w
  {
    HexBounds(w);
    if w >= 16 {
      HexIsShort(w / 16);
      AppendedOne(0, Hex(w / 16), HexDigit(w % 16));
    } else {
      assert Appended(0, Hex(w)) == Appended(0 * 16 + w, Hex(w)[1..]);
    }
  }

  function Groups(words: seq<Word>): (xs: seq<Item>)
    ensures |xs| == |words| && forall i :: 0 <= i < |xs| ==> xs[i] == Group(Hex(words[i]))
  {
    if words == [] then [] else [Group(Hex(words[0]))] + Groups(words[1..])
  }

  lemma {:induction false} GroupsAreGroups(words: seq<Word>)
    ensures AreGroups(Groups(words))
  {
    if words != [] {
      HexIsShort(words[0]);
      GroupsAreGroups(words[1..]);
      assert Groups(words)[1..] == Groups(words[1..]);
    }
  }

  lemma BytesOfFirst(words: seq<Word>)
    requires words != []
    ensures BytesOf(words) == WordBytes(words[0]) + BytesOf(words[1..])
  {
    assert words == [words[0]] + words[1..] && [words[0]][..0] == [];
    BytesOfConcat([words[0]], words[1..]);
    assert BytesOf([words[0]]) == [] + WordBytes(words[0]);
  }

  lemma {:induction false} GroupsValue(words: seq<Word>)
    ensures AreGroups(Groups(words)) && SideValue(Groups(words)) == BytesOf(words)
  {
    GroupsAreGroups(words);
    if words != [] {
      var xs := Groups(words);
      HexIsShort(words[0]);
      assert xs[1..] == Groups(words[1..]);
      GroupsValue(words[1..]);
      BytesOfFirst(words);
    }
  }

  lemma SideOfGroups(words: seq<Word>)
    requires words != []
    ensures AreGroups(Groups(words)) && AreGroups(Groups(words[1..]))
    ensures Side(Groups(words)) == Hex(words[0]) + if |words| == 1 then "" else ":" + Side(Groups(words[1..]))
  {
    GroupsAreGroups(words);
    GroupsAreGroups(words[1..]);
    assert Groups(words)[1..] == Groups(words[1..]);
    if |words| > 1 { Regroup(Hex(words[0]), ":", Side(Groups(words[1..]))); }
  }

  /** Behind the run, or without one, the words are printed as groups with colons between them. */
  lemma {:induction false} TokenIsSide(words: seq<Word>, r: Run, i: nat)
    requires |words| == 8 && i < 8 && !(Embeds4(words, r) && !Inside(r, 6))
    requires r.base == -1 || (0 <= r.base && r.base + r.len <= i)
    ensures AreGroups(Groups(words[i..])) && TokenFrom(words, r, i) == Side(Groups(words[i..]))
    decreases 8 - i
  {
    assert words[i..][1..] == words[i + 1..];
    SideOfGroups(words[i..]);
    if i < 7 { TokenIsSide(words, r, i + 1); }
  }

  /** Before it, up to the two colons. */
  lemma {:induction false} TokenToRun(words: seq<Word>, r: Run, i: nat)
    requires |words| == 8 && ZeroRun(words, r) && i < r.base && !Embeds4(words, r)
    ensures AreGroups(Groups(words[i..r.base]))
    ensures TokenFrom(words, r, i) == Side(Groups(words[i..r.base])) + TextFrom(words, r, r.base)
    decreases 8 - i
  {
    var part := words[i..r.base];
    assert part[1..] == words[i + 1..r.base];
    SideOfGroups(part);
    if i + 1 < r.base {
      TokenToRun(words, r, i + 1);
      Regroup(Hex(words[i]), ":" + Side(Groups(part[1..])), TextFrom(words, r, r.base));
      Regroup(":", Side(Groups(part[1..])), TextFrom(words, r, r.base));
    }
  }

  lemma AfterRunText(words: seq<Word>, r: Run, j: nat)
    requires |words| == 8 && ZeroRun(words, r) && r.base != -1 && j == r.base + r.len
    requires !(Embeds4(words, r) && !Inside(r, 6))
    ensures AreGroups(Groups(words[j..])) && TextFrom(words, r, j) == ":" + Side(Groups(words[j..]))
  {
    GroupsAreGroups(words[j..]);
    if j < 8 {
      TokenColon(words, r, j);
      TokenIsSide(words, r, j);
    } else {
      assert words[j..] == [] && ":" + "" == ":";
    }
  }

  /** The two colons and what follows them. */
  lemma RunText(words: seq<Word>, r: Run)
    requires |words| == 8 && ZeroRun(words, r) && r.base != -1 && !(Embeds4(words, r) && !Inside(r, 6))
    ensures AreGroups(Groups(words[r.base + r.len..]))
    ensures TextFrom(words, r, r.base) == "::" + Side(Groups(words[r.base + r.len..]))
  {
    var j := r.base + r.len;
    RunColon(words, r, j);
    AfterRunText(words, r, j);
    TailTogether(Side(Groups(words[j..])));
  }

  lemma NothingBefore(s: string)
    ensures "" + s == s
  {
  }

  lemma PrintedGapped(words: seq<Word>, r: Run, left: seq<Item>, right: seq<Item>)
    requires |words| == 8 && ZeroRun(words, r) && r.base != -1 && !(Embeds4(words, r) && !Inside(r, 6))
    requires left == Groups(words[..r.base]) && right == Groups(words[r.base + r.len..])
    ensures AreGroups(left) && AreGroups(right) && TextFrom(words, r, 0) == Side(left) + "::" + Side(right)
  {
    RunText(words, r);
    GroupsAreGroups(words[..r.base]);
    Regroup(Side(left), "::", Side(right));
    if r.base > 0 {
      TokenToRun(words, r, 0);
      assert words[0..r.base] == words[..r.base];
    } else {
      NothingBefore("::" + Side(right));
    }
  }

  /** "::" is printed exactly if two neighbouring words are zero. */
  lemma RunWhenTwo(words: seq<Word>, r: Run)
    requires |words| == 8 && ZeroRun(words, r) && IsLongest(words, r)
    ensures r.base != -1 <==> exists i :: 0 <= i < 7 && words[i] == 0 && words[i + 1] == 0
  {
    if i :| 0 <= i < 7 && words[i] == 0 && words[i + 1] == 0 {
      assert Zeros(words, i, 2);
    }
    if r.base != -1 { assert words[r.base] == 0 && words[r.base + 1] == 0; }
  }

  /**
    * The canonical text, where it has no dotted tail: short groups with colons between them,
    * and "::" in place of the leftmost longest run if two neighbouring words are zero.
    */
  lemma PrintedGroups(src: seq<Byte>, text: string) returns (words: seq<Word>, r: Run)
    requires |src| == 16 && Prints(src, text) && !IsMapped4(src) && !IsCompatible4(src)
    ensures |words| == 8 && BytesOf(words) == src && ZeroRun(words, r) && IsLongest(words, r)
    ensures r.base == -1 ==> AreGroups(Groups(words)) && text == Side(Groups(words))
    ensures r.base != -1 ==> (var left, right := Groups(words[..r.base]), Groups(words[r.base + r.len..]);
                              AreGroups(left) && AreGroups(right) && text == Side(left) + "::" + Side(right))
    ensures r.base != -1 <==> exists i :: 0 <= i < 7 && words[i] == 0 && words[i + 1] == 0
  {
    words, r :| BytesOf(words) == src && PrintsWith(words, r, text);
    TailWhen(src, words, r);
    RunWhenTwo(words, r);
    if r.base == -1 {
      assert words[0..] == words;
      TokenIsSide(words, r, 0);
    } else {
      PrintedGapped(words, r, Groups(words[..r.base]), Groups(words[r.base + r.len..]));
    }
  }
}
