/**
  * The payload masking of cat_websocket.c, with its path of eight bytes at a time, on a
  * little-endian host.  Words are numbers, and exclusive or is spelled out bit by bit.
  */
module WebSocketMask {
  import opened Common

  type Octets = seq<Byte>

  const TWO_64 := 0x1_0000_0000_0000_0000

  // ---------- exclusive or ----------

  function Pow2(n: nat): (p: nat)
    ensures p >= 1
  {
    if n == 0 then 1 else 2 * Pow2(n - 1)
  }

  /** The exclusive or of the lowest n bits. */
  function Xor(a: nat, b: nat, n: nat): nat
  {
    if n == 0 then 0 else (a + b) % 2 + 2 * Xor(a / 2, b / 2, n - 1)
  }

  lemma {:induction false} XorFits(a: nat, b: nat, n: nat)
    ensures Xor(a, b, n) < Pow2(n)
  {
    if n > 0 { XorFits(a / 2, b / 2, n - 1); }
  }

  /** Bit i of a. */
  function Bit(a: nat, i: nat): nat
  {
    if i == 0 then a % 2 else Bit(a / 2, i - 1)
  }

  lemma LowBit(bit: nat, rest: nat)
    requires bit < 2
    ensures (bit + 2 * rest) % 2 == bit && (bit + 2 * rest) / 2 == rest
  {
  }

  /** A bit of the exclusive or is set exactly if the bits differ. */
  lemma {:induction false} XorBits(a: nat, b: nat, n: nat, i: nat)
    requires i < n
    ensures Bit(Xor(a, b, n), i) == if Bit(a, i) != Bit(b, i) then 1 else 0
    decreases n
  {
    XorHalves(a, b, n);
    if i == 0 { Differ(a, b); } else { XorBits(a / 2, b / 2, n - 1, i - 1); }
  }

  lemma XorHalves(a: nat, b: nat, n: nat)
    requires n > 0
    ensures Xor(a, b, n) % 2 == (a + b) % 2 && Xor(a, b, n) / 2 == Xor(a / 2, b / 2, n - 1)
  {
    LowBit((a + b) % 2, Xor(a / 2, b / 2, n - 1));
  }

  lemma Differ(a: nat, b: nat)
    ensures (a + b) % 2 == if a % 2 != b % 2 then 1 else 0
  {
  }

  lemma BitTwice(a: nat, b: nat, bit: nat, rest: nat)
    requires bit == (a + b) % 2
    ensures (bit + 2 * rest) / 2 == rest && (bit + 2 * rest + b) % 2 == a % 2
  {
  }

  lemma {:induction false} XorTwice(a: nat, b: nat, n: nat)
    requires a < Pow2(n)
    ensures Xor(Xor(a, b, n), b, n) == a
  {
    if n > 0 {
      XorTwice(a / 2, b / 2, n - 1);
      BitTwice(a, b, (a + b) % 2, Xor(a / 2, b / 2, n - 1));
    }
  }

  lemma {:induction false} XorZero(a: nat, n: nat)
    requires a < Pow2(n)
    ensures Xor(a, 0, n) == a
  {
    if n > 0 { XorZero(a / 2, n - 1); }
  }

  lemma {:induction false} XorCommutes(a: nat, b: nat, n: nat)
    ensures Xor(a, b, n) == Xor(b, a, n)
  {
    if n > 0 { XorCommutes(a / 2, b / 2, n - 1); }
  }

  lemma TimesTwice(half: nat, x: nat)
    ensures Times(2 * half, x) == 2 * Times(half, x)
  {
  }

  lemma SumParity(p: nat, q: nat, a: nat, b: nat)
    requires p % 2 == a % 2 && q % 2 == b % 2
    ensures (p + q) % 2 == (a + b) % 2
  {
  }

  lemma Halve(a: nat, high: nat)
    ensures (a + 2 * high) / 2 == a / 2 + high && (a + 2 * high) % 2 == a % 2
  {
  }

  lemma XorAbove(a: nat, u: nat, b: nat, v: nat, n: nat)
    requires n > 0
    ensures Xor(a + 2 * u, b + 2 * v, n) == (a + b) % 2 + 2 * Xor(a / 2 + u, b / 2 + v, n - 1)
  {
    Halve(a, u);
    Halve(b, v);
    SumParity(a + 2 * u, b + 2 * v, a, b);
  }

  /** Exclusive or works on the low n bits and on those above them separately. */
  lemma {:induction false} XorSplits(a: nat, x: nat, b: nat, y: nat, n: nat, m: nat)
    requires a < Pow2(n) && b < Pow2(n)
    ensures Xor(a + Times(Pow2(n), x), b + Times(Pow2(n), y), n + m)
         == Xor(a, b, n) + Times(Pow2(n), Xor(x, y, m))
    decreases n
  {
    if n > 0 {
      var half := Pow2(n - 1);
      TimesTwice(half, x);
      TimesTwice(half, y);
      TimesTwice(half, Xor(x, y, m));
      XorAbove(a, Times(half, x), b, Times(half, y), n + m);
      XorSplits(a / 2, x, b / 2, y, n - 1, m);
    }
  }

  // ---------- words in memory ----------

  /** The number whose bytes are s, lowest first. */
  function Load(s: Octets): nat
  {
    if s == [] then 0 else s[0] + 256 * Load(s[1..])
  }

  /** The lowest n bytes of w, lowest first. */
  function Store(w: nat, n: nat): (s: Octets)
    ensures |s| == n
  {
    if n == 0 then [] else [w % 256] + Store(w / 256, n - 1)
  }

  lemma {:induction false} StoreLoad(s: Octets)
    ensures Store(Load(s), |s|) == s
  {
    if s != [] {
      StoreLoad(s[1..]);
      var low: int, rest := s[0], Load(s[1..]);
      assert (low + 256 * rest) / 256 == rest && (low + 256 * rest) % 256 == low;
    }
  }

  function XorByte(a: Byte, b: Byte): Byte
  {
    Pow8();
    XorFits(a, b, 8);
    Xor(a, b, 8)
  }

  lemma Pow8()
    ensures Pow2(8) == 256
  {
  }

  function XorEach(s: Octets, k: Octets): (r: Octets)
    requires |s| == |k|
    ensures |r| == |s|
  {
    if s == [] then [] else [XorByte(s[0], k[0])] + XorEach(s[1..], k[1..])
  }

  /** The exclusive or of two words is that of their bytes. */
  lemma {:induction false} XorOfWords(s: Octets, k: Octets)
    requires |s| == |k|
    ensures Xor(Load(s), Load(k), 8 * |s|) == Load(XorEach(s, k))
  {
    if s != [] {
      XorOfWords(s[1..], k[1..]);
      Pow8();
      XorSplits(s[0], Load(s[1..]), k[0], Load(k[1..]), 8, 8 * (|s| - 1));
      var r := XorEach(s, k);
      assert r[1..] == XorEach(s[1..], k[1..]);
    }
  }

  lemma {:induction false} XorEachAt(s: Octets, k: Octets, j: nat)
    requires |s| == |k| && j < |s|
    ensures XorEach(s, k)[j] == XorByte(s[j], k[j])
  {
    if j > 0 { XorEachAt(s[1..], k[1..], j - 1); }
  }

  // ---------- masking ----------

  predicate IsKey(key: Octets)
  {
    |key| == 4
  }

  function KeyAt(key: Octets, n: nat): Byte
    requires IsKey(key)
  {
    key[n % 4]
  }

  /** Octet i of data whose first octet has the given index, by section 5.3 of RFC 6455. */
  function MaskedAt(data: Octets, key: Octets, index: nat, i: nat): Byte
    requires IsKey(key) && i < |data|
  {
    XorByte(data[i], KeyAt(key, index + i))
  }

  function Masked(data: Octets, key: Octets, index: nat): (r: Octets)
    requires IsKey(key)
    ensures |r| == |data| && forall i :: 0 <= i < |r| ==> r[i] == MaskedAt(data, key, index, i)
  {
    seq(|data|, i requires 0 <= i < |data| => MaskedAt(data, key, index, i))
  }

  // ---------- laws of masking ----------

  lemma MaskTwice(data: Octets, key: Octets, index: nat)
    requires IsKey(key)
    ensures Masked(Masked(data, key, index), key, index) == data
  {
    var once := Masked(data, key, index);
    forall i | 0 <= i < |data| ensures MaskedAt(once, key, index, i) == data[i] {
      Pow8();
      XorTwice(data[i], KeyAt(key, index + i), 8);
    }
  }

  /** Zeros show the key: octet i of the data meets octet (index + i) mod 4 of it. */
  lemma MaskedZeros(data: Octets, key: Octets, index: nat, i: nat)
    requires IsKey(key) && i < |data| && data[i] == 0
    ensures Masked(data, key, index)[i] == key[(index + i) % 4]
  {
    Pow8();
    XorCommutes(0, key[(index + i) % 4], 8);
    XorZero(key[(index + i) % 4], 8);
  }

  lemma MaskInPieces(a: Octets, b: Octets, key: Octets, index: nat)
    requires IsKey(key)
    ensures Masked(a + b, key, index) == Masked(a, key, index) + Masked(b, key, index + |a|)
  {
  }

  /** Each piece is masked with the index at which it begins. */
  function EachMasked(pieces: seq<Octets>, key: Octets, index: nat): seq<Octets>
    requires IsKey(key)
  {
    if pieces == [] then []
    else
      var before := pieces[..|pieces| - 1];
      EachMasked(before, key, index) + [Masked(pieces[|pieces| - 1], key, index + |Joined(before)|)]
  }

  lemma {:induction false} AnyPieces(pieces: seq<Octets>, key: Octets, index: nat)
    requires IsKey(key)
    ensures Joined(EachMasked(pieces, key, index)) == Masked(Joined(pieces), key, index)
  {
    if pieces != [] {
      var before, last := pieces[..|pieces| - 1], pieces[|pieces| - 1];
      AnyPieces(before, key, index);
      MaskInPieces(Joined(before), last, key, index);
      var each := EachMasked(pieces, key, index);
      assert each[..|each| - 1] == EachMasked(before, key, index);
    }
  }

  // ---------- a word of eight octets ----------

  lemma {:induction false} LoadAppend(a: Octets, b: Octets)
    requires |a| == 4
    ensures Load(a + b) == Load(a) + 0x1_0000_0000 * Load(b)
  {
    LoadShift(a, b);
    LoadShift(a[1..], b);
    LoadShift(a[1..][1..], b);
    LoadShift(a[1..][1..][1..], b);
    assert a[1..][1..][1..][1..] == [] && [] + b == b;
  }

  lemma LoadShift(a: Octets, b: Octets)
    requires a != []
    ensures Load(a + b) == a[0] + 256 * Load(a[1..] + b) && Load(a) == a[0] + 256 * Load(a[1..])
  {
    assert (a + b)[1..] == a[1..] + b;
  }

  /** Eight octets taken as one word, combined with the key twice over, and put back. */
  method XorWord(s: Octets, key: Octets) returns (r: Octets)
    requires |s| == 8 && IsKey(key)
    ensures r == XorEach(s, key + key)
  {
    var k := Load(key);
    var twice := k * 0x1_0000_0000 + k;  // the halves share no bit
    LoadAppend(key, key);
    XorOfWords(s, key + key);
    var word := Xor(Load(s), twice, 64);
    r := Store(word, 8);
    StoreLoad(XorEach(s, key + key));
  }

  // ---------- mask1 and mask2 ----------

  /** A 64-bit index that may have wrapped around. */
  predicate Tracks(at: nat, n: nat)
  {
    at == n % TWO_64
  }

  lemma MultipleOf8(r: nat, m: nat)
    ensures (r + 8 * m) % 8 == r % 8
  {
    var q, rest := r / 8, r % 8;
    assert r + 8 * m == 8 * (q + m) + rest;
  }

  lemma MultipleOf4(r: nat, m: nat)
    ensures (r + 4 * m) % 4 == r % 4
  {
    var q, rest := r / 4, r % 4;
    assert r + 4 * m == 4 * (q + m) + rest;
  }

  lemma WrapsByEights(at: nat, q: nat)
    ensures TWO_64 * q + at == at + 8 * (TWO_64 / 8 * q) == at + 4 * (TWO_64 / 4 * q)
  {
  }

  /** Wrapping around does not move the index within the key. */
  lemma TracksKey(at: nat, n: nat, key: Octets)
    requires Tracks(at, n) && IsKey(key)
    ensures at % 8 == n % 8 && KeyAt(key, at) == KeyAt(key, n)
  {
    var q := n / TWO_64;
    assert n == TWO_64 * q + at;
    WrapsByEights(at, q);
    MultipleOf8(at, TWO_64 / 8 * q);
    MultipleOf4(at, TWO_64 / 4 * q);
  }

  lemma TracksOn(at: nat, n: nat, k: nat)
    requires Tracks(at, n)
    ensures Tracks((at + k) % TWO_64, n + k)
  {
  }

  lemma KeyOfWord(key: Octets, n: nat, j: nat)
    requires IsKey(key) && n % 8 == 0
    ensures KeyAt(key, n + j) == KeyAt(key, j)
  {
  }

  /** The first p octets of `to` are masked, those of `from` behind them are still as in src. */
  ghost predicate MaskedTo(from: array<Byte>, to: array<Byte>, src: Octets, key: Octets, index: nat, p: nat)
    requires IsKey(key)
    reads from, to
  {
    p <= |src| <= from.Length && |src| <= to.Length
    && (forall i :: 0 <= i < p ==> to[i] == MaskedAt(src, key, index, i))
    && (forall i :: p <= i < |src| ==> from[i] == src[i])
  }

  ghost predicate SameFrom(to: array<Byte>, was: Octets, n: nat)
    reads to
  {
    n <= |was| == to.Length && forall i :: n <= i < |was| ==> to[i] == was[i]
  }

  method MaskByte(from: array<Byte>, to: array<Byte>, key: Octets, at: nat, p: nat, ghost src: Octets,
                  ghost index: nat, ghost was: Octets)
    returns (next: nat)
    requires IsKey(key) && MaskedTo(from, to, src, key, index, p) && p < |src| && Tracks(at, index + p)
    requires SameFrom(to, was, |src|)
    modifies to
    ensures MaskedTo(from, to, src, key, index, p + 1) && SameFrom(to, was, |src|) && Tracks(next, index + p + 1)
  {
    TracksKey(at, index + p, key);
    TracksOn(at, index + p, 1);
    to[p] := XorByte(from[p], key[at % 4]);
    next := (at + 1) % TWO_64;
  }

  method MaskWord(from: array<Byte>, to: array<Byte>, key: Octets, p: nat, ghost src: Octets,
                  ghost index: nat, ghost was: Octets)
    requires IsKey(key) && MaskedTo(from, to, src, key, index, p) && p + 8 <= |src| && (index + p) % 8 == 0
    requires SameFrom(to, was, |src|)
    modifies to
    ensures MaskedTo(from, to, src, key, index, p + 8) && SameFrom(to, was, |src|)
  {
    var word := from[p..p + 8];
    var r := XorWord(word, key);
    forall j | 0 <= j < 8 ensures r[j] == MaskedAt(src, key, index, p + j) {
      KeyOfWord(key, index + p, j);
      XorEachAt(word, key + key, j);
      assert (key + key)[j] == KeyAt(key, j);
      assert word[j] == src[p + j];
    }
    forall j | 0 <= j < 8 { to[p + j] := r[j]; }
    forall i | p <= i < p + 8 ensures to[i] == MaskedAt(src, key, index, i) { assert to[p + (i - p)] == r[i - p]; }
  }

  method WordLoop(from: array<Byte>, to: array<Byte>, key: Octets, p0: nat, end: nat, ghost count: nat,
                  ghost src: Octets, ghost index: nat, ghost was: Octets)
    requires IsKey(key) && MaskedTo(from, to, src, key, index, p0) && SameFrom(to, was, |src|)
    requires end == p0 + 8 * count <= |src| && (count > 0 ==> (index + p0) % 8 == 0)
    modifies to
    ensures MaskedTo(from, to, src, key, index, end) && SameFrom(to, was, |src|)
  {
    var p := p0;
    ghost var left := count;
    while p < end
      invariant MaskedTo(from, to, src, key, index, p) && SameFrom(to, was, |src|)
      invariant end == p + 8 * left && (left > 0 ==> (index + p) % 8 == 0)
    {
      MaskWord(from, to, key, p, src, index, was);
      p, left := p + 8, left - 1;
    }
  }

  /** Octets one by one up to a multiple of eight, then words. */
  method MaskWords(from: array<Byte>, to: array<Byte>, length: nat, key: Octets, index: nat, ghost src: Octets,
                   ghost was: Octets)
    returns (p: nat, at: nat)
    requires IsKey(key) && index < TWO_64 && |src| == length
    requires MaskedTo(from, to, src, key, index, 0) && SameFrom(to, was, length)
    modifies to
    ensures MaskedTo(from, to, src, key, index, p) && SameFrom(to, was, length) && Tracks(at, index + p)
  {
    p, at := 0, index;
    while p < length && at % 8 != 0
      invariant MaskedTo(from, to, src, key, index, p) && SameFrom(to, was, length) && Tracks(at, index + p)
      decreases length - p
    {
      at := MaskByte(from, to, key, at, p, src, index, was);
      p := p + 1;
    }
    TracksKey(at, index + p, key);
    var left := length - p;
    var words := left - left % 8;
    TracksOn(at, index + p, words);
    at := (at + words) % TWO_64;
    WordLoop(from, to, key, p, p + words, left / 8, src, index, was);
    p := p + words;
  }

  /**
    * cat_websocket_mask2, and cat_websocket_mask1 when both arrays are the same: words
    * where there are eight octets or more, then the octets that are left.
    */
  method Mask(from: array<Byte>, to: array<Byte>, length: nat, key: Octets, index: nat)
    requires IsKey(key) && length <= from.Length && length <= to.Length && index < TWO_64
    modifies to
    ensures to[..length] == Masked(old(from[..length]), key, index) && to[length..] == old(to[length..])
  {
    ghost var src, was := from[..length], to[..];
    var p, at := 0, index;
    if 8 <= length { p, at := MaskWords(from, to, length, key, index, src, was); }
    while p < length
      invariant MaskedTo(from, to, src, key, index, p) && SameFrom(to, was, length) && Tracks(at, index + p)
    {
      at := MaskByte(from, to, key, at, p, src, index, was);
      p := p + 1;
    }
  }

  const EMPTY_KEY: Octets := [0, 0, 0, 0]

  lemma EmptyKey(data: Octets, index: nat)
    ensures Masked(data, EMPTY_KEY, index) == data
  {
    forall i | 0 <= i < |data| ensures MaskedAt(data, EMPTY_KEY, index, i) == data[i] {
      assert KeyAt(EMPTY_KEY, index + i) == 0;
      Pow8();
      XorZero(data[i], 8);
    }
  }

  /** cat_websocket_mask_ex: no key, or a key of zeros, leaves the octets as they are. */
  method MaskEx(from: array<Byte>, to: array<Byte>, length: nat, key: Octets, index: nat)
    requires (key == [] || IsKey(key)) && length <= from.Length && length <= to.Length && index < TWO_64
    modifies to
    ensures to[..length] == Masked(old(from[..length]), if key == [] then EMPTY_KEY else key, index)
    ensures to[length..] == old(to[length..])
  {
    if key == [] || key == EMPTY_KEY {
      EmptyKey(from[..length], index);
      if from != to {
        forall i | 0 <= i < length { to[i] := from[i]; }
      }
    } else {
      Mask(from, to, length, key, index);
    }
  }
}
