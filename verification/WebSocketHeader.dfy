/** The frame header of cat_websocket.c, kept in the form it has on the wire. */
module WebSocketHeader {
  import opened Common
  import opened WebSocketMask

  const HEADER_MIN_SIZE := 2
  const HEADER_MAX_SIZE := 14
  const EXT8_MAX_LENGTH := 125
  const EXT16_MAX_LENGTH := 65535
  const EXT16_PAYLOAD_LENGTH := 126
  const EXT64_PAYLOAD_LENGTH := 127
  const TWO_32 := 0x1_0000_0000

  // ---------- byte order ----------

  function Reversed(s: Octets): (r: Octets)
    ensures |r| == |s| && forall i :: 0 <= i < |s| ==> r[i] == s[|s| - 1 - i]
  {
    if s == [] then [] else Reversed(s[1..]) + [s[0]]
  }

  /** Network byte order: the highest byte first. */
  function BigEndian(w: nat, n: nat): (s: Octets)
    ensures |s| == n
  {
    Reversed(Store(w, n))
  }

  function Pow256(n: nat): nat
  {
    if n == 0 then 1 else 256 * Pow256(n - 1)
  }

  lemma {:induction false} LoadStore(w: nat, n: nat)
    requires w < Pow256(n)
    ensures Load(Store(w, n)) == w
  {
    if n > 0 {
      LoadStore(w / 256, n - 1);
      assert Store(w, n)[1..] == Store(w / 256, n - 1);
    }
  }

  lemma {:induction false} LoadFits(s: Octets)
    ensures Load(s) < Pow256(|s|)
  {
    if s != [] { LoadFits(s[1..]); }
  }

  lemma {:induction false} Powers()
    ensures Pow256(2) == 0x10000 && Pow256(4) == TWO_32 && Pow256(8) == TWO_64
  {
  }

  /** htons, htonl, ntohs and ntohl on a little-endian host. */
  function Swapped(w: nat, n: nat): nat
  {
    Load(BigEndian(w, n))
  }

  lemma {:induction false} ReversedTwice(s: Octets)
    ensures Reversed(Reversed(s)) == s
  {
  }

  lemma {:induction false} SwappedTwice(w: nat, n: nat)
    requires w < Pow256(n)
    ensures Swapped(Swapped(w, n), n) == w && Swapped(w, n) < Pow256(n)
  {
    var s := BigEndian(w, n);
    StoreLoad(s);
    ReversedTwice(Store(w, n));
    LoadStore(w, n);
    LoadFits(s);
  }

  /** cat_hton64, which is also what cat_ntoh64 computes. */
  function Hton64(host: nat): nat
  {
    var low, high := host % TWO_32, host / TWO_32 % TWO_32;
    Swapped(low, 4) * TWO_32 + Swapped(high, 4)
  }

  lemma {:induction false} Hton64Of(high: nat, low: nat)
    requires low < TWO_32 && high < TWO_32
    ensures Hton64(high * TWO_32 + low) == Swapped(low, 4) * TWO_32 + Swapped(high, 4)
  {
    Halves(high, low);
  }

  lemma {:induction false} Swapped4(w: nat)
    requires w < TWO_32
    ensures Swapped(w, 4) < TWO_32 && Swapped(Swapped(w, 4), 4) == w
  {
    Powers();
    SwappedTwice(w, 4);
  }

  lemma {:induction false} HalvesTwice(high: nat, low: nat)
    requires low < TWO_32 && high < TWO_32
    ensures Hton64(Hton64(high * TWO_32 + low)) == high * TWO_32 + low
  {
    var l, h := Swapped(low, 4), Swapped(high, 4);
    Swapped4(low);
    Swapped4(high);
    Hton64Of(high, low);
    Hton64Of(l, h);
  }

  lemma {:induction false} Hton64Twice(host: nat)
    requires host < TWO_64
    ensures Hton64(Hton64(host)) == host
  {
    HalvesTwice(host / TWO_32, host % TWO_32);
  }

  lemma {:induction false} Halves(high: nat, low: nat)
    requires low < TWO_32 && high < TWO_32
    ensures (high * TWO_32 + low) % TWO_32 == low && (high * TWO_32 + low) / TWO_32 % TWO_32 == high
  {
  }

  lemma TimesOf256(p: nat, high: nat)
    ensures Times(256 * p, high) == 256 * Times(p, high)
  {
  }

  lemma ByteOff(low: nat, t: nat)
    ensures (low + 256 * t) % 256 == low % 256 && (low + 256 * t) / 256 == low / 256 + t
  {
  }

  lemma {:induction false} StoreAppend(low: nat, high: nat, n: nat, m: nat)
    requires low < Pow256(n)
    ensures Store(low + Times(Pow256(n), high), n + m) == Store(low, n) + Store(high, m)
    decreases n
  {
    if n > 0 {
      var t := Times(Pow256(n - 1), high);
      TimesOf256(Pow256(n - 1), high);
      ByteOff(low, t);
      StoreAppend(low / 256, high, n - 1, m);
    } else {
      assert Store(low, 0) + Store(high, m) == Store(high, m);
    }
  }

  lemma {:induction false} ReversedConcat(a: Octets, b: Octets)
    ensures Reversed(a + b) == Reversed(b) + Reversed(a)
  {
  }

  lemma {:induction false} StoreHalves(low: nat, high: nat, w: nat)
    requires low < TWO_32 && w == high * TWO_32 + low
    ensures Store(w, 8) == Store(low, 4) + Store(high, 4)
  {
    Powers();
    StoreAppend(low, high, 4, 4);
  }

  lemma {:induction false} StoreSwapped(w: nat)
    ensures Store(Swapped(w, 4), 4) == BigEndian(w, 4)
  {
    StoreLoad(BigEndian(w, 4));
  }

  /** Swapping the halves of a number and the bytes in each reverses its bytes. */
  lemma {:induction false} StoredHalves(host: nat, high: nat, low: nat, net: nat, h: nat, l: nat)
    requires low < TWO_32 && host == high * TWO_32 + low
    requires h < TWO_32 && net == l * TWO_32 + h && h == Swapped(high, 4) && l == Swapped(low, 4)
    ensures Store(net, 8) == BigEndian(host, 8)
  {
    StoreHalves(h, l, net);
    StoreSwapped(high);
    StoreSwapped(low);
    StoreHalves(low, high, host);
    ReversedConcat(Store(low, 4), Store(high, 4));
  }

  /** Stored on a little-endian host, the swapped number has its highest byte first. */
  lemma {:induction false} Hton64Stored(host: nat)
    requires host < TWO_64
    ensures Store(Hton64(host), 8) == BigEndian(host, 8)
  {
    var high, low, net := host / TWO_32, host % TWO_32, Hton64(host);
    Hton64Of(high, low);
    Swapped4(high);
    StoredHalves(host, high, low, net, Swapped(high, 4), Swapped(low, 4));
  }

  // ---------- the header by section 5.2 of RFC 6455 ----------

  /** How many bytes the extended length takes in the shortest form. */
  function ExtendedSize(length: nat): nat
  {
    if length <= EXT8_MAX_LENGTH then 0 else if length <= EXT16_MAX_LENGTH then 2 else 8
  }

  function Code(length: nat): nat
  {
    if length <= EXT8_MAX_LENGTH then length
    else if length <= EXT16_MAX_LENGTH then EXT16_PAYLOAD_LENGTH else EXT64_PAYLOAD_LENGTH
  }

  predicate IsOptionalKey(key: Option<Octets>)
  {
    key.Some? ==> IsKey(key.value)
  }

  /** The header from its second byte on: mask bit and length, extended length, key. */
  function Wire(length: nat, key: Option<Octets>): (w: Octets)
    requires IsOptionalKey(key)
    ensures |w| == 1 + ExtendedSize(length) + (if key.Some? then 4 else 0)
  {
    [Code(length) + if key.Some? then 128 else 0] + BigEndian(length, ExtendedSize(length))
    + (if key.Some? then key.value else [])
  }

  /** cat_websocket_calculate_header_size. */
  function HeaderSize(length: nat, mask: bool): (size: nat)
    ensures size <= HEADER_MAX_SIZE
  {
    HEADER_MIN_SIZE + ExtendedSize(length) + if mask then 4 else 0
  }

  /** How long an extended length the second byte announces. */
  function Announced(second: Byte): nat
  {
    var code := second % 128;
    if code == 126 then 2 else if code == 127 then 8 else 0
  }

  /** A receiver that follows section 5.2 reads this length and key, whether or not the form is the shortest. */
  ghost predicate IsReadAs(h: Octets, length: nat, key: Option<Octets>)
  {
    && |h| >= 2 && IsOptionalKey(key) && (h[1] >= 128 <==> key.Some?)
    && var n := Announced(h[1]);
       && |h| == 2 + n + (if key.Some? then 4 else 0)
       && length == (if n == 0 then h[1] % 128 else Load(Reversed(h[2..2 + n])))
       && (key.Some? ==> h[2 + n..] == key.value)
  }

  lemma {:induction false} BigEndianIsReadBack(length: nat, n: nat)
    requires length < TWO_64 && n == ExtendedSize(length) > 0
    ensures Load(Reversed(BigEndian(length, n))) == length
  {
    Powers();
    ReversedTwice(Store(length, n));
    LoadStore(length, n);
  }

  lemma {:induction false} WireSlices(first: Byte, second: Byte, extended: Octets, key: Octets, h: Octets)
    requires h == [first] + ([second] + extended + key)
    ensures h[1] == second && h[2..2 + |extended|] == extended && h[2 + |extended|..] == key
  {
  }

  /** What is written is read back, and takes the calculated size. */
  lemma {:induction false} WireIsReadBack(first: Byte, length: nat, key: Option<Octets>)
    requires length < TWO_64 && IsOptionalKey(key)
    ensures var h := [first] + Wire(length, key); |h| == HeaderSize(length, key.Some?) && IsReadAs(h, length, key)
  {
    var h, n := [first] + Wire(length, key), ExtendedSize(length);
    var second := Code(length) + if key.Some? then 128 else 0;
    WireSlices(first, second, BigEndian(length, n), if key.Some? then key.value else [], h);
    assert Announced(second) == n;
    if n > 0 { BigEndianIsReadBack(length, n); }
  }

  /** No header for this length and key is shorter than the calculated size. */
  lemma ShortestForm(h: Octets, length: nat, key: Option<Octets>)
    requires IsReadAs(h, length, key)
    ensures HeaderSize(length, key.Some?) <= |h|
  {
    var n := Announced(h[1]);
    Powers();
    LoadFits(Reversed(h[2..2 + n]));
  }

  lemma {:induction false} SliceOf(b: Octets, i: nat, j: nat, k: nat, l: nat)
    requires i <= j <= |b| && k <= l <= j - i
    ensures b[i..j][k..l] == b[i + k..i + l]
  {
    var x, y := b[i..j][k..l], b[i + k..i + l];
    assert forall m :: 0 <= m < l - k ==> x[m] == b[i..j][k + m] && y[m] == b[i + k + m];
  }

  /** The parts of a header that is written for this length and key. */
  lemma {:induction false} WireParts(b: Octets, length: nat, key: Option<Octets>)
    requires IsOptionalKey(key) && |b| == HEADER_MAX_SIZE && b[1..HeaderSize(length, key.Some?)] == Wire(length, key)
    ensures b[1] % 128 == Code(length) && (b[1] >= 128 <==> key.Some?)
    ensures b[2..2 + ExtendedSize(length)] == BigEndian(length, ExtendedSize(length))
    ensures key.Some? ==> b[2 + ExtendedSize(length)..6 + ExtendedSize(length)] == key.value
  {
    var w, n := b[1..HeaderSize(length, key.Some?)], ExtendedSize(length);
    assert b[1] == w[0];
    SliceOf(b, 1, 1 + |w|, 1, 1 + n);
    if key.Some? { SliceOf(b, 1, 1 + |w|, 1 + n, 5 + n); }
  }

  class Header {
    const bytes: array<Byte>

    ghost predicate Valid()
    {
      bytes.Length == HEADER_MAX_SIZE
    }

    /** The header is the one section 5.2 asks for, whatever its first byte. */
    ghost predicate Says(length: nat, key: Option<Octets>)
      reads bytes
    {
      Valid() && IsOptionalKey(key) && bytes[1..HeaderSize(length, key.Some?)] == Wire(length, key)
    }

    /** cat_websocket_header_init. */
    constructor ()
      ensures Valid() && fresh(bytes) && bytes[0] == 0 && Says(0, None)
    {
      bytes := new Byte[HEADER_MAX_SIZE](_ => 0);
      new;
      assert bytes[1..2] == [0];
    }

    method KeyOffset(ghost length: nat, ghost key: Option<Octets>) returns (offset: nat)
      requires Says(length, key)
      ensures offset == HEADER_MIN_SIZE + ExtendedSize(length)
    {
      WireParts(bytes[..], length, key);
      var code := bytes[1] % 128;
      offset := HEADER_MIN_SIZE;
      if code < EXT16_PAYLOAD_LENGTH {
      } else if code == EXT16_PAYLOAD_LENGTH {
        offset := offset + 2;
      } else {
        assert code == EXT64_PAYLOAD_LENGTH;
        offset := offset + 8;
      }
    }

    method GetSize(ghost length: nat, ghost key: Option<Octets>) returns (size: nat)
      requires Says(length, key)
      ensures size == HeaderSize(length, key.Some?)
    {
      WireParts(bytes[..], length, key);
      size := KeyOffset(length, key);
      if bytes[1] >= 128 { size := size + 4; }
    }

    method GetMaskingKey(ghost length: nat, ghost key: Option<Octets>) returns (r: Option<Octets>)
      requires Says(length, key)
      ensures r == key
    {
      WireParts(bytes[..], length, key);
      r := None;
      if bytes[1] >= 128 {
        var offset := KeyOffset(length, key);
        assert bytes[..][offset..offset + 4] == bytes[offset..offset + 4];
        r := Some(bytes[offset..offset + 4]);
      }
    }

    method GetPayloadLength(ghost length: nat, ghost key: Option<Octets>) returns (r: nat)
      requires Says(length, key) && length < TWO_64
      ensures r == length
    {
      WireParts(bytes[..], length, key);
      assert bytes[..][2..2 + ExtendedSize(length)] == bytes[2..2 + ExtendedSize(length)];
      var code := bytes[1] % 128;
      if code < EXT16_PAYLOAD_LENGTH {
        r := code;
      } else if code == EXT16_PAYLOAD_LENGTH {
        Powers();
        SwappedTwice(length, 2);
        r := Swapped(Load(bytes[2..4]), 2);
      } else {
        assert code == EXT64_PAYLOAD_LENGTH;
        LoadOfBigEndian(length);
        Hton64Twice(length);
        r := Hton64(Load(bytes[2..10]));
      }
    }

    method Put(at: nat, data: Octets)
      requires Valid() && at + |data| <= HEADER_MAX_SIZE
      modifies bytes
      ensures bytes[at..at + |data|] == data
      ensures forall i :: 0 <= i < HEADER_MAX_SIZE && !(at <= i < at + |data|) ==> bytes[i] == old(bytes[i])
    {
      for i := 0 to |data|
        invariant forall j :: 0 <= j < i ==> bytes[at + j] == data[j]
        invariant forall j :: 0 <= j < HEADER_MAX_SIZE && !(at <= j < at + i) ==> bytes[j] == old(bytes[j])
      {
        bytes[at + i] := data[i];
      }
    }

    /** The length field and the extended length; the mask bit and the rest stay. */
    method PutLength(length: nat)
      requires Valid() && length < TWO_64
      modifies bytes
      ensures bytes[1] as int == Code(length) + old(bytes[1]) / 128 * 128
      ensures bytes[2..2 + ExtendedSize(length)] == BigEndian(length, ExtendedSize(length))
      ensures bytes[0] == old(bytes[0])
      ensures forall i :: 2 + ExtendedSize(length) <= i < HEADER_MAX_SIZE ==> bytes[i] == old(bytes[i])
    {
      bytes[1] := Code(length) + bytes[1] / 128 * 128;
      if length <= EXT8_MAX_LENGTH {
      } else if length <= EXT16_MAX_LENGTH {
        StoreLoad(BigEndian(length, 2));
        Put(2, Store(Swapped(length, 2), 2));
      } else {
        Hton64Stored(length);
        Put(2, Store(Hton64(length), 8));
      }
    }

    /** The key of a masked header is kept although its place may change. */
    method SetPayloadLength(length: nat, ghost length0: nat, ghost key: Option<Octets>)
      requires Says(length0, key) && length < TWO_64
      modifies bytes
      ensures Says(length, key) && bytes[0] == old(bytes[0])
    {
      WireParts(bytes[..], length0, key);
      var offset := 2 + ExtendedSize(length);
      if bytes[1] >= 128 {
        var p := KeyOffset(length0, key);
        assert bytes[..][p..p + 4] == bytes[p..p + 4];
        Put(offset, bytes[p..p + 4]);
      }
      label Moved:
      PutLength(length);
      assert key.Some? ==> bytes[offset..offset + 4] == old@Moved(bytes[offset..offset + 4]);
      SaysSo(length, key);
    }

    lemma SaysSo(length: nat, key: Option<Octets>)
      requires Valid() && IsOptionalKey(key)
      requires bytes[1] as int == Code(length) + if key.Some? then 128 else 0
      requires bytes[2..2 + ExtendedSize(length)] == BigEndian(length, ExtendedSize(length))
      requires key.Some? ==> bytes[2 + ExtendedSize(length)..6 + ExtendedSize(length)] == key.value
      ensures Says(length, key)
    {
    }

    method SetMaskingKey(key: Option<Octets>, ghost length: nat, ghost key0: Option<Octets>)
      requires Says(length, key0) && IsOptionalKey(key)
      modifies bytes
      ensures Says(length, key) && bytes[0] == old(bytes[0])
    {
      WireParts(bytes[..], length, key0);
      ghost var n := ExtendedSize(length);
      assert bytes[..][2..2 + n] == bytes[2..2 + n];
      if key.None? {
        bytes[1] := bytes[1] % 128;
      } else {
        var p := KeyOffset(length, key0);
        Put(p, key.value);
        bytes[1] := bytes[1] % 128 + 128;
      }
      assert bytes[2..2 + n] == old(bytes[2..2 + n]);
      SaysSo(length, key);
    }

    /** Length and key in one call; nothing is asked of what the header said before. */
    method SetPayloadInfo(length: nat, key: Option<Octets>)
      requires Valid() && length < TWO_64 && IsOptionalKey(key)
      modifies bytes
      ensures Says(length, key) && bytes[0] == old(bytes[0])
    {
      bytes[1] := bytes[1] % 128;
      PutLength(length);
      SaysSo(length, None);
      SetMaskingKey(key, length, None);
    }
  }

  lemma {:induction false} LoadOfBigEndian(length: nat)
    requires length < TWO_64
    ensures Load(BigEndian(length, 8)) == Hton64(length)
  {
    Hton64Stored(length);
    var low, high := length % TWO_32, length / TWO_32 % TWO_32;
    Powers();
    LoadFits(BigEndian(low, 4));
    LoadFits(BigEndian(high, 4));
    LoadStore(Hton64(length), 8);
  }
}
