/**
  * A known answer: how the sample (R) of section 7.1 of RFC 3492, "d9juau41awczczp", begins.
  * Encoder and decoder share the parameters of section 5 and the bias adaptation, and no round
  * trip can see a wrong value in them; this text does.
  */
module PunycodeSample {
  import opened Common
  import opened Punycode

  /** One integer of the text, and the code point that it inserts. */
  lemma OneInsertion(s: seq<Byte>, d: Decoder, newI: nat, pos: nat, d': Decoder)
    requires ReadInteger(s, 36, 1, d.i, d.bias) == Some((newI, []))
    requires 128 <= d.n <= d'.n && pos <= |d.output| && d.i <= newI
    requires newI == (d'.n - d.n) * (|d.output| + 1) + pos && d'.i == pos + 1
    requires d'.bias == Adapt(newI - d.i, |d.output| + 1, d.i == 0)
    requires d'.output == d.output[..pos] + [d'.n] + d.output[pos..]
    ensures DecodeInsertions(s, d) == Some(d')
  {
    InsertAt(d, newI, d'.n, pos);
    assert DecodeInsertions([], d') == Some(d');
  }

  lemma First()
    ensures DecodeInsertions([100, 57, 106], Decoder(128, 0, 72, []))
         == Some(Decoder(0x305D, 1, 17, [0x305D]))
  {
    var d, d' := Decoder(128, 0, 72, []), Decoder(0x305D, 1, 17, [0x305D]);
    var s0: seq<Byte>, s1: seq<Byte>, s2: seq<Byte> := [100, 57, 106], [57, 106], [106];
    assert s0[1..] == s1 && s1[1..] == s2 && s2[1..] == [];
    assert ReadInteger(s2, 108, 1225, 1228, 72) == Some((12253, []));
    assert ReadInteger(s1, 72, 35, 3, 72) == Some((12253, []));
    assert ReadInteger(s0, 36, 1, 0, 72) == Some((12253, []));
    assert Adapt(12253, 1, true) == 17;
    assert d'.output == d.output[..0] + [0x305D] + d.output[0..];
    OneInsertion(s0, d, 12253, 0, d');
  }

  lemma Second()
    ensures DecodeInsertions([117, 97], Decoder(0x305D, 1, 17, [0x305D]))
         == Some(Decoder(0x3067, 2, 10, [0x305D, 0x3067]))
  {
    var d, d' := Decoder(0x305D, 1, 17, [0x305D]), Decoder(0x3067, 2, 10, [0x305D, 0x3067]);
    var s0: seq<Byte>, s1: seq<Byte> := [117, 97], [97];
    assert s0[1..] == s1 && s1[1..] == [];
    assert ReadInteger(s1, 72, 17, 21, 17) == Some((21, []));
    assert ReadInteger(s0, 36, 1, 1, 17) == Some((21, []));
    assert Adapt(20, 2, false) == 10;
    assert d'.output == d.output[..1] + [0x3067] + d.output[1..];
    OneInsertion(s0, d, 21, 1, d');
  }

  lemma Third()
    ensures DecodeInsertions([117], Decoder(0x3067, 2, 10, [0x305D, 0x3067]))
         == Some(Decoder(0x306E, 2, 9, [0x305D, 0x306E, 0x3067]))
  {
    var d, d' := Decoder(0x3067, 2, 10, [0x305D, 0x3067]), Decoder(0x306E, 2, 9, [0x305D, 0x306E, 0x3067]);
    var s0: seq<Byte> := [117];
    assert s0[1..] == [];
    assert ReadInteger(s0, 36, 1, 2, 10) == Some((22, []));
    assert Adapt(20, 3, false) == 9;
    assert d'.output == d.output[..1] + [0x306E] + d.output[1..];
    OneInsertion(s0, d, 22, 1, d');
  }

  lemma Together(a: seq<Byte>, b: seq<Byte>, ab: seq<Byte>, d: Decoder, d': Decoder)
    requires ab == a + b && DecodeInsertions(a, d) == Some(d')
    ensures DecodeInsertions(ab, d) == DecodeInsertions(b, d')
  {
    DecodeInsertionsExtends(a, b, d);
  }

  lemma Two()
    ensures DecodeInsertions([100, 57, 106, 117, 97], Decoder(128, 0, 72, []))
         == Some(Decoder(0x3067, 2, 10, [0x305D, 0x3067]))
  {
    First();
    Second();
    Together([100, 57, 106], [117, 97], [100, 57, 106, 117, 97],
             Decoder(128, 0, 72, []), Decoder(0x305D, 1, 17, [0x305D]));
  }

  lemma Three(s: seq<Byte>)
    requires s == [100, 57, 106, 117, 97, 117]
    ensures DecodeInsertions(s, Decoder(128, 0, 72, [])) == Some(Decoder(0x306E, 2, 9, [0x305D, 0x306E, 0x3067]))
  {
    Two();
    Third();
    Together([100, 57, 106, 117, 97], [117], s, Decoder(128, 0, 72, []), Decoder(0x3067, 2, 10, [0x305D, 0x3067]));
  }

  lemma WithoutDelimiter(s: seq<Byte>, d: Decoder)
    requires DELIMITER !in s && DecodeInsertions(s, Decoder(INITIAL_N, 0, INITIAL_BIAS, [])) == Some(d)
    ensures Decode(s) == Some(d.output)
  {
    LastDelimiterIs(s, |s|);
  }

  /** "d9juau" inserts the first, the last and the second of the sample's seven code points. */
  lemma KnownAnswer(s: seq<Byte>)
    requires s == [100, 57, 106, 117, 97, 117]
    ensures Decode(s) == Some([0x305D, 0x306E, 0x3067])
  {
    Three(s);
    WithoutDelimiter(s, Decoder(0x306E, 2, 9, [0x305D, 0x306E, 0x3067]));
  }
}
