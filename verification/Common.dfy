/** Types and small facts that several of the models share. */
module Common {
  type Byte = b: int | 0 <= b < 256

  datatype Option<+T> = None | Some(value: T)

  /** Multiplication by its name, so that a proof unfolds a product only where it is about products. */
  function Times(a: nat, b: nat): nat { a * b }

  // ---------- sequences ----------

  lemma Regroup<T>(a: seq<T>, b: seq<T>, c: seq<T>)
    ensures a + b + c == a + (b + c)
  {
  }

  lemma TakeNext<T>(a: seq<T>, b: seq<T>, i: nat)
    requires i < |b|
    ensures a + b[..i + 1] == a + b[..i] + [b[i]]
  {
  }

  function Joined<T>(pieces: seq<seq<T>>): seq<T>
  {
    if pieces == [] then [] else Joined(pieces[..|pieces| - 1]) + pieces[|pieces| - 1]
  }

  lemma JoinedNext<T>(pieces: seq<seq<T>>, n: nat)
    requires n < |pieces|
    ensures Joined(pieces[..n + 1]) == Joined(pieces[..n]) + pieces[n]
  {
    assert pieces[..n + 1][..n] == pieces[..n];
  }

  lemma {:induction false} JoinedGrows<T>(pieces: seq<seq<T>>, m: nat, n: nat)
    requires m <= n <= |pieces|
    ensures |Joined(pieces[..m])| <= |Joined(pieces[..n])|
  {
    if m < n {
      JoinedGrows(pieces, m, n - 1);
      JoinedNext(pieces, n - 1);
    }
  }

  // ---------- hexadecimal digits ----------

  /** The value of the digit with this code, in either case. */
  function HexValue(code: int): (v: Option<nat>)
    ensures v.Some? ==> v.value < 16
  {
    if 48 <= code <= 57 then Some(code - 48)
    else if 97 <= code <= 102 then Some(code - 87)
    else if 65 <= code <= 70 then Some(code - 55)
    else None
  }

  /** The code of a digit, in lower case. */
  function HexCode(d: nat): (code: Byte)
    requires d < 16
    ensures HexValue(code) == Some(d)
  {
    if d < 10 then 48 + d else 87 + d
  }
}
