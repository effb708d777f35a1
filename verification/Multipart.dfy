/**
  * The part-data states of multipart_parser_execute: matching CRLF + boundary byte by byte,
  * with roll-back, across arbitrary buffer cuts.  Every callback answers "paused", so each
  * call ends at its first event, and the caller presents all unconsumed bytes again.
  */
module Multipart {
  import opened Common

  const CR: Byte := 13
  const LF: Byte := 10
  const HYPHEN: Byte := 45
  const BOUNDARY_MAX_LEN: nat := 70

  datatype State = PartData | AlmostBoundary | InBoundary | AlmostEnd

  /** What a call reports: nothing, or the next piece of part data. */
  datatype Event = Nothing | Piece(data: seq<Byte>)

  // ---------- what is looked for ----------

  /** multipart_boundary: two hyphens and a boundary as RFC 2046 section 5.1.1 allows it, without CR. */
  predicate IsBoundary(b: seq<Byte>)
  {
    |b| >= 2 && b[0] == HYPHEN && b[1] == HYPHEN && forall i :: 0 <= i < |b| ==> b[i] != CR
  }

  function Delimiter(b: seq<Byte>): seq<Byte>
  {
    [CR, LF] + b
  }

  predicate OccursAt(s: seq<Byte>, b: seq<Byte>, q: nat)
  {
    q + |b| + 2 <= |s| && s[q..q + |b| + 2] == Delimiter(b)
  }

  predicate FirstAt(s: seq<Byte>, b: seq<Byte>, q: nat)
  {
    OccursAt(s, b, q) && forall j :: 0 <= j < q ==> !OccursAt(s, b, j)
  }

  /** Whatever follows s, the delimiter does not occur at j. */
  ghost predicate NeverAt(s: seq<Byte>, b: seq<Byte>, j: nat)
  {
    exists k :: 0 <= k < |Delimiter(b)| && j + k < |s| && s[j + k] != Delimiter(b)[k]
  }

  ghost predicate NeverBefore(s: seq<Byte>, b: seq<Byte>, p: nat)
  {
    forall j :: 0 <= j < p ==> NeverAt(s, b, j)
  }

  /** Every occurrence in s ends at `end` or behind it. */
  ghost predicate EndsFrom(s: seq<Byte>, b: seq<Byte>, end: nat)
  {
    forall q: nat :: OccursAt(s, b, q) ==> q + |b| + 2 >= end
  }

  // ---------- the state between two calls ----------

  /**
    * A call may stop in the middle of a match; its state is then stale for the bytes that
    * are presented again.  This is why it does no harm: the first byte sends every stale
    * state back to part data, directly or (in the one case of a line feed) a byte later.
    */
  predicate Resumable(state: State, index: nat, b: seq<Byte>, rest: seq<Byte>)
  {
    match state
    case PartData => true
    case AlmostBoundary => |rest| >= 1 && (rest[0] != LF || (|rest| >= 2 && rest[1] == CR))
    case InBoundary => |rest| >= 1 && rest[0] == CR && index < |b|
    case AlmostEnd => false
  }

  /** How much of the delimiter has been matched. */
  function Matched(state: State, index: nat): nat
  {
    match state
    case PartData => 0
    case AlmostBoundary => 1
    case InBoundary => 2 + index
    case AlmostEnd => 0
  }

  /** At position i the matched bytes are the delimiter's beginning, and no earlier start is left. */
  ghost predicate Matching(state: State, index: nat, b: seq<Byte>, s: seq<Byte>, i: nat)
  {
    var m := Matched(state, index);
    && state != AlmostEnd && (state == InBoundary ==> index < |b|)
    && m <= i <= |s| && s[i - m..i] == Delimiter(b)[..m]
    && NeverBefore(s, b, i - m)
  }

  /** The first byte, or the first two, of a call that starts in a stale state. */
  ghost predicate Stale(state: State, index: nat, b: seq<Byte>, s: seq<Byte>, i: nat)
  {
    || (i == 0 && Resumable(state, index, b, s))
    || (i == 1 < |s| && state == InBoundary && index == 0 && s[0] == LF && s[1] == CR)
  }

  // ---------- the matcher ----------

  /** A mismatch at i: every start up to i is excluded, except i itself at a carriage return. */
  lemma RolledBack(state: State, index: nat, b: seq<Byte>, s: seq<Byte>, i: nat)
    requires IsBoundary(b) && i < |s|
    requires Matching(state, index, b, s, i) && s[i] != Delimiter(b)[Matched(state, index)]
    ensures NeverBefore(s, b, i)
    ensures s[i] != CR ==> NeverBefore(s, b, i + 1)
  {
    var m := Matched(state, index);
    var d := Delimiter(b);
    forall j | 0 <= j < i ensures NeverAt(s, b, j) {
      if j == i - m {
        assert s[j + m] != d[m];
      } else if j > i - m {
        assert s[j] == s[i - m..i][j - (i - m)] == d[j - (i - m)];
        assert s[j + 0] != d[0];
      }
    }
    if s[i] != CR { assert s[i + 0] != d[0]; }
  }

  lemma StaleRolledBack(b: seq<Byte>, s: seq<Byte>, i: nat)
    requires i < |s| && (i == 0 || (i == 1 && s[0] == LF))
    ensures NeverBefore(s, b, i)
    ensures s[i] != CR ==> NeverBefore(s, b, i + 1)
  {
    if i == 1 { assert s[0 + 0] != Delimiter(b)[0]; }
    if s[i] != CR { assert s[i + 0] != Delimiter(b)[0]; }
  }

  lemma Advanced(state: State, index: nat, b: seq<Byte>, s: seq<Byte>, i: nat)
    requires IsBoundary(b) && i < |s|
    requires Matching(state, index, b, s, i) && s[i] == Delimiter(b)[Matched(state, index)]
    ensures var m := Matched(state, index); s[i - m..i + 1] == Delimiter(b)[..m + 1]
  {
    var m := Matched(state, index);
    assert s[i - m..i + 1] == s[i - m..i] + [s[i]];
    assert Delimiter(b)[..m + 1] == Delimiter(b)[..m] + [Delimiter(b)[m]];
  }

  /** A start with at most a delimiter's length behind it cannot be a finished match with more to follow. */
  lemma TailTooShort(b: seq<Byte>, s: seq<Byte>, start: nat)
    requires start <= |s| <= start + |b| + 2 && NeverBefore(s, b, start)
    ensures EndsFrom(s, b, |s|)
  {
    forall q: nat | OccursAt(s, b, q) ensures q + |b| + 2 >= |s| {
      if q < start { NeverMeansNot(b, s, q); }
    }
  }

  lemma NeverMeansNot(b: seq<Byte>, s: seq<Byte>, j: nat)
    requires NeverAt(s, b, j)
    ensures !OccursAt(s, b, j)
  {
  }

  // ---------- from one buffer to the whole body ----------

  lemma SameBytes(body: seq<Byte>, pos: nat, cut: nat, q: nat, n: nat)
    requires pos <= q && q + n <= cut <= |body|
    ensures body[pos..cut][q - pos..q - pos + n] == body[q..q + n]
  {
    var s, at := body[pos..cut], q - pos;
    var a, c := s[at..at + n], body[q..q + n];
    assert forall k :: 0 <= k < n ==> a[k] == s[at + k] && c[k] == body[q + k];
  }

  lemma JoinedOneMore(body: seq<Byte>, pos: nat, cut: nat, pieces: seq<seq<Byte>>, n: nat)
    requires pos + n <= cut <= |body| && Joined(pieces) == body[..pos]
    ensures Joined(pieces + [body[pos..cut][..n]]) == body[..pos + n]
  {
  }

  lemma NeverInBody(body: seq<Byte>, b: seq<Byte>, pos: nat, cut: nat, n: nat)
    requires pos <= cut <= |body| && NeverBefore(body, b, pos) && NeverBefore(body[pos..cut], b, n)
    ensures NeverBefore(body, b, pos + n)
  {
    forall j | 0 <= j < pos + n ensures NeverAt(body, b, j) {
      if j >= pos {
        var s := body[pos..cut];
        assert NeverAt(s, b, j - pos);
        var k :| 0 <= k < |Delimiter(b)| && j - pos + k < |s| && s[j - pos + k] != Delimiter(b)[k];
        assert body[j + k] != Delimiter(b)[k];
      }
    }
  }

  lemma FirstInBody(body: seq<Byte>, b: seq<Byte>, pos: nat, cut: nat, q: nat)
    requires pos <= cut <= |body| && NeverBefore(body, b, pos) && FirstAt(body[pos..cut], b, q)
    ensures FirstAt(body, b, pos + q)
  {
    SameBytes(body, pos, cut, pos + q, |b| + 2);
    forall j | 0 <= j < pos + q ensures !OccursAt(body, b, j) {
      if j < pos {
        NeverMeansNot(b, body, j);
      } else {
        assert !OccursAt(body[pos..cut], b, j - pos);
        SameBytes(body, pos, cut, j, |b| + 2);
      }
    }
  }

  lemma LateInBody(body: seq<Byte>, b: seq<Byte>, pos: nat, cut: nat)
    requires pos <= cut <= |body| && NeverBefore(body, b, pos)
    requires EndsFrom(body[pos..cut], b, cut - pos)
    ensures EndsFrom(body, b, cut)
  {
    forall q: nat | OccursAt(body, b, q) ensures q + |b| + 2 >= cut {
      if q < pos {
        NeverMeansNot(b, body, q);
      } else if q + |b| + 2 < cut {
        SameBytes(body, pos, cut, q, |b| + 2);
        assert OccursAt(body[pos..cut], b, q - pos);
      }
    }
  }

  /** From start on s is the beginning of a delimiter, or a whole one, and before it none can begin. */
  ghost predicate HeldBack(s: seq<Byte>, b: seq<Byte>, start: nat)
  {
    start <= |s| <= start + |b| + 2 && s[start..] == Delimiter(b)[..|s| - start] && NeverBefore(s, b, start)
  }

  /**
    * All is consumed but what may belong to a delimiter; a single byte before a CR or CRLF
    * at the end is kept too.
    */
  ghost predicate Prompt(s: seq<Byte>, b: seq<Byte>, consumed: nat)
  {
    exists start: nat :: HeldBack(s, b, start) && consumed == if start == 1 < |s| <= 3 then 0 else start
  }

  lemma PromptBound(s: seq<Byte>, b: seq<Byte>, consumed: nat)
    requires |b| >= 2 && Prompt(s, b, consumed)
    ensures |s| <= consumed + |b| + 2
  {
  }

  class Parser {
    const boundary: seq<Byte>
    var state: State
    var index: nat

    /** A parser at the beginning of a part's data. */
    constructor (b: seq<Byte>)
      ensures boundary == (if b == [] then [] else [HYPHEN, HYPHEN] + b) && state == PartData
      ensures IsBoundary(boundary) <==> b != [] && CR !in b
    {
      boundary := if b == [] then [] else [HYPHEN, HYPHEN] + b;
      state := PartData;
      index := 0;
      assert b != [] ==> forall i :: 0 <= i < |b| ==> b[i] == ([HYPHEN, HYPHEN] + b)[i + 2];
    }

    /** multipart_parser_alloc: null when the boundary is longer than RFC 2046 allows. */
    static method Alloc(b: seq<Byte>) returns (p: Parser?)
      ensures p == null <==> |b| > 70
      ensures p != null ==> fresh(p) && p.state == PartData && (b != [] ==> p.boundary == [HYPHEN, HYPHEN] + b)
      ensures p != null ==> (IsBoundary(p.boundary) <==> b != [] && CR !in b)
    {
      p := null;
      if |b| <= BOUNDARY_MAX_LEN { p := new Parser(b); }
    }

    /** Inside the loop, before byte i: a match in progress that began at markEnd, or a stale state. */
    ghost predicate Scanning(s: seq<Byte>, i: nat, markEnd: nat)
      reads this
    {
      || Stale(state, index, boundary, s, i)
      || (Matching(state, index, boundary, s, i) && (state != PartData ==> markEnd == i - Matched(state, index)))
    }

    /** The delimiter was found, with a byte after it: the piece is all that precedes it. */
    ghost predicate Found(s: seq<Byte>, consumed: nat, event: Event)
      reads this
    {
      && state == AlmostEnd && event.Piece?
      && FirstAt(s, boundary, |event.data|) && event.data == s[..|event.data|]
      && consumed == |event.data| + |boundary| + 2 < |s|
    }

    /**
      * It was not: what is consumed is what is reported, no occurrence begins in it however
      * the input goes on, no more than need be is kept, and the state suits the bytes that are left.
      */
    ghost predicate NotFound(s: seq<Byte>, consumed: nat, event: Event)
      reads this
    {
      && state != AlmostEnd && consumed <= |s|
      && event == (if consumed == 0 then Nothing else Piece(s[..consumed]))
      && NeverBefore(s, boundary, consumed)
      && Resumable(state, index, boundary, s[consumed..])
      && EndsFrom(s, boundary, |s|) && Prompt(s, boundary, consumed)
    }

    /** data_rollback: byte i as part data. */
    method OnData(s: seq<Byte>, i: nat) returns (stop: bool, consumed: nat, event: Event, markEnd: nat)
      requires IsBoundary(boundary) && i < |s| && state == PartData
      requires NeverBefore(s, boundary, i) && (s[i] != CR ==> NeverBefore(s, boundary, i + 1))
      modifies this
      ensures stop ==> NotFound(s, consumed, event)
      ensures !stop ==> i + 1 < |s| && Scanning(s, i + 1, markEnd)
    {
      var c := s[i];
      var isLast := i == |s| - 1;
      stop, consumed, event := true, 0, Nothing;
      markEnd := i + 1;
      if c == CR {
        markEnd := markEnd - 1;
        if isLast {
          TailTooShort(boundary, s, i);
          assert s[i..] == Delimiter(boundary)[..1] && HeldBack(s, boundary, i);
          if i > 1 { return true, i, Piece(s[..markEnd]), markEnd; }
          return;
        }
        state := AlmostBoundary;
        assert s[i..i + 1] == Delimiter(boundary)[..1];
        stop := false;
        return;
      }
      if isLast {
        TailTooShort(boundary, s, i + 1);
        assert s[i + 1..] == [] && HeldBack(s, boundary, i + 1);
        return true, i + 1, Piece(s[..markEnd]), markEnd;
      }
      stop := false;
    }

    /** s_part_data_almost_boundary: a carriage return has been seen. */
    method OnAlmostBoundary(s: seq<Byte>, i: nat, markEnd0: nat)
      returns (stop: bool, consumed: nat, event: Event, markEnd: nat)
      requires IsBoundary(boundary) && i < |s| && state == AlmostBoundary && Scanning(s, i, markEnd0)
      modifies this
      ensures stop ==> NotFound(s, consumed, event)
      ensures !stop ==> i + 1 < |s| && Scanning(s, i + 1, markEnd)
    {
      if s[i] == LF {
        markEnd := markEnd0;
        stop, consumed, event := OnLineFeed(s, i, markEnd0);
      } else {
        if Matching(state, index, boundary, s, i) {
          RolledBack(state, index, boundary, s, i);
        } else {
          StaleRolledBack(boundary, s, i);
        }
        state := PartData;
        stop, consumed, event, markEnd := OnData(s, i);
      }
    }

    /** The line feed after the carriage return. */
    method OnLineFeed(s: seq<Byte>, i: nat, markEnd: nat) returns (stop: bool, consumed: nat, event: Event)
      requires IsBoundary(boundary) && i < |s| && state == AlmostBoundary && Scanning(s, i, markEnd) && s[i] == LF
      modifies this
      ensures stop ==> NotFound(s, consumed, event)
      ensures !stop ==> i + 1 < |s| && Scanning(s, i + 1, markEnd)
    {
      stop, consumed, event := true, 0, Nothing;
      ghost var inMatch := Matching(state, index, boundary, s, i);
      if inMatch { Advanced(state, index, boundary, s, i); }
      if i == |s| - 1 {
        assert inMatch;
        TailTooShort(boundary, s, i - 1);
        assert s[i - 1] == s[i - 1..i][0] && s[i - 1..] == s[i - 1..i + 1];
        assert HeldBack(s, boundary, i - 1);
        if i > 2 { return true, markEnd, Piece(s[..markEnd]); }
        return;
      }
      state := InBoundary;
      index := 0;
      stop := false;
    }

    /** s_part_data_boundary: CRLF and `index` bytes of the boundary have been seen. */
    method OnBoundary(s: seq<Byte>, i: nat, markEnd0: nat)
      returns (stop: bool, consumed: nat, event: Event, markEnd: nat)
      requires IsBoundary(boundary) && i < |s| && state == InBoundary && Scanning(s, i, markEnd0)
      modifies this
      ensures stop ==> Found(s, consumed, event) || NotFound(s, consumed, event)
      ensures !stop ==> i + 1 < |s| && Scanning(s, i + 1, markEnd)
    {
      if boundary[index] != s[i] {
        if Matching(state, index, boundary, s, i) {
          RolledBack(state, index, boundary, s, i);
        } else {
          StaleRolledBack(boundary, s, i);
        }
        state := PartData;
        stop, consumed, event, markEnd := OnData(s, i);
      } else {
        assert Matching(state, index, boundary, s, i);
        markEnd := markEnd0;
        stop, consumed, event := OnMatch(s, i, markEnd0);
      }
    }

    /** One byte more of the boundary. */
    method OnMatch(s: seq<Byte>, i: nat, markEnd: nat) returns (stop: bool, consumed: nat, event: Event)
      requires IsBoundary(boundary) && i < |s| && state == InBoundary && Scanning(s, i, markEnd)
      requires Matching(state, index, boundary, s, i) && boundary[index] == s[i]
      modifies this
      ensures stop ==> Found(s, consumed, event) || NotFound(s, consumed, event)
      ensures !stop ==> i + 1 < |s| && Scanning(s, i + 1, markEnd)
    {
      stop, consumed, event := true, 0, Nothing;
      ghost var start := i - index - 2;
      Advanced(state, index, boundary, s, i);
      assert s[start] == s[start..i + 1][0] == CR;
      if i == |s| - 1 {
        consumed, event := OnLastMatch(s, i, markEnd);
        return;
      }
      index := index + 1;
      if index == |boundary| {
        state := AlmostEnd;
        assert Delimiter(boundary)[..index + 2] == Delimiter(boundary);
        forall j | 0 <= j < start ensures !OccursAt(s, boundary, j) { NeverMeansNot(boundary, s, j); }
        return true, i + 1, Piece(s[..i + 1 - |boundary| - 2]);
      }
      stop := false;
    }

    /** One that ends the buffer. */
    method OnLastMatch(s: seq<Byte>, i: nat, markEnd: nat) returns (consumed: nat, event: Event)
      requires IsBoundary(boundary) && i == |s| - 1 && state == InBoundary && Scanning(s, i, markEnd)
      requires Matching(state, index, boundary, s, i) && boundary[index] == s[i]
      ensures NotFound(s, consumed, event)
    {
      ghost var start := i - index - 2;
      Advanced(state, index, boundary, s, i);
      assert s[start] == s[start..i + 1][0] == CR;
      TailTooShort(boundary, s, start);
      assert s[start..] == s[start..i + 1] && HeldBack(s, boundary, start);
      consumed, event := 0, Nothing;
      if i > index + 2 { return i - index - 2, Piece(s[..markEnd]); }
    }

    /** The state machine's step on byte i. */
    method Step(s: seq<Byte>, i: nat, markEnd0: nat)
      returns (stop: bool, consumed: nat, event: Event, markEnd: nat)
      requires IsBoundary(boundary) && i < |s| && Scanning(s, i, markEnd0)
      modifies this
      ensures stop ==> Found(s, consumed, event) || NotFound(s, consumed, event)
      ensures !stop ==> i + 1 < |s| && Scanning(s, i + 1, markEnd)
    {
      match state {
        case PartData =>
          assert s[i] != CR ==> s[i + 0] != Delimiter(boundary)[0];
          stop, consumed, event, markEnd := OnData(s, i);
        case AlmostBoundary => stop, consumed, event, markEnd := OnAlmostBoundary(s, i, markEnd0);
        case InBoundary => stop, consumed, event, markEnd := OnBoundary(s, i, markEnd0);
      }
    }

    /** multipart_parser_execute, entered in one of the part-data states. */
    method Execute(s: seq<Byte>) returns (consumed: nat, event: Event)
      requires IsBoundary(boundary) && Resumable(state, index, boundary, s)
      modifies this
      ensures Found(s, consumed, event) || NotFound(s, consumed, event)
    {
      var i, markEnd, stop := 0, 0, false;
      while i < |s|
        invariant 0 <= i <= |s| && (i == |s| ==> |s| == 0)
        invariant Scanning(s, i, markEnd)
      {
        stop, consumed, event, markEnd := Step(s, i, markEnd);
        if stop { return; }
        i := i + 1;
      }
      TailTooShort(boundary, s, 0);
      assert s[0..] == Delimiter(boundary)[..0] && HeldBack(s, boundary, 0);
      consumed, event := 0, Nothing;
    }

    /** The caller keeps what the data callback is given. */
    method Note(pieces0: seq<seq<Byte>>, event: Event, ghost body: seq<Byte>, ghost pos: nat, ghost cut: nat)
      returns (pieces: seq<seq<Byte>>)
      requires pos <= cut <= |body| && Joined(pieces0) == body[..pos]
      requires event.Piece? ==> pos + |event.data| <= cut && event.data == body[pos..cut][..|event.data|]
      ensures Joined(pieces) == body[..pos + if event.Piece? then |event.data| else 0]
    {
      pieces := pieces0;
      if event.Piece? {
        pieces := pieces0 + [event.data];
        JoinedOneMore(body, pos, cut, pieces0, |event.data|);
      }
    }

    /** The part has ended: the pieces are the body up to the first delimiter. */
    ghost predicate Ended(body: seq<Byte>, pieces: seq<seq<Byte>>, pos: nat)
    {
      && FirstAt(body, boundary, |Joined(pieces)|) && Joined(pieces) == body[..|Joined(pieces)|]
      && pos == |Joined(pieces)| + |boundary| + 2
    }

    /** It goes on: all up to pos has been reported and holds no start of a delimiter. */
    ghost predicate Going(body: seq<Byte>, pieces: seq<seq<Byte>>, pos: nat, cut: nat)
      reads this
    {
      && pos <= cut <= |body| && Joined(pieces) == body[..pos] && NeverBefore(body, boundary, pos)
      && Resumable(state, index, boundary, body[pos..cut])
    }

    /** One call of the caller's loop, with the bytes from pos up to cut. */
    method Round(body: seq<Byte>, pos0: nat, ghost cut0: nat, cut: nat, pieces0: seq<seq<Byte>>)
      returns (pieces: seq<seq<Byte>>, pos: nat, ended: bool)
      requires IsBoundary(boundary) && cut0 <= cut <= |body| && Going(body, pieces0, pos0, cut0)
      modifies this
      ensures ended ==> Ended(body, pieces, pos) && pos <= cut
      ensures !ended ==> Going(body, pieces, pos, cut) && EndsFrom(body, boundary, cut)
      ensures !ended ==> pos0 <= pos && Prompt(body[pos0..cut], boundary, pos - pos0)
    {
      var s := body[pos0..cut];
      assert body[pos0..cut0] == s[..cut0 - pos0];
      var consumed, event := Execute(s);
      pos, ended := pos0 + consumed, state == AlmostEnd;
      pieces := Note(pieces0, event, body, pos0, cut);
      if ended {
        FirstInBody(body, boundary, pos0, cut, |event.data|);
      } else {
        NeverInBody(body, boundary, pos0, cut, consumed);
        assert s[consumed..] == body[pos..cut];
        LateInBody(body, boundary, pos0, cut);
      }
    }

    /**
      * The caller: the bytes of a part's data and all that follows arrive in any cuts; each
      * call gets every byte received and not yet consumed.  The pieces reported are exactly
      * the bytes before the first CRLF + boundary, none lost, repeated or taken from the
      * boundary; and the part ends as soon as that delimiter and one more byte have arrived.
      */
    method Feed(body: seq<Byte>, cuts: seq<nat>) returns (pieces: seq<seq<Byte>>, pos: nat, ended: bool)
      requires IsBoundary(boundary) && state == PartData
      requires forall i :: 0 <= i < |cuts| ==> cuts[i] <= |body|
      requires forall i, j :: 0 <= i < j < |cuts| ==> cuts[i] <= cuts[j]
      modifies this
      ensures ended ==> Ended(body, pieces, pos)
      ensures !ended ==> pos <= |body| && Joined(pieces) == body[..pos]
      ensures !ended ==> forall q: nat :: q < pos ==> !OccursAt(body, boundary, q)
      ensures !ended && cuts != [] ==> EndsFrom(body, boundary, cuts[|cuts| - 1])
      ensures !ended && cuts != [] ==> cuts[|cuts| - 1] <= pos + |boundary| + 2
    {
      pieces, pos, ended := [], 0, false;
      ghost var cut := 0;
      var r := 0;
      while r < |cuts| && !ended
        invariant 0 <= r <= |cuts| && cut == (if r == 0 then 0 else cuts[r - 1])
        invariant ended ==> Ended(body, pieces, pos)
        invariant !ended ==> Going(body, pieces, pos, cut)
        invariant !ended && r > 0 ==> EndsFrom(body, boundary, cut) && cut <= pos + |boundary| + 2
        decreases |cuts| - r
      {
        ghost var before := pos;
        pieces, pos, ended := Round(body, pos, cut, cuts[r], pieces);
        cut := cuts[r];
        if !ended { PromptBound(body[before..cut], boundary, pos - before); }
        r := r + 1;
      }
      if !ended {
        forall q: nat | q < pos ensures !OccursAt(body, boundary, q) { NeverMeansNot(boundary, body, q); }
      }
    }
  }
}
