/** Sequences cut by a terminator: the pieces can be read back from the whole in only one way. */
module Framing {

  /** Every piece followed by the terminator, in order. */
  function Terminated<T>(pieces: seq<seq<T>>, end: T): seq<T> {
    if pieces == [] then [] else pieces[0] + [end] + Terminated(pieces[1..], end)
  }

  ghost predicate Free<T>(piece: seq<T>, end: T) {
    forall i :: 0 <= i < |piece| ==> piece[i] != end
  }

  lemma NoEarlierEnd<T>(whole: seq<T>, a: seq<T>, rest: seq<T>, end: T)
    requires Free(a, end) && whole == a + [end] + rest
    ensures forall k :: 0 <= k < |a| ==> whole[k] != end
    ensures whole[|a|] == end
  {
  }

  /** The first terminator marks where the first piece ends. */
  lemma FirstPiece<T>(a: seq<T>, rest: seq<T>, b: seq<T>, rest': seq<T>, end: T)
    requires Free(a, end) && Free(b, end)
    requires a + [end] + rest == b + [end] + rest'
    ensures a == b && rest == rest'
  {
    var whole := a + [end] + rest;
    NoEarlierEnd(whole, a, rest, end);
    NoEarlierEnd(whole, b, rest', end);
    assert |a| == |b|;
    assert a == whole[..|a|] && b == whole[..|b|];
    assert rest == whole[|a| + 1..] && rest' == whole[|b| + 1..];
  }

  lemma {:induction false} TerminatedInjective<T>(pieces: seq<seq<T>>, pieces': seq<seq<T>>, end: T)
    requires forall i :: 0 <= i < |pieces| ==> Free(pieces[i], end)
    requires forall i :: 0 <= i < |pieces'| ==> Free(pieces'[i], end)
    requires Terminated(pieces, end) == Terminated(pieces', end)
    ensures pieces == pieces'
  {
    if pieces != [] && pieces' != [] {
      FirstPiece(pieces[0], Terminated(pieces[1..], end), pieces'[0], Terminated(pieces'[1..], end), end);
      TerminatedInjective(pieces[1..], pieces'[1..], end);
      assert pieces == [pieces[0]] + pieces[1..] && pieces' == [pieces'[0]] + pieces'[1..];
    }
  }

  lemma {:induction false} TerminatedAppend<T>(pieces: seq<seq<T>>, more: seq<seq<T>>, end: T)
    ensures Terminated(pieces + more, end) == Terminated(pieces, end) + Terminated(more, end)
  {
    if pieces == [] {
      assert pieces + more == more;
    } else {
      TerminatedAppend(pieces[1..], more, end);
      assert (pieces + more)[1..] == pieces[1..] + more;
    }
  }
}
