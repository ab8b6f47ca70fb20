/** Choosing the best-scored candidate move (findBestMove). */
module Selection {
  import opened Geometry

  /** A candidate move and its score (std::pair<Direction, int>). */
  datatype Move = Move(dir: Direction, score: int)

  /** Highest score first. */
  ghost predicate SortedByScore(s: seq<Move>) {
    forall i, j :: 0 <= i < j < |s| ==> s[i].score >= s[j].score
  }

  /** `d` is the direction of an entry whose score no other entry exceeds. */
  ghost predicate IsTopEntry(s: seq<Move>, d: Direction) {
    exists k :: 0 <= k < |s| && s[k].dir == d && forall m :: 0 <= m < |s| ==> s[m].score <= s[k].score
  }

  /** The front of a sorted permutation of `s` is an entry of `s` with a
      maximal score. */
  lemma FrontOfSortedIsTop(s: seq<Move>, t: seq<Move>)
    requires |t| > 0 && SortedByScore(t) && multiset(s) == multiset(t)
    ensures t[0] in s
    ensures IsTopEntry(s, t[0].dir)
  {
    assert t[0] in multiset(t);
    var k :| 0 <= k < |s| && s[k] == t[0];
    forall m | 0 <= m < |s|
      ensures s[m].score <= s[k].score
    {
      assert s[m] in multiset(t);
      var j :| 0 <= j < |t| && t[j] == s[m];
    }
  }

  /** The position of a highest-scored entry of a[from..]. */
  method IndexOfTop(a: array<Move>, from: nat) returns (best: nat)
    requires from < a.Length
    ensures from <= best < a.Length
    ensures forall m :: from <= m < a.Length ==> a[m].score <= a[best].score
  {
    best := from;
    var j := from + 1;
    while j < a.Length
      invariant from <= best < a.Length && from + 1 <= j <= a.Length
      invariant forall m :: from <= m < j ==> a[m].score <= a[best].score
    {
      if a[j].score > a[best].score {
        best := j;
      }
      j := j + 1;
    }
  }

  /** Exchanges the entries at `i` and `j`. */
  method Swap(a: array<Move>, i: nat, j: nat)
    requires i < a.Length && j < a.Length
    modifies a
    ensures a[..] == old(a[..])[i := old(a[j])][j := old(a[i])]
    ensures multiset(a[..]) == old(multiset(a[..]))
  {
    a[i], a[j] := a[j], a[i];
  }

  /** `std::sort` with the comparator `a.second > b.second`: sorts in place,
      highest score first. Like `std::sort` it is not stable; only the order
      of the scores is promised. */
  method SortByScore(a: array<Move>)
    modifies a
    ensures SortedByScore(a[..])
    ensures multiset(a[..]) == old(multiset(a[..]))
  {
    var i := 0;
    while i < a.Length
      invariant 0 <= i <= a.Length
      invariant forall k, m :: 0 <= k < m < i ==> a[k].score >= a[m].score
      invariant forall k, m :: 0 <= k < i <= m < a.Length ==> a[k].score >= a[m].score
      invariant multiset(a[..]) == old(multiset(a[..]))
    {
      var best := IndexOfTop(a, i);
      ghost var before := a[..];
      Swap(a, i, best);
      assert forall m :: 0 <= m < a.Length ==> a[m] == before[i := before[best]][best := before[i]][m];
      i := i + 1;
    }
  }

  /** Returns north for an empty list; otherwise sorts the list in place,
      highest score first, and returns the direction at the front. */
  method FindBestMove(moves: array<Move>) returns (r: Direction)
    modifies moves
    ensures moves.Length == 0 ==> r == North
    ensures moves.Length > 0 ==> r == moves[0].dir && IsTopEntry(old(moves[..]), r)
    ensures SortedByScore(moves[..])
    ensures multiset(moves[..]) == old(multiset(moves[..]))
  {
    if moves.Length == 0 {
      return North;
    }
    SortByScore(moves);
    FrontOfSortedIsTop(old(moves[..]), moves[..]);
    r := moves[0].dir;
  }
}
