/**
 * Sequence operations both sides use: filtering (SQL `WHERE`, JavaScript's
 * `Array.prototype.filter`) and Python's `list.remove`.
 */
module Seqs {

  /** The elements of `s` that satisfy `keep`, in their original order. */
  function Filter<T(!new)>(s: seq<T>, keep: T -> bool): (r: seq<T>)
    ensures |r| <= |s|
    ensures forall x :: multiset(r)[x] == if keep(x) then multiset(s)[x] else 0
  {
    if |s| == 0 then []
    else
      assert s == [s[0]] + s[1..];
      if keep(s[0]) then [s[0]] + Filter(s[1..], keep) else Filter(s[1..], keep)
  }

  /** `idx` picks `r` out of `s` at strictly increasing positions. */
  ghost predicate Embeds<T>(r: seq<T>, s: seq<T>, idx: seq<nat>) {
    && |idx| == |r|
    && (forall i :: 0 <= i < |idx| ==> idx[i] < |s| && r[i] == s[idx[i]])
    && (forall i, j :: 0 <= i < j < |idx| ==> idx[i] < idx[j])
  }

  /** Positions in `s[1..]` are positions in `s` moved up by one. */
  function Shift(idx: seq<nat>): (r: seq<nat>)
    ensures |r| == |idx|
    ensures forall i :: 0 <= i < |idx| ==> r[i] == idx[i] + 1
  {
    seq(|idx|, i requires 0 <= i < |idx| => idx[i] + 1)
  }

  lemma EmbedsInTail<T>(r: seq<T>, s: seq<T>, idx: seq<nat>)
    requires |s| > 0 && Embeds(r, s[1..], idx)
    ensures Embeds(r, s, Shift(idx))
    ensures forall i :: 0 <= i < |idx| ==> Shift(idx)[i] > 0
  {
  }

  lemma EmbedsCons<T>(r: seq<T>, s: seq<T>, idx: seq<nat>)
    requires |s| > 0 && Embeds(r, s, idx)
    requires forall i :: 0 <= i < |idx| ==> idx[i] > 0
    ensures Embeds([s[0]] + r, s, [0] + idx)
  {
  }

  /** Filtering keeps the survivors in their original order: it yields a subsequence. */
  lemma {:induction false} FilterIsSubsequence<T(!new)>(s: seq<T>, keep: T -> bool) returns (idx: seq<nat>)
    ensures Embeds(Filter(s, keep), s, idx)
  {
    if |s| == 0 {
      idx := [];
    } else {
      var tail := Filter(s[1..], keep);
      var rest := FilterIsSubsequence(s[1..], keep);
      EmbedsInTail(tail, s, rest);
      if keep(s[0]) {
        EmbedsCons(tail, s, Shift(rest));
        idx := [0] + Shift(rest);
      } else {
        idx := Shift(rest);
      }
    }
  }

  /** A filter that keeps everything is the identity. */
  lemma {:induction false} FilterKeepAll<T(!new)>(s: seq<T>, keep: T -> bool)
    requires forall i :: 0 <= i < |s| ==> keep(s[i])
    ensures Filter(s, keep) == s
  {
    if |s| > 0 {
      FilterKeepAll(s[1..], keep);
    }
  }

  /** Python's `s.index(x)`: the position of the first `x`. */
  function IndexOf<T(==)>(s: seq<T>, x: T): (i: nat)
    requires x in s
    ensures i < |s| && s[i] == x && x !in s[..i]
  {
    if s[0] == x then 0
    else
      var i := IndexOf(s[1..], x);
      assert s[..i + 1] == [s[0]] + s[1..][..i];
      i + 1
  }

  /** Python's `s.remove(x)` on a list that holds `x`: drops the first `x`, and nothing else. */
  function RemoveFirst<T(==)>(s: seq<T>, x: T): (r: seq<T>)
    ensures x !in s ==> r == s
    ensures x in s ==> |r| == |s| - 1
  {
    if |s| == 0 then []
    else if s[0] == x then s[1..]
    else
      assert x !in s[1..] ==> s == [s[0]] + s[1..];
      [s[0]] + RemoveFirst(s[1..], x)
  }

  /** What `RemoveFirst` leaves: everything before the first `x` and everything after it. */
  lemma {:induction false} RemoveFirstAtIndex<T>(s: seq<T>, x: T)
    requires x in s
    ensures RemoveFirst(s, x) == s[..IndexOf(s, x)] + s[IndexOf(s, x) + 1..]
  {
    if s[0] != x {
      var j := IndexOf(s[1..], x);
      RemoveFirstAtIndex(s[1..], x);
      assert IndexOf(s, x) == j + 1;
      assert s[..j + 1] == [s[0]] + s[1..][..j];
      assert s[j + 2..] == s[1..][j + 1..];
    }
  }

  /** Removing the first `x` after appending an `x` the list did not hold gives back the list. */
  lemma {:induction false} RemoveFirstAppended<T>(s: seq<T>, x: T)
    requires x !in s
    ensures RemoveFirst(s + [x], x) == s
  {
    if |s| > 0 {
      assert (s + [x])[1..] == s[1..] + [x];
      RemoveFirstAppended(s[1..], x);
    }
  }
}
