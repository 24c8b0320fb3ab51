/**
 * The listing order of `GET /api/notes`: the caller's rows, most recently
 * created first. The query fixes only `ORDER BY created_at DESC`; rows with
 * equal timestamps may come back in any order, and the sort below is one
 * such order (it keeps table order among equals).
 */
module Ordering {
  import opened Records

  /** Most recent first: `created_at` never increases along the sequence. */
  predicate NewestFirst(s: seq<Note>) {
    forall i, j :: 0 <= i < j < |s| ==> s[i].createdAt >= s[j].createdAt
  }

  /** Puts `x` into a newest-first sequence ahead of every row no newer than it. */
  function Insert(x: Note, s: seq<Note>): (r: seq<Note>)
    requires NewestFirst(s)
    ensures NewestFirst(r)
    ensures multiset(r) == multiset(s) + multiset{x}
    ensures |r| > 0 && (r[0] == x || (|s| > 0 && r[0] == s[0]))
  {
    if |s| == 0 || x.createdAt >= s[0].createdAt then [x] + s
    else
      assert s == [s[0]] + s[1..];
      [s[0]] + Insert(x, s[1..])
  }

  /** Sorts newest first. */
  function SortNewestFirst(s: seq<Note>): (r: seq<Note>)
    ensures NewestFirst(r)
    ensures multiset(r) == multiset(s)
  {
    if |s| == 0 then []
    else
      assert s == [s[0]] + s[1..];
      Insert(s[0], SortNewestFirst(s[1..]))
  }
}
