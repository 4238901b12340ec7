/**
 * Ranking the scored candidates: a stable sort ascending by score.
 *
 * `InsertionSorted` is the specification (an insertion sort on sequences),
 * `InsertionSort` sorts an array in place and is proved to produce exactly
 * that sequence. The lemmas show that the result is ordered by score, is a
 * permutation of the input, keeps candidates of equal score in their input
 * order, and is the only sequence with those properties: any stable sort by
 * score yields the same list.
 */
module Ranking {
  import opened Tables

  /** Ascending by score. */
  predicate Sorted(s: seq<Candidate>) {
    forall i, j :: 0 <= i < j < |s| ==> s[i].score <= s[j].score
  }

  /** The candidates of `s` whose score is `k`, in their order in `s`. */
  function WithScore(s: seq<Candidate>, k: int): seq<Candidate> {
    if s == [] then []
    else WithScore(s[..|s| - 1], k) + (if s[|s| - 1].score == k then [s[|s| - 1]] else [])
  }

  /**
   * `t` is what a stable sort by score makes of `s`: ordered by score, and for
   * every score the candidates carrying it appear in the same order as in `s`.
   */
  ghost predicate IsStableSortOf(t: seq<Candidate>, s: seq<Candidate>) {
    Sorted(t) && forall k :: WithScore(t, k) == WithScore(s, k)
  }

  /** Puts `x` after every element of `s` whose score is at most its own. */
  function Insert(s: seq<Candidate>, x: Candidate): (r: seq<Candidate>)
    ensures |r| == |s| + 1
  {
    if s == [] || s[|s| - 1].score <= x.score then s + [x]
    else Insert(s[..|s| - 1], x) + [s[|s| - 1]]
  }

  /** Insertion sort, taking the elements of `s` from left to right. */
  function InsertionSorted(s: seq<Candidate>): (r: seq<Candidate>)
    ensures |r| == |s|
  {
    if s == [] then [] else Insert(InsertionSorted(s[..|s| - 1]), s[|s| - 1])
  }

  lemma {:induction false} WithScoreSnoc(s: seq<Candidate>, x: Candidate, k: int)
    ensures WithScore(s + [x], k) == WithScore(s, k) + (if x.score == k then [x] else [])
    ensures x.score != k ==> WithScore(s + [x], k) == WithScore(s, k)
  {
  }

  lemma {:induction false} InsertPermutes(s: seq<Candidate>, x: Candidate)
    ensures multiset(Insert(s, x)) == multiset(s) + multiset{x}
  {
    if s != [] && s[|s| - 1].score > x.score {
      var init := s[..|s| - 1];
      assert s == init + [s[|s| - 1]];
      InsertPermutes(init, x);
    }
  }

  /** The insertion sort is a permutation of its input. */
  lemma {:induction false} InsertionSortedPermutes(s: seq<Candidate>)
    ensures multiset(InsertionSorted(s)) == multiset(s)
  {
    if s != [] {
      var init := s[..|s| - 1];
      assert s == init + [s[|s| - 1]];
      InsertionSortedPermutes(init);
      InsertPermutes(InsertionSorted(init), s[|s| - 1]);
    }
  }

  lemma {:induction false} InsertSorted(s: seq<Candidate>, x: Candidate)
    requires Sorted(s)
    ensures Sorted(Insert(s, x))
    ensures Insert(s, x) != [] && Insert(s, x)[|Insert(s, x)| - 1].score == if s == [] || s[|s| - 1].score <= x.score then x.score else s[|s| - 1].score
  {
    if s == [] || s[|s| - 1].score <= x.score {
    } else {
      var init := s[..|s| - 1];
      InsertSorted(init, x);
      var r := Insert(init, x);
      assert r != [] && (r[|r| - 1].score == x.score || r[|r| - 1].score == init[|init| - 1].score);
    }
  }

  lemma {:induction false} InsertKeepsRuns(s: seq<Candidate>, x: Candidate, k: int)
    ensures WithScore(Insert(s, x), k) == WithScore(s, k) + (if x.score == k then [x] else [])
  {
    if s == [] || s[|s| - 1].score <= x.score {
      WithScoreSnoc(s, x, k);
    } else {
      var init, last := s[..|s| - 1], s[|s| - 1];
      assert s == init + [last];
      var xs: seq<Candidate> := if x.score == k then [x] else [];
      var ls: seq<Candidate> := if last.score == k then [last] else [];
      calc {
        WithScore(Insert(s, x), k);
        WithScore(Insert(init, x) + [last], k);
        { WithScoreSnoc(Insert(init, x), last, k); }
        WithScore(Insert(init, x), k) + ls;
        { InsertKeepsRuns(init, x, k); }
        WithScore(init, k) + xs + ls;
        // x scores less than last, so at most one of them scores k
        { assert xs == [] || ls == []; }
        WithScore(init, k) + ls + xs;
        { WithScoreSnoc(init, last, k); }
        WithScore(s, k) + xs;
      }
    }
  }

  /** The insertion sort is ordered by score. */
  lemma {:induction false} InsertionSortedIsSorted(s: seq<Candidate>)
    ensures Sorted(InsertionSorted(s))
  {
    if s != [] {
      InsertionSortedIsSorted(s[..|s| - 1]);
      InsertSorted(InsertionSorted(s[..|s| - 1]), s[|s| - 1]);
    }
  }

  /** The insertion sort keeps candidates of equal score in their input order. */
  lemma {:induction false} InsertionSortedKeepsRuns(s: seq<Candidate>, k: int)
    ensures WithScore(InsertionSorted(s), k) == WithScore(s, k)
  {
    if s != [] {
      var init, last := s[..|s| - 1], s[|s| - 1];
      assert s == init + [last];
      assert InsertionSorted(s) == Insert(InsertionSorted(init), last);
      InsertionSortedKeepsRuns(init, k);
      InsertKeepsRuns(InsertionSorted(init), last, k);
      WithScoreSnoc(init, last, k);
    }
  }

  /** The insertion sort is a stable sort by score of its input. */
  lemma InsertionSortedIsStableSort(s: seq<Candidate>)
    ensures IsStableSortOf(InsertionSorted(s), s)
  {
    InsertionSortedIsSorted(s);
    forall k ensures WithScore(InsertionSorted(s), k) == WithScore(s, k) {
      InsertionSortedKeepsRuns(s, k);
    }
  }

  lemma {:induction false} WithScoreMembers(s: seq<Candidate>, k: int, c: Candidate)
    ensures c in WithScore(s, k) <==> c in s && c.score == k
  {
    if s != [] {
      var init, last := s[..|s| - 1], s[|s| - 1];
      WithScoreMembers(init, k, c);
      assert s == init + [last];
    }
  }

  /** Only the empty sequence has no candidate of any score. */
  lemma EmptyRunsEmpty(s: seq<Candidate>)
    ensures s == [] <==> forall k :: WithScore(s, k) == []
  {
    if s != [] {
      WithScoreMembers(s, s[0].score, s[0]);
    }
  }

  lemma LastScoresMost(s: seq<Candidate>, c: Candidate)
    requires Sorted(s) && c in s
    ensures c.score <= s[|s| - 1].score
  {
  }

  lemma SnocInjective(a: seq<Candidate>, x: Candidate, b: seq<Candidate>, y: Candidate)
    requires a + [x] == b + [y]
    ensures a == b && x == y
  {
    assert |a| == |b|;
    assert a == (a + [x])[..|a|];
    assert b == (b + [y])[..|b|];
    assert x == (a + [x])[|a|];
  }

  /** Dropping a last element of the same score from both sides keeps the runs equal. */
  lemma DropLastKeepsRuns(t: seq<Candidate>, x: Candidate, u: seq<Candidate>, y: Candidate)
    requires x.score == y.score
    requires forall k :: WithScore(t + [x], k) == WithScore(u + [y], k)
    ensures x == y
    ensures forall k :: WithScore(t, k) == WithScore(u, k)
  {
    WithScoreSnoc(t, x, x.score);
    WithScoreSnoc(u, y, x.score);
    SnocInjective(WithScore(t, x.score), x, WithScore(u, y.score), y);
    forall k | k != x.score ensures WithScore(t, k) == WithScore(u, k) {
      WithScoreSnoc(t, x, k);
      WithScoreSnoc(u, y, k);
      assert WithScore(t + [x], k) == WithScore(u + [y], k);
    }
  }

  /** Two sorted sequences with the same runs end with the same score. */
  lemma LastsScoreAlike(t: seq<Candidate>, u: seq<Candidate>)
    requires t != [] && u != []
    requires Sorted(t) && Sorted(u)
    requires forall k :: WithScore(t, k) == WithScore(u, k)
    ensures t[|t| - 1].score == u[|u| - 1].score
  {
    var x, y := t[|t| - 1], u[|u| - 1];
    // x occurs in u and y in t, so each scores at most the other.
    WithScoreMembers(t, x.score, x);
    WithScoreMembers(u, x.score, x);
    LastScoresMost(u, x);
    WithScoreMembers(u, y.score, y);
    WithScoreMembers(t, y.score, y);
    LastScoresMost(t, y);
  }

  /**
   * A stable sort by score is unique: two sequences that are ordered by score
   * and agree on the order of every score's candidates are equal.
   */
  lemma {:induction false} StableSortUnique(t: seq<Candidate>, u: seq<Candidate>)
    requires Sorted(t) && Sorted(u)
    requires forall k :: WithScore(t, k) == WithScore(u, k)
    ensures t == u
    decreases |t|
  {
    if t == [] || u == [] {
      EmptyRunsEmpty(t);
      EmptyRunsEmpty(u);
    } else {
      var t', x := t[..|t| - 1], t[|t| - 1];
      var u', y := u[..|u| - 1], u[|u| - 1];
      assert t == t' + [x] && u == u' + [y];
      LastsScoreAlike(t, u);
      DropLastKeepsRuns(t', x, u', y);
      StableSortUnique(t', u');
    }
  }

  /** Whatever stable sort the caller uses, the result is the insertion sort. */
  lemma EveryStableSortIsInsertionSorted(t: seq<Candidate>, s: seq<Candidate>)
    requires IsStableSortOf(t, s)
    ensures t == InsertionSorted(s)
  {
    InsertionSortedIsStableSort(s);
    StableSortUnique(t, InsertionSorted(s));
  }

  /**
   * `x` belongs at position `j` of `s`: everything before it scores at most
   * `x`, everything from `j` on scores more.
   */
  lemma {:induction false} InsertAt(s: seq<Candidate>, x: Candidate, j: int)
    requires 0 <= j <= |s|
    requires j > 0 ==> s[j - 1].score <= x.score
    requires forall m :: j <= m < |s| ==> s[m].score > x.score
    ensures Insert(s, x) == s[..j] + [x] + s[j..]
    decreases |s|
  {
    if j == |s| {
      assert s[..j] == s && s[j..] == [];
    } else {
      var init, last := s[..|s| - 1], s[|s| - 1];
      InsertAt(init, x, j);
      assert init[..j] == s[..j];
      assert init[j..] + [last] == s[j..];
    }
  }

  lemma InsertionSortedStep(s: seq<Candidate>, i: nat)
    requires i < |s|
    ensures InsertionSorted(s[..i + 1]) == Insert(InsertionSorted(s[..i]), s[i])
  {
    assert s[..i + 1][..i] == s[..i];
  }

  /** A sequence laid out as `s[..j] + [x] + s[j..]`, at a place where `x` belongs, is `Insert(s, x)`. */
  lemma ShiftedIsInsert(s: seq<Candidate>, x: Candidate, j: int, r: seq<Candidate>)
    requires 0 <= j <= |s| && |r| == |s| + 1
    requires j > 0 ==> s[j - 1].score <= x.score
    requires forall m :: j <= m < |s| ==> s[m].score > x.score
    requires forall m :: 0 <= m < j ==> r[m] == s[m]
    requires r[j] == x
    requires forall m :: j < m < |r| ==> r[m] == s[m - 1]
    ensures r == Insert(s, x)
  {
    InsertAt(s, x, j);
    assert r == s[..j] + [x] + s[j..];
  }

  /**
   * Moves `a[i]` left past the larger-scored elements of the prefix `a[..i]`,
   * shifting them one place right: the prefix `a[..i + 1]` becomes
   * `Insert(a[..i], a[i])` and nothing beyond it changes.
   */
  method InsertLast(a: array<Candidate>, i: nat)
    requires i < a.Length
    modifies a
    ensures a[..i + 1] == Insert(old(a[..i]), old(a[i]))
    ensures forall m :: i < m < a.Length ==> a[m] == old(a[m])
  {
    ghost var done := a[..i];
    var x := a[i];
    var j := i;
    while j > 0 && a[j - 1].score > x.score
      invariant 0 <= j <= i
      invariant forall m :: 0 <= m < j ==> a[m] == done[m]
      invariant forall m :: j < m <= i ==> a[m] == done[m - 1]
      invariant forall m :: j <= m < i ==> done[m].score > x.score
      invariant forall m :: i < m < a.Length ==> a[m] == old(a[m])
    {
      assert a[j - 1] == done[j - 1];
      a[j] := a[j - 1];
      j := j - 1;
    }
    a[j] := x;
    ShiftedIsInsert(done, x, j, a[..i + 1]);
  }

  /** Sorts `a` in place by score, stably: the same order as `InsertionSorted`. */
  method InsertionSort(a: array<Candidate>)
    modifies a
    ensures a[..] == InsertionSorted(old(a[..]))
  {
    ghost var s := a[..];
    var i := 0;
    while i < a.Length
      invariant 0 <= i <= a.Length
      invariant a[..i] == InsertionSorted(s[..i])
      invariant forall m :: i <= m < a.Length ==> a[m] == s[m]
    {
      InsertLast(a, i);
      InsertionSortedStep(s, i);
      i := i + 1;
    }
    assert a[..] == a[..a.Length] && s == s[..a.Length];
  }
}
