/**
  `Array.prototype.sort`, which `sortJobs` applies to a copy of the jobs.
  SortSeq is the stable insertion sort, as a function of the
  comparator; StableSort performs it in place on an array and is proved to
  compute SortSeq.
*/
module Sorting {
  import opened Jobs

  /** A comparator in the sense of `Array.prototype.sort`: negative, zero or
      positive. */
  type Comparator = (Job, Job) -> int

  /** `a` may stay in front of `b`: the comparator does not return a positive value. */
  predicate LessEq(cmp: Comparator, a: Job, b: Job) {
    cmp(a, b) <= 0
  }

  /** The comparator calls `a` and `b` equal. */
  predicate SameKey(cmp: Comparator, a: Job, b: Job) {
    cmp(a, b) == 0
  }

  /** What a sort needs of its comparator, a consistent comparator in the
      sense of `Array.prototype.sort`: any two jobs are ordered one way or
      the other, the order is transitive, jobs equal to a common third may
      stand in either order, and the comparator returns zero exactly for the
      pairs that may stand in either order. */
  ghost predicate IsTotalPreorder(cmp: Comparator) {
    && (forall a, b :: SameKey(cmp, a, b) <==> LessEq(cmp, a, b) && LessEq(cmp, b, a))
    && (forall a, b :: LessEq(cmp, a, b) || LessEq(cmp, b, a))
    && (forall a, b, c :: LessEq(cmp, a, b) && LessEq(cmp, b, c) ==> LessEq(cmp, a, c))
    && (forall x, y, z :: SameKey(cmp, x, z) && SameKey(cmp, y, z) ==> LessEq(cmp, y, x))
  }

  /** A consistent comparator calls every job equal to itself. */
  lemma TotalPreorderReflexive(cmp: Comparator, a: Job)
    requires IsTotalPreorder(cmp)
    ensures cmp(a, a) == 0
  {
    assert LessEq(cmp, a, a) || LessEq(cmp, a, a);
    assert SameKey(cmp, a, a) <==> LessEq(cmp, a, a) && LessEq(cmp, a, a);
  }

  predicate Sorted(cmp: Comparator, s: seq<Job>) {
    forall i, j :: 0 <= i < j < |s| ==> LessEq(cmp, s[i], s[j])
  }

  /** The jobs of `s`, in order, that the comparator calls equal to `z`. */
  function Keep(cmp: Comparator, s: seq<Job>, z: Job): seq<Job> {
    if s == [] then []
    else Keep(cmp, s[..|s| - 1], z) + (if SameKey(cmp, s[|s| - 1], z) then [s[|s| - 1]] else [])
  }

  /** Stable insertion of `x` at the back of `t`: it moves left past every
      element the comparator puts strictly after it, and no further. */
  function Insert(cmp: Comparator, t: seq<Job>, x: Job): seq<Job> {
    if t == [] then [x]
    else if LessEq(cmp, t[|t| - 1], x) then t + [x]
    else Insert(cmp, t[..|t| - 1], x) + [t[|t| - 1]]
  }

  /** Insertion sort: insert the elements one by one, in load order. */
  function SortSeq(cmp: Comparator, s: seq<Job>): seq<Job> {
    if s == [] then []
    else Insert(cmp, SortSeq(cmp, s[..|s| - 1]), s[|s| - 1])
  }

  lemma {:induction false} InsertPermutation(cmp: Comparator, t: seq<Job>, x: Job)
    ensures multiset(Insert(cmp, t, x)) == multiset(t) + multiset{x}
  {
    if t != [] && !LessEq(cmp, t[|t| - 1], x) {
      var init := t[..|t| - 1];
      InsertPermutation(cmp, init, x);
      assert t == init + [t[|t| - 1]];
    }
  }

  /** Sorting adds and drops no job: the result is a permutation of the input. */
  lemma {:induction false} SortSeqPermutation(cmp: Comparator, s: seq<Job>)
    ensures multiset(SortSeq(cmp, s)) == multiset(s)
  {
    if s != [] {
      var init, last := s[..|s| - 1], s[|s| - 1];
      SortSeqPermutation(cmp, init);
      InsertPermutation(cmp, SortSeq(cmp, init), last);
      assert s == init + [last];
      assert multiset(s) == multiset(init) + multiset{last};
    }
  }

  /** Appending a job that no earlier one exceeds keeps a sequence sorted. */
  lemma AppendSorted(cmp: Comparator, r: seq<Job>, y: Job)
    requires Sorted(cmp, r)
    requires forall i :: 0 <= i < |r| ==> LessEq(cmp, r[i], y)
    ensures Sorted(cmp, r + [y])
  {
    var r2 := r + [y];
    forall i, j | 0 <= i < j < |r2| ensures LessEq(cmp, r2[i], r2[j]) {
      if j < |r| {
        assert r2[i] == r[i] && r2[j] == r[j];
      }
    }
  }

  /** Every element of an inserted sequence is the new job or an old one. */
  lemma InsertMembers(cmp: Comparator, t: seq<Job>, x: Job, i: nat)
    requires i < |Insert(cmp, t, x)|
    ensures Insert(cmp, t, x)[i] == x || Insert(cmp, t, x)[i] in t
  {
    InsertPermutation(cmp, t, x);
    assert Insert(cmp, t, x)[i] in multiset(Insert(cmp, t, x));
  }

  lemma {:induction false} InsertSorted(cmp: Comparator, t: seq<Job>, x: Job)
    requires IsTotalPreorder(cmp)
    requires Sorted(cmp, t)
    ensures Sorted(cmp, Insert(cmp, t, x))
  {
    if t != [] {
      var n := |t|;
      var last := t[n - 1];
      if LessEq(cmp, last, x) {
        forall i | 0 <= i < n ensures LessEq(cmp, t[i], x) {
          if i < n - 1 {
            assert LessEq(cmp, t[i], last);
          }
        }
        AppendSorted(cmp, t, x);
      } else {
        var init := t[..n - 1];
        var r' := Insert(cmp, init, x);
        assert Sorted(cmp, init);
        InsertSorted(cmp, init, x);
        forall i | 0 <= i < |r'| ensures LessEq(cmp, r'[i], last) {
          InsertMembers(cmp, init, x, i);
          if r'[i] != x {
            var p :| 0 <= p < n - 1 && init[p] == r'[i];
            assert t[p] == r'[i];
          }
        }
        AppendSorted(cmp, r', last);
      }
    }
  }

  /** The result is non-decreasing under the comparator. */
  lemma {:induction false} SortSeqSorted(cmp: Comparator, s: seq<Job>)
    requires IsTotalPreorder(cmp)
    ensures Sorted(cmp, SortSeq(cmp, s))
  {
    if s != [] {
      SortSeqSorted(cmp, s[..|s| - 1]);
      InsertSorted(cmp, SortSeq(cmp, s[..|s| - 1]), s[|s| - 1]);
    }
  }

  lemma KeepAppend(cmp: Comparator, r: seq<Job>, y: Job, z: Job)
    ensures Keep(cmp, r + [y], z) == Keep(cmp, r, z) + (if SameKey(cmp, y, z) then [y] else [])
  {
    assert (r + [y])[..|r|] == r;
  }

  lemma {:induction false} InsertStable(cmp: Comparator, t: seq<Job>, x: Job, z: Job)
    requires IsTotalPreorder(cmp)
    ensures Keep(cmp, Insert(cmp, t, x), z)
            == Keep(cmp, t, z) + (if SameKey(cmp, x, z) then [x] else [])
  {
    if t == [] {
      KeepAppend(cmp, [], x, z);
      assert [] + [x] == [x];
    } else {
      var n := |t|;
      var last := t[n - 1];
      var init := t[..n - 1];
      if LessEq(cmp, last, x) {
        KeepAppend(cmp, t, x, z);
      } else {
        var r' := Insert(cmp, init, x);
        InsertStable(cmp, init, x, z);
        KeepAppend(cmp, r', last, z);
        KeepAppend(cmp, init, last, z);
        assert init + [last] == t;
      }
    }
  }

  /** Stability: jobs the comparator calls equal keep their load order. */
  lemma {:induction false} SortSeqStable(cmp: Comparator, s: seq<Job>, z: Job)
    requires IsTotalPreorder(cmp)
    ensures Keep(cmp, SortSeq(cmp, s), z) == Keep(cmp, s, z)
  {
    if s != [] {
      SortSeqStable(cmp, s[..|s| - 1], z);
      InsertStable(cmp, SortSeq(cmp, s[..|s| - 1]), s[|s| - 1], z);
    }
  }

  /** Already sorted input comes back unchanged. */
  lemma {:induction false} SortSeqOfSorted(cmp: Comparator, s: seq<Job>)
    requires Sorted(cmp, s)
    ensures SortSeq(cmp, s) == s
  {
    if s != [] {
      var n := |s|;
      var init := s[..n - 1];
      assert Sorted(cmp, init);
      SortSeqOfSorted(cmp, init);
      if n > 1 {
        assert LessEq(cmp, init[n - 2], s[n - 1]);
      }
      assert init + [s[n - 1]] == s;
    }
  }

  /** Sorting twice with the same criterion gives what sorting once gives. */
  lemma SortSeqIdempotent(cmp: Comparator, s: seq<Job>)
    requires IsTotalPreorder(cmp)
    ensures SortSeq(cmp, SortSeq(cmp, s)) == SortSeq(cmp, s)
  {
    SortSeqSorted(cmp, s);
    SortSeqOfSorted(cmp, SortSeq(cmp, s));
  }

  /** Insert places `x` right after the last element that may precede it:
      everything from position `j` on is strictly greater than `x`. */
  lemma {:induction false} InsertSplice(cmp: Comparator, t: seq<Job>, x: Job, j: nat)
    requires j <= |t|
    requires j == 0 || LessEq(cmp, t[j - 1], x)
    requires forall k :: j <= k < |t| ==> !LessEq(cmp, t[k], x)
    ensures Insert(cmp, t, x) == t[..j] + [x] + t[j..]
    decreases |t|
  {
    if j < |t| {
      var init := t[..|t| - 1];
      InsertSplice(cmp, init, x, j);
      assert init[..j] == t[..j];
      assert init[j..] + [t[|t| - 1]] == t[j..];
    } else if t != [] {
      assert t[..j] == t;
    }
  }

  /** A sequence that agrees position by position with a splice is that splice. */
  lemma SpliceByPositions(u: seq<Job>, t: seq<Job>, x: Job, j: nat)
    requires j <= |t| && |u| == |t| + 1 && u[j] == x
    requires forall k :: 0 <= k < j ==> u[k] == t[k]
    requires forall k :: j < k < |u| ==> u[k] == t[k - 1]
    ensures u == t[..j] + [x] + t[j..]
  {
    var r := t[..j] + [x] + t[j..];
    forall k | 0 <= k < |u| ensures u[k] == r[k] {
      if k < j {
        assert r[k] == t[k];
      } else if j < k {
        assert r[k] == t[k - 1];
      }
    }
  }

  /** Where `a[i]` goes in the sorted prefix `a[..i]`: right after the last
      element that may precede it, so that equal elements keep their order. */
  method InsertionPoint(cmp: Comparator, a: array<Job>, i: nat) returns (j: nat)
    requires i < a.Length
    ensures j <= i
    ensures j == 0 || LessEq(cmp, a[j - 1], a[i])
    ensures forall k :: j <= k < i ==> !LessEq(cmp, a[k], a[i])
  {
    j := i;
    while j > 0 && !LessEq(cmp, a[j - 1], a[i])
      invariant j <= i
      invariant forall k :: j <= k < i ==> !LessEq(cmp, a[k], a[i])
    {
      j := j - 1;
    }
  }

  /** Moves `a[i]` to position `j`, shifting `a[j..i]` one place right. */
  method MoveLeft(a: array<Job>, j: nat, i: nat)
    requires j <= i < a.Length
    modifies a
    ensures a[..i + 1] == old(a[..i])[..j] + [old(a[i])] + old(a[..i])[j..]
    ensures forall k :: i < k < a.Length ==> a[k] == old(a[k])
  {
    ghost var t := a[..i];
    var x := a[i];
    var k := i;
    while k > j
      invariant j <= k <= i
      invariant forall p :: 0 <= p < k ==> a[p] == t[p]
      invariant forall p :: k < p <= i ==> a[p] == t[p - 1]
      invariant forall p :: i < p < a.Length ==> a[p] == old(a[p])
    {
      a[k] := a[k - 1];
      k := k - 1;
    }
    a[j] := x;
    SpliceByPositions(a[..i + 1], t, x, j);
  }

  /** One insertion-sort step: `a[i]` moves left past every element of the
      sorted prefix that the comparator puts strictly after it. */
  method InsertInPlace(cmp: Comparator, a: array<Job>, i: nat) returns (j: nat)
    requires i < a.Length
    modifies a
    ensures j <= i
    ensures j == 0 || LessEq(cmp, old(a[j - 1]), old(a[i]))
    ensures forall k :: j <= k < i ==> !LessEq(cmp, old(a[k]), old(a[i]))
    ensures a[..i + 1] == old(a[..i])[..j] + [old(a[i])] + old(a[..i])[j..]
    ensures forall k :: i < k < a.Length ==> a[k] == old(a[k])
  {
    j := InsertionPoint(cmp, a, i);
    MoveLeft(a, j, i);
  }

  /** Placing the next job at its insertion point extends the sorted prefix. */
  lemma SortStep(cmp: Comparator, s: seq<Job>, i: nat, j: nat, u: seq<Job>)
    requires i < |s| && j <= i
    requires var t := SortSeq(cmp, s[..i]);
      && |t| == i
      && (j == 0 || LessEq(cmp, t[j - 1], s[i]))
      && (forall k :: j <= k < i ==> !LessEq(cmp, t[k], s[i]))
      && u == t[..j] + [s[i]] + t[j..]
    ensures u == SortSeq(cmp, s[..i + 1])
  {
    InsertSplice(cmp, SortSeq(cmp, s[..i]), s[i], j);
    assert s[..i + 1][..i] == s[..i];
  }

  /** `sortedJobs.sort(compare)`: stable in-place sort of `a`. */
  method StableSort(cmp: Comparator, a: array<Job>)
    modifies a
    ensures a[..] == SortSeq(cmp, old(a[..]))
  {
    ghost var s := a[..];
    var i := 0;
    while i < a.Length
      invariant 0 <= i <= a.Length
      invariant a[..i] == SortSeq(cmp, s[..i])
      invariant forall k :: i <= k < a.Length ==> a[k] == s[k]
    {
      var j := InsertInPlace(cmp, a, i);
      SortStep(cmp, s, i, j, a[..i + 1]);
      i := i + 1;
    }
    assert s[..a.Length] == s;
  }
}
