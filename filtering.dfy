/**
  The "Apply Filters" query: a conjunction of three equality tests on
  Level, Type and Skill, each switched off by the sentinel "All".
*/
module Filtering {
  import opened Jobs

  /** The dropdown value meaning "no constraint on this field". */
  const All: string := "All"

  /** One dropdown's test: unconstrained, or an exact match on the field. */
  predicate Accepts(selected: string, value: string) {
    selected == All || value == selected
  }

  /** The predicate passed to `jobs.filter`. */
  predicate Matches(job: Job, level: string, jobType: string, skill: string) {
    Accepts(level, job.level) && Accepts(jobType, job.jobType) && Accepts(skill, job.skill)
  }

  /** `jobs.filter(...)`: the matching jobs, in their original order. */
  function Filter(jobs: seq<Job>, level: string, jobType: string, skill: string): (r: seq<Job>)
    ensures |r| <= |jobs|
    ensures forall k :: 0 <= k < |r| ==> Matches(r[k], level, jobType, skill)
  {
    if jobs == [] then []
    else (if Matches(jobs[0], level, jobType, skill) then [jobs[0]] else [])
         + Filter(jobs[1..], level, jobType, skill)
  }

  /** `a` can be obtained from `b` by deleting elements: it keeps b's order. */
  predicate IsSubsequence<T(==)>(a: seq<T>, b: seq<T>)
    decreases |b|
  {
    if a == [] then true
    else if b == [] then false
    else (a[0] == b[0] && IsSubsequence(a[1..], b[1..])) || IsSubsequence(a, b[1..])
  }

  /** The filter result lists the jobs in the order they were loaded. */
  lemma {:induction false} FilterIsSubsequence(jobs: seq<Job>, level: string, jobType: string, skill: string)
    ensures IsSubsequence(Filter(jobs, level, jobType, skill), jobs)
  {
    if jobs != [] {
      var rest := Filter(jobs[1..], level, jobType, skill);
      FilterIsSubsequence(jobs[1..], level, jobType, skill);
      if Matches(jobs[0], level, jobType, skill) {
        assert Filter(jobs, level, jobType, skill) == [jobs[0]] + rest;
        assert ([jobs[0]] + rest)[1..] == rest;
      } else {
        assert Filter(jobs, level, jobType, skill) == rest;
        SubsequenceOfTail(rest, jobs);
      }
    }
  }

  /** Skipping the first element of `b` keeps a subsequence of it. */
  lemma {:induction false} SubsequenceOfTail<T>(a: seq<T>, b: seq<T>)
    requires b != [] && IsSubsequence(a, b[1..])
    ensures IsSubsequence(a, b)
  {
  }

  /** No job is lost or duplicated: a matching job occurs in the result exactly
      as often as in `jobs`, a non-matching one not at all. */
  lemma {:induction false} FilterCounts(jobs: seq<Job>, level: string, jobType: string, skill: string, x: Job)
    ensures multiset(Filter(jobs, level, jobType, skill))[x]
            == if Matches(x, level, jobType, skill) then multiset(jobs)[x] else 0
  {
    if jobs != [] {
      FilterCounts(jobs[1..], level, jobType, skill, x);
      assert jobs == [jobs[0]] + jobs[1..];
    }
  }

  /** A job is in the result exactly when it was loaded and passes all three tests. */
  lemma FilterMembership(jobs: seq<Job>, level: string, jobType: string, skill: string, x: Job)
    ensures x in Filter(jobs, level, jobType, skill) <==> x in jobs && Matches(x, level, jobType, skill)
  {
    FilterCounts(jobs, level, jobType, skill, x);
    assert x in Filter(jobs, level, jobType, skill) <==> x in multiset(Filter(jobs, level, jobType, skill));
    assert x in jobs <==> x in multiset(jobs);
  }

  /** With every dropdown on "All" the filter returns the loaded list unchanged. */
  lemma {:induction false} FilterAllIsIdentity(jobs: seq<Job>)
    ensures Filter(jobs, All, All, All) == jobs
  {
    if jobs != [] {
      FilterAllIsIdentity(jobs[1..]);
    }
  }

  /** Applying the same filter to its own result changes nothing. */
  lemma {:induction false} FilterIdempotent(jobs: seq<Job>, level: string, jobType: string, skill: string)
    ensures Filter(Filter(jobs, level, jobType, skill), level, jobType, skill)
            == Filter(jobs, level, jobType, skill)
  {
    if jobs != [] {
      var rest := Filter(jobs[1..], level, jobType, skill);
      FilterIdempotent(jobs[1..], level, jobType, skill);
      if Matches(jobs[0], level, jobType, skill) {
        assert Filter(jobs, level, jobType, skill) == [jobs[0]] + rest;
        assert ([jobs[0]] + rest)[0] == jobs[0];
        assert ([jobs[0]] + rest)[1..] == rest;
        assert Filter([jobs[0]] + rest, level, jobType, skill) == [jobs[0]] + Filter(rest, level, jobType, skill);
      } else {
        assert Filter(jobs, level, jobType, skill) == rest;
      }
    }
  }

  /** The three tests are independent: filtering on all three at once equals
      filtering on Level, then on Type, then on Skill. */
  lemma {:induction false} FilterIsConjunction(jobs: seq<Job>, level: string, jobType: string, skill: string)
    ensures Filter(jobs, level, jobType, skill)
            == Filter(Filter(Filter(jobs, level, All, All), All, jobType, All), All, All, skill)
  {
    if jobs != [] {
      FilterIsConjunction(jobs[1..], level, jobType, skill);
      var j := jobs[0];
      var l := Filter(jobs[1..], level, All, All);
      var lt := Filter(l, All, jobType, All);
      if Accepts(level, j.level) {
        assert Filter(jobs, level, All, All) == [j] + l;
        assert ([j] + l)[0] == j && ([j] + l)[1..] == l;
        if Accepts(jobType, j.jobType) {
          assert Filter([j] + l, All, jobType, All) == [j] + lt;
          assert ([j] + lt)[0] == j && ([j] + lt)[1..] == lt;
          assert Filter([j] + lt, All, All, skill)
                 == (if Accepts(skill, j.skill) then [j] else []) + Filter(lt, All, All, skill);
        } else {
          assert Filter([j] + l, All, jobType, All) == lt;
        }
      } else {
        assert Filter(jobs, level, All, All) == l;
      }
    }
  }
}
