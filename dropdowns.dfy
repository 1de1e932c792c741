/**
  The option lists of the three filter dropdowns: the Level, Type or Skill
  field of every job, in load order, put into a Set and turned back into an
  array. A JavaScript Set iterates in insertion order, so the list holds each
  value once, in the order of its first occurrence.
*/
module Dropdowns {
  import opened Jobs

  /** The three filterable fields. */
  datatype Field = LevelField | TypeField | SkillField

  function FieldValue(job: Job, field: Field): string {
    match field
    case LevelField => job.level
    case TypeField => job.jobType
    case SkillField => job.skill
  }

  /** The chosen field of every job, in load order. */
  function Project(jobs: seq<Job>, field: Field): (r: seq<string>)
    ensures |r| == |jobs|
    ensures forall i :: 0 <= i < |jobs| ==> r[i] == FieldValue(jobs[i], field)
  {
    if jobs == [] then [] else Project(jobs[..|jobs| - 1], field) + [FieldValue(jobs[|jobs| - 1], field)]
  }

  predicate NoDuplicates(s: seq<string>) {
    forall i, j :: 0 <= i < j < |s| ==> s[i] != s[j]
  }

  /** `Array.from(new Set(xs))`: each value once, in order of first occurrence. */
  function Distinct(xs: seq<string>): (r: seq<string>)
    ensures NoDuplicates(r)
    ensures forall x :: x in r <==> x in xs
  {
    if xs == [] then []
    else
      var d := Distinct(xs[..|xs| - 1]);
      var x := xs[|xs| - 1];
      assert forall y :: y in xs <==> y in xs[..|xs| - 1] || y == x by {
        assert xs == xs[..|xs| - 1] + [x];
      }
      if x in d then d else d + [x]
  }

  /** The position of the first occurrence of `x` in `xs`. */
  function FirstIndex(xs: seq<string>, x: string): (k: nat)
    requires x in xs
    ensures k < |xs| && xs[k] == x
    ensures forall i :: 0 <= i < k ==> xs[i] != x
  {
    if xs[0] == x then 0 else 1 + FirstIndex(xs[1..], x)
  }

  lemma FirstIndexPrefix(xs: seq<string>, n: nat, x: string)
    requires n <= |xs| && x in xs[..n]
    ensures FirstIndex(xs, x) == FirstIndex(xs[..n], x)
  {
    var k := FirstIndex(xs[..n], x);
    assert xs[k] == x;
  }

  /** Distinct lists the values in the order in which they first occur. */
  lemma {:induction false} DistinctFirstOccurrenceOrder(xs: seq<string>, i: nat, j: nat)
    requires i < j < |Distinct(xs)|
    ensures FirstIndex(xs, Distinct(xs)[i]) < FirstIndex(xs, Distinct(xs)[j])
  {
    var n := |xs|;
    var init := xs[..n - 1];
    var d := Distinct(init);
    var x := xs[n - 1];
    var r := Distinct(xs);
    assert xs == init + [x];
    if x in d {
      DistinctFirstOccurrenceOrder(init, i, j);
      FirstIndexPrefix(xs, n - 1, r[i]);
      FirstIndexPrefix(xs, n - 1, r[j]);
    } else if j < |d| {
      DistinctFirstOccurrenceOrder(init, i, j);
      FirstIndexPrefix(xs, n - 1, r[i]);
      FirstIndexPrefix(xs, n - 1, r[j]);
    } else {
      assert r[j] == x && x !in init;
      FirstIndexPrefix(xs, n - 1, r[i]);
      assert FirstIndex(xs, x) == n - 1;
    }
  }

  /** The options of one dropdown: no value twice, exactly the values that
      occur in the jobs, in the order in which they first occur. */
  function DistinctValues(jobs: seq<Job>, field: Field): (r: seq<string>)
    ensures NoDuplicates(r)
    ensures forall v :: v in r <==> exists i :: 0 <= i < |jobs| && FieldValue(jobs[i], field) == v
  {
    var values := Project(jobs, field);
    assert forall v :: v in values <==> exists i :: 0 <= i < |jobs| && FieldValue(jobs[i], field) == v by {
      forall v | v in values ensures exists i :: 0 <= i < |jobs| && FieldValue(jobs[i], field) == v {
        var i := FirstIndex(values, v);
        assert FieldValue(jobs[i], field) == v;
      }
    }
    Distinct(values)
  }

  /** The options appear in the order in which their first job was loaded. */
  lemma DistinctValuesInLoadOrder(jobs: seq<Job>, field: Field, i: nat, j: nat)
    requires i < j < |DistinctValues(jobs, field)|
    ensures FirstIndex(Project(jobs, field), DistinctValues(jobs, field)[i])
            < FirstIndex(Project(jobs, field), DistinctValues(jobs, field)[j])
  {
    DistinctFirstOccurrenceOrder(Project(jobs, field), i, j);
  }
}
