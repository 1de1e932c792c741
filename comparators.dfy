/**
  The comparators `sortJobs` passes to the sort for its three recognised
  criteria, and what sorting with each of them guarantees.
*/
module Comparators {
  import opened Jobs
  import opened Ordering
  import opened PostedAge
  import opened Sorting

  /** The criteria "title", "level" and "posted". */
  datatype SortKey = ByTitle | ByLevel | ByPosted

  /** The three comparators: ordinal comparison of the titles, ordinal
      comparison of the levels, and the difference of the two extracted
      posting ages in minutes. */
  function CompareBy(key: SortKey): Comparator {
    match key
    case ByTitle => (a: Job, b: Job) => StrCompare(a.title, b.title)
    case ByLevel => (a: Job, b: Job) => StrCompare(a.level, b.level)
    case ByPosted => (a: Job, b: Job) => ExtractMinutes(a.posted) - ExtractMinutes(b.posted)
  }

  /** Ordinal order on one text field is a total preorder on jobs. */
  lemma TextComparatorIsTotalPreorder(cmp: Comparator, field: Job -> string)
    requires forall a, b :: cmp(a, b) == StrCompare(field(a), field(b))
    ensures IsTotalPreorder(cmp)
  {
    forall a, b ensures SameKey(cmp, a, b) <==> LessEq(cmp, a, b) && LessEq(cmp, b, a) {
      StrCompareAntisymmetric(field(a), field(b));
    }
    forall a, b ensures LessEq(cmp, a, b) || LessEq(cmp, b, a) {
      StrCompareAntisymmetric(field(a), field(b));
    }
    forall a, b, c | LessEq(cmp, a, b) && LessEq(cmp, b, c) ensures LessEq(cmp, a, c) {
      StrCompareTransitive(field(a), field(b), field(c));
    }
    forall x, y, z | SameKey(cmp, x, z) && SameKey(cmp, y, z) ensures LessEq(cmp, y, x) {
      StrCompareZero(field(x), field(z));
      StrCompareZero(field(y), field(z));
      StrCompareZero(field(y), field(x));
    }
  }

  /** Each of the three comparators is a valid sort order. */
  lemma CompareByIsTotalPreorder(key: SortKey)
    ensures IsTotalPreorder(CompareBy(key))
  {
    match key
    case ByTitle => TextComparatorIsTotalPreorder(CompareBy(key), (j: Job) => j.title);
    case ByLevel => TextComparatorIsTotalPreorder(CompareBy(key), (j: Job) => j.level);
    case ByPosted =>
  }

  /** Under each of the three sorts, the jobs the comparator ties keep their
      load order: under "title" and "level" the jobs with the same field
      text, under "posted" the jobs with the same extracted age, among them
      all jobs whose age text does not match the pattern. */
  lemma SortKeepsTiesInOrder(key: SortKey, s: seq<Job>, z: Job)
    ensures Keep(CompareBy(key), SortSeq(CompareBy(key), s), z) == Keep(CompareBy(key), s, z)
  {
    CompareByIsTotalPreorder(key);
    SortSeqStable(CompareBy(key), s, z);
  }

  /** Under the "posted" sort, ages never decrease along the result. */
  lemma PostedSortNonDecreasing(s: seq<Job>, i: nat, j: nat)
    requires i < j < |SortSeq(CompareBy(ByPosted), s)|
    ensures ExtractMinutes(SortSeq(CompareBy(ByPosted), s)[i].posted)
            <= ExtractMinutes(SortSeq(CompareBy(ByPosted), s)[j].posted)
  {
    CompareByIsTotalPreorder(ByPosted);
    SortSeqSorted(CompareBy(ByPosted), s);
    assert LessEq(CompareBy(ByPosted), SortSeq(CompareBy(ByPosted), s)[i], SortSeq(CompareBy(ByPosted), s)[j]);
  }

  /** Under the "posted" sort, a job whose posting age does not match the
      pattern never comes before one whose age was read as a count below the
      sentinel. */
  lemma PostedUnknownLast(s: seq<Job>, i: nat, j: nat)
    requires i < j < |SortSeq(CompareBy(ByPosted), s)|
    requires !HasMatch(SortSeq(CompareBy(ByPosted), s)[i].posted)
    ensures ExtractMinutes(SortSeq(CompareBy(ByPosted), s)[j].posted) >= MaxSafeInteger
  {
    PostedSortNonDecreasing(s, i, j);
    ExtractMinutesNoMatch(SortSeq(CompareBy(ByPosted), s)[i].posted);
  }
}
