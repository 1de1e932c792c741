/**
  Two postings loaded in the order Bravo, Alpha, and what the page shows for
  them under the sort and filter controls.
*/
module Scenarios {
  import opened Wrappers
  import opened Jobs
  import opened Filtering
  import opened PostedAge
  import opened Ordering
  import opened Sorting
  import opened Comparators
  import opened JobView

  const Bravo: Job := Job("1", "Bravo", "8 minutes ago", "Fixed", "Expert", "", "", "", "")
  const Alpha: Job := Job("2", "Alpha", "3 minutes ago", "Hourly", "Entry", "", "", "", "")

  /** Sorting two jobs that are out of order swaps them. */
  lemma SortSeqSwapsPair(cmp: Comparator, a: Job, b: Job)
    requires !LessEq(cmp, a, b)
    ensures SortSeq(cmp, [a, b]) == [b, a]
  {
    assert [a, b][..1] == [a] && [a][..0] == [];
    assert SortSeq(cmp, [a]) == Insert(cmp, [], a) == [a];
    assert Insert(cmp, [a], b) == Insert(cmp, [], b) + [a];
  }

  /** Sorting by title puts Alpha ("2") before Bravo ("1"). */
  lemma SortByTitleScenario()
    ensures SortedView([Bravo, Alpha], "title") == [Alpha, Bravo]
  {
    assert StrCompare(Bravo.title, Alpha.title) == 1 by {
      assert Bravo.title[0] == 'B' && Alpha.title[0] == 'A';
    }
    SortSeqSwapsPair(CompareBy(ByTitle), Bravo, Alpha);
  }

  /** Sorting by posting age puts Alpha (3 minutes) before Bravo (8 minutes). */
  lemma SortByPostedScenario()
    ensures SortedView([Bravo, Alpha], "posted") == [Alpha, Bravo]
  {
    ExtractMinutesExamples();
    SortSeqSwapsPair(CompareBy(ByPosted), Bravo, Alpha);
  }

  /** Filtering on level "Expert" keeps only Bravo ("1"); a level no job has
      leaves nothing, which the list shows as the placeholder. */
  lemma FilterScenario()
    ensures Filter([Bravo, Alpha], "Expert", All, All) == [Bravo]
    ensures Filter([Bravo, Alpha], "NonExistent", All, All) == []
    ensures Render(Filter([Bravo, Alpha], "NonExistent", All, All)) == [Placeholder(NoJobsFound)]
  {
    assert [Bravo, Alpha][1..] == [Alpha];
    assert [Alpha][1..] == [];
  }

  /** A page session: load the two postings, click an unknown job number,
      open job "1", go back, sort by title, and a failed load on a fresh page. */
  method PageSession()
  {
    var page := new JobBoard();
    page.FetchJobs(Loaded([Bravo, Alpha]));
    assert page.rendered == [RowOf(Bravo), RowOf(Alpha)] by {
      RenderSpec([Bravo, Alpha]);
    }
    var listed := page.rendered;

    page.ShowJobDetails("3");
    assert !page.listHidden && page.detailHidden && page.rendered == listed;

    assert Find([Bravo, Alpha], "1") == Some(Bravo);
    page.ShowJobDetails("1");
    assert page.listHidden && !page.detailHidden && page.detail == Some(Bravo);

    page.BackToList();
    assert !page.listHidden && page.detailHidden && page.rendered == listed;

    page.SortButtonClicked("title");
    SortByTitleScenario();
    assert page.rendered == Render([Alpha, Bravo]);
    assert page.jobs == [Bravo, Alpha];

    var failed := new JobBoard();
    failed.FetchJobs(LoadFailed);
    assert failed.rendered == [Placeholder(FailedToLoad)] && failed.jobs == [];
    assert failed.levelOptions == [] && failed.typeOptions == [] && failed.skillOptions == [];
    failed.ShowJobDetails("1");
    assert !failed.listHidden && failed.detailHidden;
  }
}
