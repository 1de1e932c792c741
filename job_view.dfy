/**
  The page's state and its event handlers: the loaded jobs, the visibility of
  the list panel and the detail panel, the rows of the job list, the detail
  record and the options of the three filter dropdowns. The DOM is modelled
  by these values; each handler is a method.
*/
module JobView {
  import opened Wrappers
  import opened Jobs
  import opened Filtering
  import opened Sorting
  import opened Comparators
  import opened Dropdowns

  /** One entry of the job list: the placeholder paragraph, or a job's title,
      type and level with a "View Details" button that carries its number. */
  datatype Row = Placeholder(message: string) | JobRow(title: string, jobType: string, level: string, jobNo: string)

  const NoJobsFound: string := "No jobs found."
  const FailedToLoad: string := "Failed to load job data."

  function RowOf(job: Job): Row {
    JobRow(job.title, job.jobType, job.level, job.jobNo)
  }

  /** One row per job, in order. */
  function Rows(jobs: seq<Job>): seq<Row> {
    if jobs == [] then [] else Rows(jobs[..|jobs| - 1]) + [RowOf(jobs[|jobs| - 1])]
  }

  /** What `renderJobList(jobsToDisplay)` leaves in the list. */
  function Render(jobs: seq<Job>): seq<Row> {
    if |jobs| == 0 then [Placeholder(NoJobsFound)] else Rows(jobs)
  }

  lemma {:induction false} RowsSpec(jobs: seq<Job>)
    ensures |Rows(jobs)| == |jobs|
    ensures forall i :: 0 <= i < |jobs| ==> Rows(jobs)[i] == RowOf(jobs[i])
  {
    if jobs != [] {
      RowsSpec(jobs[..|jobs| - 1]);
    }
  }

  /** An empty list shows only the placeholder; otherwise there is one row
      per job, in order, each carrying that job's number. */
  lemma RenderSpec(jobs: seq<Job>)
    ensures jobs == [] ==> Render(jobs) == [Placeholder(NoJobsFound)]
    ensures jobs != [] ==> |Render(jobs)| == |jobs|
    ensures jobs != [] ==> forall i :: 0 <= i < |jobs| ==>
      Render(jobs)[i].JobRow? && Render(jobs)[i].jobNo == jobs[i].jobNo && Render(jobs)[i] == RowOf(jobs[i])
  {
    RowsSpec(jobs);
  }

  /** The sort option `sortJobs` recognises, if any. */
  function KeyOf(criteria: string): Option<SortKey> {
    if criteria == "title" then Some(ByTitle)
    else if criteria == "level" then Some(ByLevel)
    else if criteria == "posted" then Some(ByPosted)
    else None
  }

  /** The sequence `sortJobs(criteria)` renders. */
  function SortedView(jobs: seq<Job>, criteria: string): seq<Job> {
    match KeyOf(criteria)
    case Some(key) => SortSeq(CompareBy(key), jobs)
    case None => jobs
  }

  /** Whatever the criteria, sorting neither adds nor drops a job; an
      unrecognised criteria keeps the load order. */
  lemma SortedViewSpec(jobs: seq<Job>, criteria: string)
    ensures multiset(SortedView(jobs, criteria)) == multiset(jobs)
    ensures KeyOf(criteria).None? ==> SortedView(jobs, criteria) == jobs
    ensures KeyOf(criteria).Some? ==> Sorted(CompareBy(KeyOf(criteria).value), SortedView(jobs, criteria))
  {
    if KeyOf(criteria).Some? {
      var key := KeyOf(criteria).value;
      SortSeqPermutation(CompareBy(key), jobs);
      CompareByIsTotalPreorder(key);
      SortSeqSorted(CompareBy(key), jobs);
    }
  }

  /** The outcome of `fetch` plus `response.json()`: the records, or a failure
      (network error, a response that is not ok, malformed JSON). */
  datatype LoadOutcome = Loaded(records: seq<Job>) | LoadFailed

  /** A click the page listens to, with the values the handler reads from the
      page: the clicked button's job number, or the selected dropdown values. */
  datatype Event =
    | ViewDetailsClicked(jobId: string)
    | BackClicked
    | ApplyFiltersClicked(level: string, jobType: string, skill: string)
    | SortClicked(selected: string)

  class JobBoard {
    var jobs: seq<Job>
    /** `jobsList.parentElement.hidden` */
    var listHidden: bool
    /** `jobDetailsSection.hidden` */
    var detailHidden: bool
    /** The contents of the job list. */
    var rendered: seq<Row>
    /** The record shown in the detail panel, once one was shown. */
    var detail: Option<Job>
    var levelOptions: seq<string>
    var typeOptions: seq<string>
    var skillOptions: seq<string>

    /** Exactly one of the two panels is visible, and the detail panel
        only when it holds a record. */
    ghost predicate Valid()
      reads this
    {
      listHidden != detailHidden && (!detailHidden ==> detail.Some?)
    }

    function Options(field: Field): seq<string>
      reads this
    {
      match field
      case LevelField => levelOptions
      case TypeField => typeOptions
      case SkillField => skillOptions
    }

    /** The page before the load: no jobs, the list visible, the detail hidden. */
    constructor ()
      ensures Valid()
      ensures jobs == [] && rendered == [] && detail == None
      ensures !listHidden && detailHidden
      ensures levelOptions == [] && typeOptions == [] && skillOptions == []
    {
      jobs := [];
      listHidden := false;
      detailHidden := true;
      rendered := [];
      detail := None;
      levelOptions := [];
      typeOptions := [];
      skillOptions := [];
    }

    /** `renderJobList(jobsToDisplay)`. */
    method RenderJobList(jobsToDisplay: seq<Job>)
      modifies this
      ensures rendered == Render(jobsToDisplay)
      ensures jobs == old(jobs) && listHidden == old(listHidden) && detailHidden == old(detailHidden)
      ensures detail == old(detail)
      ensures levelOptions == old(levelOptions) && typeOptions == old(typeOptions) && skillOptions == old(skillOptions)
    {
      rendered := [];
      if |jobsToDisplay| == 0 {
        rendered := [Placeholder(NoJobsFound)];
        return;
      }
      var i := 0;
      while i < |jobsToDisplay|
        invariant 0 <= i <= |jobsToDisplay|
        invariant rendered == Rows(jobsToDisplay[..i])
        invariant jobs == old(jobs) && listHidden == old(listHidden) && detailHidden == old(detailHidden)
        invariant detail == old(detail)
        invariant levelOptions == old(levelOptions) && typeOptions == old(typeOptions) && skillOptions == old(skillOptions)
      {
        assert jobsToDisplay[..i + 1][..i] == jobsToDisplay[..i];
        rendered := rendered + [RowOf(jobsToDisplay[i])];
        i := i + 1;
      }
      assert jobsToDisplay[..i] == jobsToDisplay;
    }

    /** `populateDropdown(dropdown, options)`: appends one option per value. */
    method PopulateDropdown(field: Field, options: seq<string>)
      modifies this
      ensures Options(field) == old(Options(field)) + options
      ensures forall f :: f != field ==> Options(f) == old(Options(f))
      ensures jobs == old(jobs) && rendered == old(rendered) && detail == old(detail)
      ensures listHidden == old(listHidden) && detailHidden == old(detailHidden)
    {
      var i := 0;
      while i < |options|
        invariant 0 <= i <= |options|
        invariant Options(field) == old(Options(field)) + options[..i]
        invariant forall f :: f != field ==> Options(f) == old(Options(f))
        invariant jobs == old(jobs) && rendered == old(rendered) && detail == old(detail)
        invariant listHidden == old(listHidden) && detailHidden == old(detailHidden)
      {
        assert options[..i + 1] == options[..i] + [options[i]];
        match field {
          case LevelField => levelOptions := levelOptions + [options[i]];
          case TypeField => typeOptions := typeOptions + [options[i]];
          case SkillField => skillOptions := skillOptions + [options[i]];
        }
        i := i + 1;
      }
      assert options[..i] == options;
    }

    /** `populateDropdowns()`: the distinct Level, Type and Skill values. */
    method PopulateDropdowns()
      modifies this
      ensures forall f :: Options(f) == old(Options(f)) + DistinctValues(jobs, f)
      ensures jobs == old(jobs) && rendered == old(rendered) && detail == old(detail)
      ensures listHidden == old(listHidden) && detailHidden == old(detailHidden)
    {
      PopulateDropdown(LevelField, DistinctValues(jobs, LevelField));
      PopulateDropdown(TypeField, DistinctValues(jobs, TypeField));
      PopulateDropdown(SkillField, DistinctValues(jobs, SkillField));
    }

    /** `fetchJobs()`, with the network reply as a parameter. On success the
        jobs are replaced, the dropdowns filled and the full list shown; on
        failure only the failure message is shown. */
    method FetchJobs(outcome: LoadOutcome)
      requires Valid()
      modifies this
      ensures Valid()
      ensures listHidden == old(listHidden) && detailHidden == old(detailHidden) && detail == old(detail)
      ensures outcome.Loaded? ==> jobs == outcome.records && rendered == Render(outcome.records)
      ensures outcome.Loaded? ==> forall f :: Options(f) == old(Options(f)) + DistinctValues(outcome.records, f)
      ensures outcome.LoadFailed? ==> jobs == old(jobs) && rendered == [Placeholder(FailedToLoad)]
      ensures outcome.LoadFailed? ==>
        levelOptions == old(levelOptions) && typeOptions == old(typeOptions) && skillOptions == old(skillOptions)
    {
      match outcome {
        case Loaded(records) =>
          jobs := records;
          PopulateDropdowns();
          RenderJobList(jobs);
        case LoadFailed =>
          rendered := [Placeholder(FailedToLoad)];
      }
    }

    /** `showJobDetails(jobId)`: shows the first job numbered `jobId` and
        hides the list; an unknown number changes nothing. */
    method ShowJobDetails(jobId: string)
      requires Valid()
      modifies this
      ensures Valid()
      ensures jobs == old(jobs) && rendered == old(rendered)
      ensures levelOptions == old(levelOptions) && typeOptions == old(typeOptions) && skillOptions == old(skillOptions)
      ensures Find(jobs, jobId).Some? ==> detail == Find(jobs, jobId) && !detailHidden && listHidden
      ensures Find(jobs, jobId).None? ==>
        detail == old(detail) && detailHidden == old(detailHidden) && listHidden == old(listHidden)
    {
      var job := Find(jobs, jobId);
      if job.Some? {
        detail := job;
        detailHidden := false;
        listHidden := true;
      }
    }

    /** The "Back to list" handler: shows the list and hides the detail panel;
        the list is not re-rendered. */
    method BackToList()
      requires Valid()
      modifies this
      ensures Valid()
      ensures !listHidden && detailHidden
      ensures jobs == old(jobs) && rendered == old(rendered) && detail == old(detail)
      ensures levelOptions == old(levelOptions) && typeOptions == old(typeOptions) && skillOptions == old(skillOptions)
    {
      detailHidden := true;
      listHidden := false;
    }

    /** `applyFilters()`, with the three dropdown values as parameters. */
    method ApplyFilters(level: string, jobType: string, skill: string)
      requires Valid()
      modifies this
      ensures Valid()
      ensures rendered == Render(Filter(jobs, level, jobType, skill))
      ensures jobs == old(jobs) && listHidden == old(listHidden) && detailHidden == old(detailHidden)
      ensures detail == old(detail)
      ensures levelOptions == old(levelOptions) && typeOptions == old(typeOptions) && skillOptions == old(skillOptions)
    {
      RenderJobList(Filter(jobs, level, jobType, skill));
    }

    /** `sortJobs(criteria)`: sorts a copy of all loaded jobs (the active
        filter plays no part) and renders it; `jobs` keeps its order. */
    method SortJobs(criteria: string)
      requires Valid()
      modifies this
      ensures Valid()
      ensures rendered == Render(SortedView(jobs, criteria))
      ensures jobs == old(jobs) && listHidden == old(listHidden) && detailHidden == old(detailHidden)
      ensures detail == old(detail)
      ensures levelOptions == old(levelOptions) && typeOptions == old(typeOptions) && skillOptions == old(skillOptions)
    {
      var all := jobs;
      var sortedJobs := new Job[|all|](i requires 0 <= i < |all| => all[i]);
      assert sortedJobs[..] == all;
      match KeyOf(criteria) {
        case Some(key) => StableSort(CompareBy(key), sortedJobs);
        case None =>
      }
      RenderJobList(sortedJobs[..]);
    }

    /** The "Sort" button: sorts by the selected option, and does nothing
        when no option is selected. */
    method SortButtonClicked(selected: string)
      requires Valid()
      modifies this
      ensures Valid()
      ensures selected != "" ==> rendered == Render(SortedView(jobs, selected))
      ensures selected == "" ==> rendered == old(rendered)
      ensures jobs == old(jobs) && listHidden == old(listHidden) && detailHidden == old(detailHidden)
      ensures detail == old(detail)
      ensures levelOptions == old(levelOptions) && typeOptions == old(typeOptions) && skillOptions == old(skillOptions)
    {
      if selected != "" {
        SortJobs(selected);
      }
    }

    /** The event listeners: each click runs its handler. */
    method Handle(event: Event)
      requires Valid()
      modifies this
      ensures Valid()
      ensures jobs == old(jobs)
      ensures levelOptions == old(levelOptions) && typeOptions == old(typeOptions) && skillOptions == old(skillOptions)
      ensures event.ViewDetailsClicked? ==> rendered == old(rendered)
      ensures event.ViewDetailsClicked? && Find(jobs, event.jobId).Some? ==>
        detail == Find(jobs, event.jobId) && !detailHidden && listHidden
      ensures event.ViewDetailsClicked? && Find(jobs, event.jobId).None? ==>
        detail == old(detail) && detailHidden == old(detailHidden) && listHidden == old(listHidden)
      ensures event.BackClicked? ==>
        !listHidden && detailHidden && rendered == old(rendered) && detail == old(detail)
      ensures event.ApplyFiltersClicked? ==>
        rendered == Render(Filter(jobs, event.level, event.jobType, event.skill))
      ensures event.SortClicked? && event.selected != "" ==> rendered == Render(SortedView(jobs, event.selected))
      ensures event.SortClicked? && event.selected == "" ==> rendered == old(rendered)
      ensures event.ApplyFiltersClicked? || event.SortClicked? ==>
        detail == old(detail) && detailHidden == old(detailHidden) && listHidden == old(listHidden)
    {
      match event {
        case ViewDetailsClicked(id) => ShowJobDetails(id);
        case BackClicked => BackToList();
        case ApplyFiltersClicked(level, jobType, skill) => ApplyFilters(level, jobType, skill);
        case SortClicked(selected) => SortButtonClicked(selected);
      }
    }

    /** After any sequence of clicks exactly one panel is visible, and the
        loaded jobs and dropdown options are as before. */
    method HandleAll(events: seq<Event>)
      requires Valid()
      modifies this
      ensures Valid()
      ensures jobs == old(jobs)
      ensures levelOptions == old(levelOptions) && typeOptions == old(typeOptions) && skillOptions == old(skillOptions)
    {
      var i := 0;
      while i < |events|
        invariant 0 <= i <= |events|
        invariant Valid()
        invariant jobs == old(jobs)
        invariant levelOptions == old(levelOptions) && typeOptions == old(typeOptions) && skillOptions == old(skillOptions)
      {
        Handle(events[i]);
        i := i + 1;
      }
    }
  }
}
