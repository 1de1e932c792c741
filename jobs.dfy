/**
  A job posting as loaded from the data source. Records are never changed
  after the load; the view only reads them.
*/
module Jobs {
  import opened Wrappers

  /** One element of the loaded JSON array, with its nine text fields:
      "Job No", "Title", "Posted", "Type", "Level", "Estimated Time",
      "Skill", "Detail" and "Job Page Link". */
  datatype Job = Job(
    jobNo: string,
    title: string,
    posted: string,
    jobType: string,
    level: string,
    estimatedTime: string,
    skill: string,
    detail: string,
    jobPageLink: string)

  /** The lookup `showJobDetails` performs: the first job whose number is
      exactly `id` (strict string equality), or None when there is none. */
  function Find(jobs: seq<Job>, id: string): (r: Option<Job>)
    ensures r.None? <==> forall i :: 0 <= i < |jobs| ==> jobs[i].jobNo != id
    ensures r.Some? ==> r.value.jobNo == id && r.value in jobs
  {
    if jobs == [] then None
    else if jobs[0].jobNo == id then Some(jobs[0])
    else Find(jobs[1..], id)
  }

  /** The job Find returns sits at the first index carrying `id`. */
  lemma {:induction false} FindFirst(jobs: seq<Job>, id: string, i: nat)
    requires i < |jobs| && jobs[i].jobNo == id
    requires forall j :: 0 <= j < i ==> jobs[j].jobNo != id
    ensures Find(jobs, id) == Some(jobs[i])
  {
    if i > 0 {
      assert jobs[0].jobNo != id;
      FindFirst(jobs[1..], id, i - 1);
    }
  }
}
