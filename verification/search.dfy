/** The client-side search of the job list (src/app/page.tsx): a job stays
    on screen when the lower-cased filter text occurs in its lower-cased
    title, or in its description when it has one. */
module Search {
  import opened Wrappers
  import opened Text
  import opened Seqs
  import opened Feed

  /** One row of the `jobs` table as the page reads it. The description
      column may be null. */
  datatype Job = Job(
    id: string,
    title: string,
    description: Option<string>,
    company: string,
    url: string,
    pubDate: string)

  /** The callback given to `jobs.filter`. */
  predicate Shows(job: Job, filter: string) {
    Includes(Lower(job.title), Lower(filter))
    || (IsTruthy(job.description) && Includes(Lower(job.description.value), Lower(filter)))
  }

  /** The list on screen for a filter text: the matching jobs, in the order
      the query returned them (newest first). */
  function FilterJobs(jobs: seq<Job>, filter: string): (r: seq<Job>)
    ensures IsSubsequence(r, jobs)
    ensures forall j :: j in r <==> j in jobs && Shows(j, filter)
    decreases |jobs|
  {
    if |jobs| == 0 then []
    else
      var rest := FilterJobs(jobs[1..], filter);
      assert forall j :: j in jobs <==> j == jobs[0] || j in jobs[1..];
      if Shows(jobs[0], filter) then
        SubsequenceCons(jobs[0], rest, jobs[1..]);
        assert [jobs[0]] + jobs[1..] == jobs;
        [jobs[0]] + rest
      else
        SubsequenceSkip(jobs[0], rest, jobs[1..]);
        assert [jobs[0]] + jobs[1..] == jobs;
        rest
  }

  /** Duplicates too: every shown job appears as often as in the full list,
      every hidden one not at all. */
  lemma {:induction false} FilterCounts(jobs: seq<Job>, filter: string, j: Job)
    ensures multiset(FilterJobs(jobs, filter))[j] == if Shows(j, filter) then multiset(jobs)[j] else 0
    decreases |jobs|
  {
    if |jobs| > 0 {
      FilterCounts(jobs[1..], filter, j);
      assert jobs == [jobs[0]] + jobs[1..];
      assert multiset(jobs) == multiset([jobs[0]]) + multiset(jobs[1..]);
    }
  }

  /** With an empty filter every job is on screen, which is why the page may
      show the fetched list unfiltered before the filter effect runs. */
  lemma {:induction false} EmptyFilterShowsAll(jobs: seq<Job>)
    ensures FilterJobs(jobs, "") == jobs
    decreases |jobs|
  {
    if |jobs| > 0 {
      assert Lower("") == "";
      IncludesEmpty(Lower(jobs[0].title));
      EmptyFilterShowsAll(jobs[1..]);
      assert [jobs[0]] + jobs[1..] == jobs;
    }
  }

  /** Filter texts that differ only in letter case show the same list. */
  lemma {:induction false} FilterIgnoresCase(jobs: seq<Job>, f: string, g: string)
    requires Lower(f) == Lower(g)
    ensures FilterJobs(jobs, f) == FilterJobs(jobs, g)
    decreases |jobs|
  {
    if |jobs| > 0 {
      assert Shows(jobs[0], f) == Shows(jobs[0], g);
      FilterIgnoresCase(jobs[1..], f, g);
    }
  }

  /** A job shown for a longer filter text is shown for every part of it. */
  lemma ShowsNarrows(job: Job, f: string, g: string)
    requires Includes(g, f) && Shows(job, g)
    ensures Shows(job, f)
  {
    LowerKeepsIncludes(g, f);
    if Includes(Lower(job.title), Lower(g)) {
      IncludesTransitive(Lower(job.title), Lower(g), Lower(f));
    } else {
      IncludesTransitive(Lower(job.description.value), Lower(g), Lower(f));
    }
  }

  /** Typing more of the filter only removes jobs: the list for a filter
      text `g` that contains `f` is a subsequence of the list for `f`. */
  lemma {:induction false} NarrowingFilter(jobs: seq<Job>, f: string, g: string)
    requires Includes(g, f)
    ensures IsSubsequence(FilterJobs(jobs, g), FilterJobs(jobs, f))
    decreases |jobs|
  {
    if |jobs| > 0 {
      NarrowingFilter(jobs[1..], f, g);
      var rf, rg := FilterJobs(jobs[1..], f), FilterJobs(jobs[1..], g);
      if Shows(jobs[0], g) {
        ShowsNarrows(jobs[0], f, g);
        SubsequenceCons(jobs[0], rg, rf);
      } else if Shows(jobs[0], f) {
        SubsequenceSkip(jobs[0], rg, rf);
      }
    }
  }

  /** A filter found only in the description still shows the job. */
  lemma DescriptionExample()
    ensures var job := Job("1", "Engineer", Some("We use PyTorch"), "Acme", "u", "d");
            Shows(job, "pytorch") && !Shows(Job("1", "Engineer", None, "Acme", "u", "d"), "pytorch")
  {
    var d := Lower("We use PyTorch");
    assert Lower("pytorch") == "pytorch";
    assert d[7..14] == "pytorch";
    assert OccursAt(d, "pytorch", 7);
    assert Lower("Engineer") == "engineer";
    assert "engineer"[0..7][0] != 'p' && "engineer"[1..8][0] != 'p';
    assert !IncludesFrom("engineer", "pytorch", 1);
    assert !Includes("engineer", "pytorch");
  }
}
