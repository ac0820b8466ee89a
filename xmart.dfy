/**
 The paginated extraction loop of the xMart puller: for every year 2018..2025
 and every one of five tables, it requests pages of at most 10000 records with
 OData's `$top` / `$skip` / `$filter` system query options (section 5.1 of
 OData Version 4.01 Part 2: URL Conventions; the `in` operator is new in 4.01)
 until a page comes back empty, concatenates the pages, and writes the result
 to `data/{table}_{year}.parquet` when anything was fetched.

 The remote `get` is a parameter: it maps a request path to the decoded body
 of a 200 response (whose "value" list is a page of records) or to the integer
 status of any other response. Looking up "value" in an integer fails in the
 source, so a status ends the whole extraction at once. Writes are recorded in
 an output log instead of being performed.
 */
module XmartExtraction {
  import opened Options
  import opened Decimal

  datatype Response<R> = Page(value: seq<R>) | Status(code: int)

  /** One parquet file written, with the records written to it. */
  datatype Saved<R> = Saved(path: string, records: seq<R>)

  /** Everything the extraction does that can be observed: the paths it asked
      for, the files it wrote, and the status that aborted it, if any. */
  datatype Trace<R> = Trace(requests: seq<string>, saved: seq<Saved<R>>, failure: Option<int>)

  const Tables: seq<string> :=
    ["REF_POPULATIONS", "V_AD_COV_BOP_LONG", "REF_FINANCING", "AD_COVERAGES", "MT_AD_IA2030_FINANCING"]
  const StartYear: nat := 2018
  const EndYear: nat := 2025
  const Chunk: nat := 10000

  /** `list(range(start_year, end_year + 1))`. */
  function Years(): (ys: seq<nat>)
    ensures |ys| == 8
    ensures forall i :: 0 <= i < |ys| ==> ys[i] == StartYear + i
    ensures ys[0] == StartYear && ys[|ys| - 1] == EndYear
  {
    seq(EndYear - StartYear + 1, i => StartYear + i)
  }

  /** The (year, table) jobs in the order the two nested loops visit them. */
  function Jobs(): (js: seq<(nat, string)>)
    ensures |js| == |Years()| * |Tables|
    ensures forall i :: 0 <= i < |js| ==> js[i] == (Years()[i / 5], Tables[i % 5])
  {
    seq(40, i requires 0 <= i < 40 => (Years()[i / 5], Tables[i % 5]))
  }

  /** Jobs are ordered by year, and within a year by the table list. */
  lemma JobsOrdered(i: nat, j: nat)
    requires i < j < |Jobs()|
    ensures Jobs()[i].0 <= Jobs()[j].0
    ensures Jobs()[i].0 == Jobs()[j].0 ==> i % 5 < j % 5
  {
  }

  /** `f"{table}?$top={top}&$skip={skip}&$filter=YEAR in ({str(year)})"`. */
  function PagePath(table: string, top: nat, skip: nat, year: nat): string
  {
    table + "?$top=" + ShowNat(top) + "&$skip=" + ShowNat(skip) + "&$filter=YEAR in (" + ShowNat(year) + ")"
  }

  /** `f"data/{table}_{str(year)}.parquet"`. */
  function OutputPath(table: string, year: nat): string
  {
    "data/" + table + "_" + ShowNat(year) + ".parquet"
  }

  /** The k-th request of a job: top is always one chunk, skip is k chunks. */
  function Request(table: string, year: nat, k: nat): string
  {
    PagePath(table, Chunk, k * Chunk, year)
  }

  /** The first n requests of a job. */
  function Requests(table: string, year: nat, n: nat): (r: seq<string>)
    ensures |r| == n
  {
    if n == 0 then [] else Requests(table, year, n - 1) + [Request(table, year, n - 1)]
  }

  lemma {:induction false} RequestsAt(table: string, year: nat, n: nat, k: nat)
    requires k < n
    ensures Requests(table, year, n)[k] == Request(table, year, k)
  {
    if k < n - 1 {
      RequestsAt(table, year, n - 1, k);
    }
  }

  predicate NonEmptyPage<R>(r: Response<R>)
  {
    r.Page? && |r.value| > 0
  }

  function Records<R>(r: Response<R>): seq<R>
  {
    if r.Page? then r.value else []
  }

  /** The records of the first n pages of a job, in order. */
  function Gathered<R>(get: string -> Response<R>, table: string, year: nat, n: nat): seq<R>
  {
    if n == 0 then [] else Gathered(get, table, year, n - 1) + Records(get(Request(table, year, n - 1)))
  }

  /** The remote side eventually answers a job with something other than a
      non-empty page (without it the source loops for ever). */
  ghost predicate Ends<R>(get: string -> Response<R>, table: string, year: nat)
  {
    exists n: nat :: !NonEmptyPage(get(Request(table, year, n)))
  }

  ghost function FirstStopFrom<R>(get: string -> Response<R>, table: string, year: nat, i: nat, n: nat): (r: nat)
    requires i <= n && !NonEmptyPage(get(Request(table, year, n)))
    ensures i <= r <= n && !NonEmptyPage(get(Request(table, year, r)))
    ensures forall j :: i <= j < r ==> NonEmptyPage(get(Request(table, year, j)))
    decreases n - i
  {
    if !NonEmptyPage(get(Request(table, year, i))) then i else FirstStopFrom(get, table, year, i + 1, n)
  }

  /** The index of the request that ends a job: the first one not answered by
      a non-empty page. */
  ghost function StopIndex<R>(get: string -> Response<R>, table: string, year: nat): (r: nat)
    requires Ends(get, table, year)
    ensures !NonEmptyPage(get(Request(table, year, r)))
    ensures forall j :: 0 <= j < r ==> NonEmptyPage(get(Request(table, year, j)))
  {
    var n: nat :| !NonEmptyPage(get(Request(table, year, n)));
    FirstStopFrom(get, table, year, 0, n)
  }

  lemma StopIndexUnique<R>(get: string -> Response<R>, table: string, year: nat, k: nat)
    requires !NonEmptyPage(get(Request(table, year, k)))
    requires forall j :: 0 <= j < k ==> NonEmptyPage(get(Request(table, year, j)))
    ensures Ends(get, table, year) && StopIndex(get, table, year) == k
  {
    var s := StopIndex(get, table, year);
    assert s >= k;
    assert k >= s;
  }

  /** What one (table, year) job produced: the requests it sent, the
      accumulated table (None while no page has been non-empty, as `merged_df`
      is), and the status that aborted it. */
  datatype Fetch<R> = Fetch(requests: seq<string>, merged: Option<seq<R>>, failure: Option<int>)

  ghost function Job<R>(get: string -> Response<R>, table: string, year: nat): Fetch<R>
    requires Ends(get, table, year)
  {
    var s := StopIndex(get, table, year);
    var last := get(Request(table, year, s));
    Fetch(Requests(table, year, s + 1),
          if s == 0 then None else Some(Gathered(get, table, year, s)),
          if last.Status? then Some(last.code) else None)
  }

  /** Every job the run reaches ends: a job must end unless an earlier job
      has already failed, since the run stops at the first status. */
  ghost predicate RunEnds<R>(get: string -> Response<R>, jobs: seq<(nat, string)>)
    decreases |jobs|, 0
  {
    |jobs| == 0 ||
    (RunEnds(get, jobs[..|jobs| - 1]) &&
     (Run(get, jobs[..|jobs| - 1]).failure.Some? || Ends(get, jobs[|jobs| - 1].1, jobs[|jobs| - 1].0)))
  }

  /** A run over jobs that all end reaches its end. */
  lemma {:induction false} AllEndRunEnds<R>(get: string -> Response<R>, jobs: seq<(nat, string)>)
    requires forall i :: 0 <= i < |jobs| ==> Ends(get, jobs[i].1, jobs[i].0)
    ensures RunEnds(get, jobs)
    decreases |jobs|
  {
    if |jobs| > 0 {
      AllEndRunEnds(get, jobs[..|jobs| - 1]);
    }
  }

  /** Every prefix of a run that ends ends. */
  lemma {:induction false} RunEndsPrefix<R>(get: string -> Response<R>, jobs: seq<(nat, string)>, n: nat)
    requires n <= |jobs| && RunEnds(get, jobs)
    ensures RunEnds(get, jobs[..n])
    decreases |jobs|
  {
    if n < |jobs| {
      assert jobs[..|jobs| - 1][..n] == jobs[..n];
      RunEndsPrefix(get, jobs[..|jobs| - 1], n);
    } else {
      assert jobs[..n] == jobs;
    }
  }

  /** The whole extraction over a list of jobs, as the loops run it: jobs are
      run in order, a file is saved after a job that fetched something, and
      the first status ends the run. */
  ghost function Run<R>(get: string -> Response<R>, jobs: seq<(nat, string)>): Trace<R>
    requires RunEnds(get, jobs)
    decreases |jobs|, 1
  {
    if |jobs| == 0 then Trace([], [], None)
    else
      var prev := Run(get, jobs[..|jobs| - 1]);
      if prev.failure.Some? then prev
      else
        var job := jobs[|jobs| - 1];
        var f := Job(get, job.1, job.0);
        Trace(prev.requests + f.requests,
              if f.failure.None? && f.merged.Some? then prev.saved + [Saved(OutputPath(job.1, job.0), f.merged.value)] else prev.saved,
              f.failure)
  }

  // ---------------------------------------------------------------------------
  // Properties of the specification

  /** Within a job the requests differ only in $skip, which runs 0, 10000,
      20000, ...; top is always 10000. */
  lemma JobRequests<R>(get: string -> Response<R>, table: string, year: nat, k: nat)
    requires Ends(get, table, year)
    requires k < |Job(get, table, year).requests|
    ensures Job(get, table, year).requests[k] == PagePath(table, 10000, 10000 * k, year)
  {
    RequestsAt(table, year, StopIndex(get, table, year) + 1, k);
  }

  /** A job stops at its first empty page (or status): every earlier request
      was answered with a non-empty page, and the accumulated table is the
      concatenation of those pages in request order. */
  lemma JobStopsAtFirstEmptyPage<R>(get: string -> Response<R>, table: string, year: nat)
    requires Ends(get, table, year)
    ensures var f := Job(get, table, year);
      && |f.requests| > 0
      && !NonEmptyPage(get(f.requests[|f.requests| - 1]))
      && (forall k :: 0 <= k < |f.requests| - 1 ==> NonEmptyPage(get(f.requests[k])))
      && (f.merged.Some? ==> f.merged.value == Gathered(get, table, year, |f.requests| - 1))
  {
    var s := StopIndex(get, table, year);
    RequestsAt(table, year, s + 1, s);
    forall k | 0 <= k < s ensures NonEmptyPage(get(Job(get, table, year).requests[k])) {
      RequestsAt(table, year, s + 1, k);
    }
  }

  /** The table is saved exactly when the first page is non-empty, what is
      saved is never empty, and the job fails exactly when its last response
      is a status. */
  lemma {:induction false} JobSavesIffFirstPageNonEmpty<R>(get: string -> Response<R>, table: string, year: nat)
    requires Ends(get, table, year)
    ensures var f := Job(get, table, year);
      && (f.merged.Some? <==> NonEmptyPage(get(Request(table, year, 0))))
      && (f.merged.Some? ==> |f.merged.value| > 0)
      && (f.failure.Some? <==> get(Request(table, year, StopIndex(get, table, year))).Status?)
  {
    var s := StopIndex(get, table, year);
    if s > 0 {
      GatheredNonEmpty(get, table, year, s);
    }
  }

  lemma {:induction false} GatheredNonEmpty<R>(get: string -> Response<R>, table: string, year: nat, n: nat)
    requires n > 0 && forall j :: 0 <= j < n ==> NonEmptyPage(get(Request(table, year, j)))
    ensures |Gathered(get, table, year, n)| >= n
  {
    if n > 1 {
      GatheredNonEmpty(get, table, year, n - 1);
    }
    assert NonEmptyPage(get(Request(table, year, n - 1)));
  }

  /** Once a status has aborted the run, later jobs change nothing: whether
      or not they would end, no request is sent and no file is saved for them. */
  lemma {:induction false} RunFrozenAfterFailure<R>(get: string -> Response<R>, jobs: seq<(nat, string)>, n: nat)
    requires n <= |jobs|
    requires RunEnds(get, jobs[..n]) && Run(get, jobs[..n]).failure.Some?
    ensures RunEnds(get, jobs) && Run(get, jobs) == Run(get, jobs[..n])
    decreases |jobs|
  {
    if n < |jobs| {
      assert jobs[..|jobs| - 1][..n] == jobs[..n];
      RunFrozenAfterFailure(get, jobs[..|jobs| - 1], n);
    } else {
      assert jobs[..n] == jobs;
    }
  }

  /** A status on the first job ends the run there, whatever the remote
      would answer for the later jobs. */
  lemma FirstJobFailureEndsRun<R>(get: string -> Response<R>, jobs: seq<(nat, string)>)
    requires |jobs| > 0 && Ends(get, jobs[0].1, jobs[0].0)
    requires Job(get, jobs[0].1, jobs[0].0).failure.Some?
    ensures RunEnds(get, jobs)
    ensures Run(get, jobs) == Trace(Job(get, jobs[0].1, jobs[0].0).requests, [], Job(get, jobs[0].1, jobs[0].0).failure)
  {
    FirstJobRun(get, jobs);
    RunFrozenAfterFailure(get, jobs, 1);
  }

  lemma FirstJobRun<R>(get: string -> Response<R>, jobs: seq<(nat, string)>)
    requires |jobs| > 0 && Ends(get, jobs[0].1, jobs[0].0)
    ensures RunEnds(get, jobs[..1])
    ensures var f := Job(get, jobs[0].1, jobs[0].0);
      Run(get, jobs[..1]) == Trace(f.requests, if f.failure.None? && f.merged.Some? then [Saved(OutputPath(jobs[0].1, jobs[0].0), f.merged.value)] else [], f.failure)
  {
    var f := Job(get, jobs[0].1, jobs[0].0);
    assert jobs[..0] == [];
    RunPrefixStep(get, jobs, 1);
    assert [] + f.requests == f.requests;
  }

  /** A job that fails saves nothing; a job that ends on an empty page adds a
      file exactly when its first page was non-empty, holding all it fetched. */
  lemma RunLastJob<R>(get: string -> Response<R>, jobs: seq<(nat, string)>)
    requires |jobs| > 0 && RunEnds(get, jobs)
    requires Run(get, jobs[..|jobs| - 1]).failure.None?
    ensures var job := jobs[|jobs| - 1];
      var before := Run(get, jobs[..|jobs| - 1]).saved;
      var after := Run(get, jobs).saved;
      && (Run(get, jobs).failure.Some? ==> after == before)
      && (Run(get, jobs).failure.None? ==> (after == before <==> !NonEmptyPage(get(Request(job.1, job.0, 0)))))
      && (after != before ==>
            after == before + [Saved(OutputPath(job.1, job.0), Gathered(get, job.1, job.0, StopIndex(get, job.1, job.0)))])
  {
    var job := jobs[|jobs| - 1];
    JobSavesIffFirstPageNonEmpty(get, job.1, job.0);
    var before := Run(get, jobs[..|jobs| - 1]).saved;
    var f := Job(get, job.1, job.0);
    if f.failure.None? && f.merged.Some? {
      assert Run(get, jobs).saved == before + [Saved(OutputPath(job.1, job.0), f.merged.value)];
      assert |Run(get, jobs).saved| == |before| + 1;
    }
  }

  /** Different page indices give different request paths, so no page is
      requested twice. */
  lemma RequestsDistinct(table: string, year: nat, k1: nat, k2: nat)
    requires k1 != k2
    ensures Request(table, year, k1) != Request(table, year, k2)
  {
    assert k1 * Chunk != k2 * Chunk;
    PathsDistinct(table, Chunk, k1 * Chunk, k2 * Chunk, year);
  }

  lemma PathsDistinct(table: string, top: nat, skip1: nat, skip2: nat, year: nat)
    requires skip1 != skip2
    ensures PagePath(table, top, skip1, year) != PagePath(table, top, skip2, year)
  {
    var x := table + "?$top=" + ShowNat(top) + "&$skip=";
    var y := "&$filter=YEAR in (" + ShowNat(year) + ")";
    assert PagePath(table, top, skip1, year) == x + ShowNat(skip1) + y;
    assert PagePath(table, top, skip2, year) == x + ShowNat(skip2) + y;
    if ShowNat(skip1) == ShowNat(skip2) {
      ShowNatInjective(skip1, skip2);
    }
    FieldDistinct(x, ShowNat(skip1), ShowNat(skip2), y);
  }

  /** A digit field between a fixed prefix and a suffix starting with a
      non-digit determines the string. */
  lemma FieldDistinct(x: string, a: string, b: string, y: string)
    requires AllDigits(a) && AllDigits(b) && a != b
    requires |y| > 0 && !IsDigit(y[0])
    ensures x + a + y != x + b + y
  {
    DigitsThenTagDiffer(a, b, y);
    assert (x + a + y)[|x|..] == a + y;
    assert (x + b + y)[|x|..] == b + y;
  }

  /** Two different digit strings stay different when followed by text that
      starts with a non-digit. */
  lemma {:induction false} DigitsThenTagDiffer(a: string, b: string, tail: string)
    requires AllDigits(a) && AllDigits(b) && a != b
    requires |tail| > 0 && !IsDigit(tail[0])
    ensures a + tail != b + tail
    decreases |a|
  {
    if |a| > 0 && |b| > 0 && a[0] == b[0] {
      assert a == [a[0]] + a[1..] && b == [b[0]] + b[1..];
      DigitsThenTagDiffer(a[1..], b[1..], tail);
      assert (a + tail)[1..] == a[1..] + tail;
      assert (b + tail)[1..] == b[1..] + tail;
    } else if |a| == 0 {
      assert (b + tail)[0] == b[0];
    } else if |b| == 0 {
      assert (a + tail)[0] == a[0];
    } else {
      assert (a + tail)[0] != (b + tail)[0];
    }
  }

  /** One more job on a prefix of the job list. */
  lemma RunPrefixStep<R>(get: string -> Response<R>, jobs: seq<(nat, string)>, n: nat)
    requires 0 < n <= |jobs| && RunEnds(get, jobs[..n - 1]) && Run(get, jobs[..n - 1]).failure.None?
    requires Ends(get, jobs[n - 1].1, jobs[n - 1].0)
    ensures RunEnds(get, jobs[..n])
    ensures var prev := Run(get, jobs[..n - 1]);
      var f := Job(get, jobs[n - 1].1, jobs[n - 1].0);
      Run(get, jobs[..n]) ==
        Trace(prev.requests + f.requests,
              if f.failure.None? && f.merged.Some? then prev.saved + [Saved(OutputPath(jobs[n - 1].1, jobs[n - 1].0), f.merged.value)] else prev.saved,
              f.failure)
  {
    assert jobs[..n][..n - 1] == jobs[..n - 1];
  }

  // ---------------------------------------------------------------------------
  // The loops

  /** The first k requests of a job were answered with non-empty pages. */
  ghost predicate PagesBefore<R>(get: string -> Response<R>, table: string, year: nat, k: nat)
  {
    k == 0 || (PagesBefore(get, table, year, k - 1) && NonEmptyPage(get(Request(table, year, k - 1))))
  }

  lemma {:induction false} PagesBeforeAll<R>(get: string -> Response<R>, table: string, year: nat, k: nat)
    requires PagesBefore(get, table, year, k)
    ensures forall j :: 0 <= j < k ==> NonEmptyPage(get(Request(table, year, j)))
  {
    if k > 0 {
      PagesBeforeAll(get, table, year, k - 1);
    }
  }

  lemma JobEndedAt<R>(get: string -> Response<R>, table: string, year: nat, k: nat)
    requires !NonEmptyPage(get(Request(table, year, k)))
    requires PagesBefore(get, table, year, k)
    ensures Ends(get, table, year)
    ensures var last := get(Request(table, year, k));
      Job(get, table, year) ==
        Fetch(Requests(table, year, k + 1),
              if k == 0 then None else Some(Gathered(get, table, year, k)),
              if last.Status? then Some(last.code) else None)
  {
    PagesBeforeAll(get, table, year, k);
    StopIndexUnique(get, table, year, k);
  }

  lemma GatheredStep<R>(get: string -> Response<R>, table: string, year: nat, k: nat, data: seq<R>)
    requires get(Request(table, year, k)) == Page(data)
    ensures Gathered(get, table, year, k + 1) == Gathered(get, table, year, k) + data
    ensures k == 0 ==> Gathered(get, table, year, k + 1) == data
  {
  }

  lemma RequestsNext(table: string, year: nat, k: nat)
    ensures Requests(table, year, k + 1) == Requests(table, year, k) + [Request(table, year, k)]
  {
  }

  lemma SkipStep(k: nat)
    ensures (k + 1) * Chunk == k * Chunk + Chunk
  {
  }

  /** The `while not stop` loop for one (table, year): returns the requests
      sent, `merged_df`, and the status if a response was not a page. */
  method FetchTable<R>(get: string -> Response<R>, table: string, year: nat)
    returns (requests: seq<string>, merged: Option<seq<R>>, failure: Option<int>)
    requires Ends(get, table, year)
    ensures Fetch(requests, merged, failure) == Job(get, table, year)
  {
    ghost var n: nat :| !NonEmptyPage(get(Request(table, year, n)));
    ghost var k: nat := 0;
    var skip: nat := 0;
    var top: nat := Chunk;
    var stop := false;
    merged := None;
    requests := [];
    failure := None;
    while !stop
      invariant top == Chunk && skip == k * Chunk && k <= n
      invariant requests == Requests(table, year, if stop then k + 1 else k)
      invariant PagesBefore(get, table, year, k)
      invariant stop ==> get(Request(table, year, k)).Page? && !NonEmptyPage(get(Request(table, year, k)))
      invariant merged == if k == 0 then None else Some(Gathered(get, table, year, k))
      decreases n - k, if stop then 0 else 1
    {
      var path := PagePath(table, top, skip, year);
      assert path == Request(table, year, k);
      RequestsNext(table, year, k);
      requests := requests + [path];
      var response := get(path);
      if response.Status? {
        // response["value"] raises: the extraction is over.
        failure := Some(response.code);
        JobEndedAt(get, table, year, k);
        return;
      }
      var data := response.value;
      if |data| == 0 {
        stop := true;
      } else {
        assert k != n;
        GatheredStep(get, table, year, k, data);
        if merged.None? {
          merged := Some(data);
        } else {
          merged := Some(merged.value + data);
        }
        SkipStep(k);
        skip := skip + Chunk;
        k := k + 1;
      }
    }
    JobEndedAt(get, table, year, k);
  }

  /** The job at position `n == 5 * yi + ti` is year `yi` with table `ti`. */
  lemma JobAt(yi: nat, ti: nat, n: nat)
    requires yi < |Years()| && ti < |Tables| && n == yi * 5 + ti
    ensures n < |Jobs()| && Jobs()[n] == (Years()[yi], Tables[ti])
  {
    assert n / 5 == yi && n % 5 == ti;
  }

  /** Running one more job, given the trace of the jobs before it. */
  lemma RunJob<R>(get: string -> Response<R>, jobs: seq<(nat, string)>, n: nat, before: Trace<R>, f: Fetch<R>)
    requires n < |jobs| && Ends(get, jobs[n].1, jobs[n].0)
    requires RunEnds(get, jobs[..n]) && before == Run(get, jobs[..n]) && before.failure.None?
    requires f == Job(get, jobs[n].1, jobs[n].0)
    ensures RunEnds(get, jobs[..n + 1])
    ensures Run(get, jobs[..n + 1]) ==
      Trace(before.requests + f.requests,
            if f.failure.None? && f.merged.Some? then before.saved + [Saved(OutputPath(jobs[n].1, jobs[n].0), f.merged.value)] else before.saved,
            f.failure)
  {
    RunPrefixStep(get, jobs, n + 1);
  }

  /** In a run that ends, the job after a prefix that has not failed ends. */
  lemma NextJobEnds<R>(get: string -> Response<R>, jobs: seq<(nat, string)>, n: nat)
    requires n < |jobs| && RunEnds(get, jobs)
    requires RunEnds(get, jobs[..n]) && Run(get, jobs[..n]).failure.None?
    ensures Ends(get, jobs[n].1, jobs[n].0)
  {
    RunEndsPrefix(get, jobs, n + 1);
    assert jobs[..n + 1][..n] == jobs[..n];
  }

  /** `extract_from_api`: every year, every table, in order; a status aborts. */
  method ExtractFromApi<R>(get: string -> Response<R>) returns (trace: Trace<R>)
    requires RunEnds(get, Jobs())
    ensures trace == Run(get, Jobs())
  {
    ghost var all := Jobs();
    var years := Years();
    var requests: seq<string> := [];
    var saved: seq<Saved<R>> := [];
    ghost var n: nat := 0;
    assert all[..0] == [];
    for yi := 0 to |years|
      invariant n == yi * 5
      invariant RunEnds(get, all[..n]) && Trace(requests, saved, None) == Run(get, all[..n])
    {
      var year := years[yi];
      for ti := 0 to |Tables|
        invariant n == yi * 5 + ti
        invariant RunEnds(get, all[..n]) && Trace(requests, saved, None) == Run(get, all[..n])
      {
        var table := Tables[ti];
        JobAt(yi, ti, n);
        NextJobEnds(get, all, n);
        var rq, merged, failure := FetchTable(get, table, year);
        RunJob(get, all, n, Trace(requests, saved, None), Fetch(rq, merged, failure));
        requests := requests + rq;
        n := n + 1;
        if failure.Some? {
          trace := Trace(requests, saved, failure);
          RunFrozenAfterFailure(get, all, n);
          return;
        }
        if merged.Some? {
          saved := saved + [Saved(OutputPath(table, year), merged.value)];
        }
      }
    }
    assert all[..|all|] == all;
    trace := Trace(requests, saved, None);
  }
}
