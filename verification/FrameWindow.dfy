/**
 The densest second of a frame trace, `_max_frames_per_job_per_second` of
 scripts/benchmarks/fixtures.py: a two-pointer scan over each job's sorted times, shown to
 return the maximum over all jobs and all closed windows of 1000 ms. Times are reals.
 */
module FrameWindow {
  import opened Sorting
  import opened Reals

  datatype Frame = Frame(jobId: string, tMs: real)

  predicate Within(t: real, a: real) {
    a <= t <= a + 1000.0
  }

  /** How many of the times lie in the closed window of 1000 ms that starts at a. */
  function Count(times: seq<real>, a: real): nat {
    if times == [] then 0
    else Count(times[..|times| - 1], a) + if Within(times[|times| - 1], a) then 1 else 0
  }

  function TimesOf(frames: seq<Frame>, job: string): seq<real> {
    if frames == [] then []
    else
      var last := frames[|frames| - 1];
      TimesOf(frames[..|frames| - 1], job) + if last.jobId == job then [last.tMs] else []
  }

  // ---------------------------------------------------------------- counting

  lemma CountSnoc(times: seq<real>, t: real, a: real)
    ensures Count(times + [t], a) == Count(times, a) + if Within(t, a) then 1 else 0
  {
    assert (times + [t])[..|times|] == times;
  }

  lemma {:induction false} CountInsert(ys: seq<real>, x: real, a: real)
    ensures Count(Insert(RealLeq, ys, x), a) == Count(ys, a) + if Within(x, a) then 1 else 0
  {
    if ys == [] || RealLeq(ys[|ys| - 1], x) {
      CountSnoc(ys, x, a);
    } else {
      CountInsert(ys[..|ys| - 1], x, a);
      CountSnoc(Insert(RealLeq, ys[..|ys| - 1], x), ys[|ys| - 1], a);
    }
  }

  /** Sorting does not change any count. */
  lemma {:induction false} CountSorted(times: seq<real>, a: real)
    ensures Count(SortBy(RealLeq, times), a) == Count(times, a)
  {
    if times != [] {
      CountSorted(times[..|times| - 1], a);
      CountInsert(SortBy(RealLeq, times[..|times| - 1]), times[|times| - 1], a);
    }
  }

  /** Counting when at most, or exactly, the positions lo..hi are inside the window. */
  lemma {:induction false} CountRange(times: seq<real>, a: real, lo: nat, hi: nat)
    requires lo <= hi <= |times|
    requires forall k :: 0 <= k < |times| && !(lo <= k < hi) ==> !Within(times[k], a)
    ensures Count(times, a) <= hi - lo
    ensures (forall k :: lo <= k < hi ==> Within(times[k], a)) ==> Count(times, a) == hi - lo
  {
    if times != [] {
      var n := |times| - 1;
      if hi == |times| && lo < hi {
        CountRange(times[..n], a, lo, hi - 1);
      } else {
        CountRange(times[..n], a, if lo <= n then lo else n, if hi <= n then hi else n);
      }
    }
  }

  lemma {:induction false} CountAtLeast(times: seq<real>, a: real, lo: nat, hi: nat)
    requires lo <= hi <= |times|
    requires forall k :: lo <= k < hi ==> Within(times[k], a)
    ensures Count(times, a) >= hi - lo
  {
    if times != [] {
      var n := |times| - 1;
      if hi == |times| && lo < hi {
        CountAtLeast(times[..n], a, lo, hi - 1);
      } else {
        CountAtLeast(times[..n], a, if lo <= n then lo else n, if hi <= n then hi else n);
      }
    }
  }

  // ---------------------------------------------------------------- one job

  /** `start` is the first position whose time is within 1000 ms before position j. */
  predicate IsStart(times: seq<real>, j: nat, start: nat) {
    && start <= j < |times|
    && times[j] - times[start] <= 1000.0
    && forall k :: 0 <= k < start ==> times[j] - times[k] > 1000.0
  }

  ghost predicate Bounds(times: seq<real>, upTo: nat, worst: nat) {
    upTo <= |times| && forall j, s :: 0 <= j < upTo && IsStart(times, j, s) ==> j - s + 1 <= worst
  }

  /** A window's count is bounded by the width the scan saw at the last time inside it. */
  lemma WindowBounded(times: seq<real>, worst: nat, a: real)
    requires Sorted(RealLeq, times) && Bounds(times, |times|, worst)
    ensures Count(times, a) <= worst
  {
    var j := LastUpTo(times, a + 1000.0);
    if j < 0 {
      CountRange(times, a, 0, 0);
    } else {
      var s := StartOf(times, j);
      forall k | 0 <= k < |times| && !(s <= k < j + 1) ensures !Within(times[k], a) {
        if k < s { assert times[j] - times[k] > 1000.0; }
      }
      CountRange(times, a, s, j + 1);
    }
  }

  lemma StartOf(times: seq<real>, j: nat) returns (s: nat)
    requires j < |times|
    ensures IsStart(times, j, s)
  {
    s := 0;
    while times[j] - times[s] > 1000.0
      invariant s <= j
      invariant forall k :: 0 <= k < s ==> times[j] - times[k] > 1000.0
      decreases j - s
    {
      s := s + 1;
    }
  }

  /** The last position with a time at most b, or -1. */
  lemma {:induction false} LastUpTo(times: seq<real>, b: real) returns (j: int)
    requires Sorted(RealLeq, times)
    ensures -1 <= j < |times| && (j >= 0 ==> times[j] <= b)
    ensures forall k :: j < k < |times| ==> times[k] > b
  {
    j := |times| - 1;
    while j >= 0 && times[j] > b
      invariant -1 <= j < |times|
      invariant forall k :: j < k < |times| ==> times[k] > b
    {
      j := j - 1;
    }
  }

  lemma StartReached(times: seq<real>, j: nat, start: nat)
    requires Sorted(RealLeq, times) && IsStart(times, j, start)
    ensures Count(times, times[start]) >= j - start + 1
  {
    forall k | start <= k < j + 1 ensures Within(times[k], times[start]) {
      if start < k { assert RealLeq(times[start], times[k]); }
      if k < j { assert RealLeq(times[k], times[j]); }
    }
    CountAtLeast(times, times[start], start, j + 1);
  }

  /** Some window of these times holds at least n of them. */
  ghost predicate Reached(times: seq<real>, n: nat) {
    exists a :: Count(times, a) >= n
  }

  /** Every position before `start` is too early for a window that ends at position j. */
  predicate Passed(times: seq<real>, j: nat, start: nat) {
    start <= j < |times| && forall k :: 0 <= k < start ==> times[j] - times[k] > 1000.0
  }

  /** The loops for one job; `soFar` is the maximum over the jobs before it. */
  method ScanJob(times: seq<real>, soFar: nat) returns (worst: nat)
    ensures soFar <= worst
    ensures AtMost(times, worst)
    ensures worst == soFar || Reached(times, worst)
  {
    var ordered := SortBy(RealLeq, times);
    SortedReals(times);
    worst := soFar;
    var start: nat := 0;
    for index := 0 to |ordered|
      invariant index < |ordered| ==> Passed(ordered, index, start)
      invariant soFar <= worst && Bounds(ordered, index, worst)
      invariant worst == soFar || Reached(ordered, worst)
    {
      while ordered[index] - ordered[start] > 1000.0
        invariant Passed(ordered, index, start)
        decreases index - start
      {
        start := start + 1;
      }
      StartReached(ordered, index, start);
      BoundsStep(ordered, index, worst, start);
      if index - start + 1 > worst {
        worst := index - start + 1;
      }
      StillPassed(ordered, index, start);
    }
    ScanIsExact(times, worst, soFar);
  }

  lemma StillPassed(times: seq<real>, j: nat, start: nat)
    requires Sorted(RealLeq, times) && Passed(times, j, start)
    ensures j + 1 < |times| ==> Passed(times, j + 1, start)
  {
    if j + 1 < |times| { assert RealLeq(times[j], times[j + 1]); }
  }

  /** What the scan established for the sorted times holds for the times as given. */
  lemma ScanIsExact(times: seq<real>, worst: nat, soFar: nat)
    requires Bounds(SortBy(RealLeq, times), |times|, worst)
    requires worst == soFar || Reached(SortBy(RealLeq, times), worst)
    ensures AtMost(times, worst)
    ensures worst == soFar || Reached(times, worst)
  {
    var ordered := SortBy(RealLeq, times);
    SortedReals(times);
    forall a ensures Count(times, a) <= worst {
      CountSorted(times, a);
      WindowBounded(ordered, worst, a);
    }
    if worst != soFar {
      var a :| Count(ordered, a) >= worst;
      CountSorted(times, a);
    }
  }

  lemma BoundsStep(times: seq<real>, j: nat, worst: nat, start: nat)
    requires Bounds(times, j, worst) && IsStart(times, j, start)
    ensures Bounds(times, j + 1, if j - start + 1 > worst then j - start + 1 else worst)
  {
    forall i, s | 0 <= i < j + 1 && IsStart(times, i, s)
      ensures i - s + 1 <= if j - start + 1 > worst then j - start + 1 else worst
    {
      if i == j { assert s == start; }
    }
  }

  // ---------------------------------------------------------------- all jobs

  ghost predicate Grouped(frames: seq<Frame>, perJob: map<string, seq<real>>, jobs: seq<string>) {
    && (forall job :: job in perJob <==> job in jobs)
    && (forall job :: TimesOf(frames, job) == if job in perJob then perJob[job] else [])
  }

  /** The dictionary of lists, with its keys in insertion order. */
  method GroupByJob(frames: seq<Frame>) returns (perJob: map<string, seq<real>>, jobs: seq<string>)
    ensures Grouped(frames, perJob, jobs)
  {
    perJob, jobs := map[], [];
    for k := 0 to |frames|
      invariant forall job :: job in perJob <==> job in jobs
      invariant forall job :: TimesOf(frames[..k], job) == if job in perJob then perJob[job] else []
    {
      assert frames[..k + 1][..k] == frames[..k];
      var job := frames[k].jobId;
      if job !in perJob {
        perJob := perJob[job := []];
        jobs := jobs + [job];
      }
      perJob := perJob[job := perJob[job] + [frames[k].tMs]];
    }
    assert frames[..|frames|] == frames;
  }

  /** No window of these times holds more than n of them. */
  ghost predicate AtMost(times: seq<real>, n: nat) {
    forall a :: Count(times, a) <= n
  }

  /** No job has more frames than `worst` in any closed window of 1000 ms. */
  ghost predicate IsUpperBound(frames: seq<Frame>, worst: nat) {
    forall job, a :: Count(TimesOf(frames, job), a) <= worst
  }

  /** Some job has at least n frames in some closed window of 1000 ms. */
  ghost predicate IsReached(frames: seq<Frame>, n: nat) {
    exists job :: Reached(TimesOf(frames, job), n)
  }

  /**
   The maximum, over all jobs and all closed windows of 1000 ms, of the number of the job's
   frames inside the window: no window holds more, and some window holds as many.
   */
  ghost predicate IsMaximum(frames: seq<Frame>, worst: nat) {
    IsUpperBound(frames, worst) && exists job, a :: Count(TimesOf(frames, job), a) == worst
  }

  method MaxFramesPerJobPerSecond(frames: seq<Frame>) returns (worst: nat)
    ensures IsMaximum(frames, worst)
  {
    var perJob, jobs := GroupByJob(frames);
    worst := 0;
    NothingYet(frames);
    for k := 0 to |jobs|
      invariant Grouped(frames, perJob, jobs)
      invariant JobsAtMost(frames, jobs, k, worst)
      invariant IsReached(frames, worst)
    {
      GroupOf(frames, perJob, jobs, k);
      var before := worst;
      worst := ScanJob(perJob[jobs[k]], before);
      OneMoreJob(frames, jobs, k, before, worst);
    }
    JobsAreAll(frames, perJob, jobs, worst);
    MaximumIsReached(frames, worst);
  }

  ghost predicate JobsAtMost(frames: seq<Frame>, jobs: seq<string>, k: nat, worst: nat) {
    k <= |jobs| && forall i :: 0 <= i < k ==> AtMost(TimesOf(frames, jobs[i]), worst)
  }

  lemma GroupOf(frames: seq<Frame>, perJob: map<string, seq<real>>, jobs: seq<string>, k: nat)
    requires Grouped(frames, perJob, jobs) && k < |jobs|
    ensures jobs[k] in perJob && perJob[jobs[k]] == TimesOf(frames, jobs[k])
  {
    assert jobs[k] in jobs;
  }

  lemma OneMoreJob(frames: seq<Frame>, jobs: seq<string>, k: nat, before: nat, worst: nat)
    requires k < |jobs| && JobsAtMost(frames, jobs, k, before) && IsReached(frames, before) && before <= worst
    requires AtMost(TimesOf(frames, jobs[k]), worst)
    requires worst == before || Reached(TimesOf(frames, jobs[k]), worst)
    ensures JobsAtMost(frames, jobs, k + 1, worst) && IsReached(frames, worst)
  {
    forall i | 0 <= i < k + 1 ensures AtMost(TimesOf(frames, jobs[i]), worst) {
      if i < k { AtMostMore(TimesOf(frames, jobs[i]), before, worst); }
    }
  }

  lemma NothingYet(frames: seq<Frame>)
    ensures IsReached(frames, 0)
  {
    assert Count(TimesOf(frames, ""), 0.0) >= 0;
    assert Reached(TimesOf(frames, ""), 0);
  }

  lemma AtMostMore(times: seq<real>, n: nat, m: nat)
    requires AtMost(times, n) && n <= m
    ensures AtMost(times, m)
  {
  }

  lemma JobsAreAll(frames: seq<Frame>, perJob: map<string, seq<real>>, jobs: seq<string>, worst: nat)
    requires Grouped(frames, perJob, jobs) && JobsAtMost(frames, jobs, |jobs|, worst)
    ensures IsUpperBound(frames, worst)
  {
    forall job, a ensures Count(TimesOf(frames, job), a) <= worst {
      if job in jobs {
        var i :| 0 <= i < |jobs| && jobs[i] == job;
        assert AtMost(TimesOf(frames, jobs[i]), worst);
      }
    }
  }

  lemma MaximumIsReached(frames: seq<Frame>, worst: nat)
    requires IsUpperBound(frames, worst) && IsReached(frames, worst)
    ensures IsMaximum(frames, worst)
  {
    var job :| Reached(TimesOf(frames, job), worst);
    var a :| Count(TimesOf(frames, job), a) >= worst;
    assert Count(TimesOf(frames, job), a) == worst;
  }
}
