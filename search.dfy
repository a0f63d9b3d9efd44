/** The search loop of `src/main.rs`, with its threads serialised: a task
    generates one candidate, counts it, tests it against the matcher and, on
    a match, counts and records it; the dispatch loop runs a task on every
    iteration whose queue check passes; the progress reporter takes the
    difference between the current count and its previous snapshot; and
    elapsed seconds are shown as hours, minutes and seconds.

    Key generation, the pool's queue depth and the clocks are outside the
    model and enter as parameters. */
module Search {
  import opened Patterns

  /** The largest value of the source's `u64` counters. */
  const U64_MAX: nat := 0xFFFF_FFFF_FFFF_FFFF

  /** The number of dispatch iterations the program is configured with. */
  const N_JOBS: nat := 888_888_888_888_888

  datatype Option<T> = None | Some(value: T)

  /** One keypair from the address source: its address and private key. */
  datatype Candidate = Candidate(address: string, privateKey: string)

  /** A duration broken into hours, minutes and seconds. */
  datatype Hms = Hms(hours: nat, minutes: nat, seconds: nat)

  /** What one progress line reports: the totals, the growth of the
      generated count since the previous report, and the running time. */
  datatype ProgressReport = ProgressReport(
    generated: nat, matched: nat, delta: nat, runningTime: Hms)

  /** What the final lines report; the match rate (a percentage) is shown
      only when something matched. */
  datatype Summary = Summary(
    generated: nat, matched: nat, runningTime: Hms, matchRate: Option<real>)

  // ---------------------------------------------------------------------
  // Hours, minutes and seconds
  // ---------------------------------------------------------------------

  /** `total / 3600`, `(total % 3600) / 60`, `total % 60`: a decomposition
      whose minutes and seconds are both below 60 and that adds back up to
      `total`. */
  function SplitHms(total: nat): (t: Hms)
    ensures t.hours * 3600 + t.minutes * 60 + t.seconds == total
    ensures t.minutes < 60 && t.seconds < 60
  {
    Hms(total / 3600, (total % 3600) / 60, total % 60)
  }

  /** The decomposition is the only one with minutes and seconds below 60. */
  lemma SplitHmsUnique(total: nat, t: Hms)
    requires t.minutes < 60 && t.seconds < 60
    requires t.hours * 3600 + t.minutes * 60 + t.seconds == total
    ensures t == SplitHms(total)
  {
    var u := SplitHms(total);
    var r := t.minutes * 60 + t.seconds;
    assert r < 3600;
    assert t.hours == total / 3600 && r == total % 3600;
    assert t.seconds == r % 60 && t.minutes == r / 60;
  }

  // ---------------------------------------------------------------------
  // The dispatch loop as a specification
  // ---------------------------------------------------------------------

  /** Iteration `i` submits a task: the pool's queue held at most
      `numThreads` waiting tasks when it was checked. */
  predicate Submits(numThreads: nat, queuedAt: nat -> nat, i: nat) {
    queuedAt(i) <= numThreads
  }

  /** The number of tasks the first `n` iterations submit. */
  function Submissions(n: nat, numThreads: nat, queuedAt: nat -> nat): (k: nat)
    ensures k <= n
    ensures k == n <==> forall i :: 0 <= i < n ==> Submits(numThreads, queuedAt, i)
  {
    if n == 0 then 0
    else Submissions(n - 1, numThreads, queuedAt) + (if Submits(numThreads, queuedAt, n - 1) then 1 else 0)
  }

  /** The candidates of the submitted tasks among the first `n` iterations
      that match, in iteration order. */
  function Hits(m: PatternMatcher, n: nat, numThreads: nat, queuedAt: nat -> nat,
                candidateAt: nat -> Candidate): seq<Candidate>
  {
    if n == 0 then []
    else
      var c := candidateAt(n - 1);
      Hits(m, n - 1, numThreads, queuedAt, candidateAt) +
        (if Submits(numThreads, queuedAt, n - 1) && MatchesAny(m, c.address) then [c] else [])
  }

  /** At most one task per iteration is submitted, and at most one hit per
      submitted task is recorded, every one of them a matching address. */
  lemma {:induction false} HitsBound(m: PatternMatcher, n: nat, numThreads: nat,
                                     queuedAt: nat -> nat, candidateAt: nat -> Candidate)
    ensures |Hits(m, n, numThreads, queuedAt, candidateAt)| <= Submissions(n, numThreads, queuedAt) <= n
    ensures forall c :: c in Hits(m, n, numThreads, queuedAt, candidateAt) ==> MatchesAny(m, c.address)
  {
    if n > 0 {
      HitsBound(m, n - 1, numThreads, queuedAt, candidateAt);
    }
  }

  /** Iteration `i` contributes its candidate to the hits when it submitted
      its task and the task's address matched. */
  lemma {:induction false} HitsInclude(m: PatternMatcher, n: nat, numThreads: nat,
                    queuedAt: nat -> nat, candidateAt: nat -> Candidate, i: nat)
    requires i < n
    ensures var c := candidateAt(i);
      Submits(numThreads, queuedAt, i) && MatchesAny(m, c.address) ==>
        c in Hits(m, n, numThreads, queuedAt, candidateAt)
    decreases n
  {
    if i < n - 1 {
      HitsInclude(m, n - 1, numThreads, queuedAt, candidateAt, i);
    }
  }

  /** Conversely, every hit is the candidate of some iteration that
      submitted its task. */
  lemma {:induction false} HitsSource(m: PatternMatcher, n: nat, numThreads: nat,
                   queuedAt: nat -> nat, candidateAt: nat -> Candidate, c: Candidate)
    requires c in Hits(m, n, numThreads, queuedAt, candidateAt)
    ensures exists i :: 0 <= i < n && Submits(numThreads, queuedAt, i) && candidateAt(i) == c
    decreases n
  {
    if c in Hits(m, n - 1, numThreads, queuedAt, candidateAt) {
      HitsSource(m, n - 1, numThreads, queuedAt, candidateAt, c);
    } else {
      assert Submits(numThreads, queuedAt, n - 1) && candidateAt(n - 1) == c;
    }
  }

  /** The configured iteration count leaves the `u64` counters room for one
      increment per iteration from zero. */
  lemma ConfiguredJobsFit()
    ensures N_JOBS <= U64_MAX
  {
  }

  // ---------------------------------------------------------------------
  // The shared counters
  // ---------------------------------------------------------------------

  /** The state the tasks and the progress reporter share: the two counters,
      the hits handed to the recorder, and the reporter's snapshot of the
      generated count. */
  class Counters {
    const matcher: PatternMatcher
    var generated: nat
    var matched: nat
    var hits: seq<Candidate>
    var prevCount: nat

    /** Matches never outnumber generated addresses, which never exceed the
        `u64` range; the snapshot never runs ahead of the count it copies;
        the recorder received exactly the matched candidates. */
    ghost predicate Valid()
      reads this
    {
      && matched <= generated <= U64_MAX
      && prevCount <= generated
      && |hits| == matched
      && forall c :: c in hits ==> MatchesAny(matcher, c.address)
    }

    /** Both counters and the snapshot start at 0. */
    constructor (matcher: PatternMatcher)
      ensures Valid()
      ensures this.matcher == matcher
      ensures generated == 0 && matched == 0 && hits == [] && prevCount == 0
    {
      this.matcher := matcher;
      generated, matched, hits, prevCount := 0, 0, [], 0;
    }

    /** One worker task on the candidate `c` the address source produced:
        `generated` grows by one whatever the outcome, `matched` by one
        exactly when the address matches, and a matching candidate is
        handed to the recorder. */
    method RunTask(c: Candidate) returns (isMatch: bool)
      requires Valid()
      requires generated < U64_MAX
      modifies this
      ensures Valid()
      ensures isMatch == MatchesAny(matcher, c.address)
      ensures generated == old(generated) + 1
      ensures matched == old(matched) + (if isMatch then 1 else 0)
      ensures hits == old(hits) + (if isMatch then [c] else [])
      ensures prevCount == old(prevCount)
    {
      generated := generated + 1;
      isMatch := MatchesAny(matcher, c.address);
      if isMatch {
        matched := matched + 1;
        hits := hits + [c];
      }
    }

    /** One wake-up of the progress reporter, `totalElapsed` seconds after the
        start: the delta is the growth since the previous snapshot, which
        cannot be negative, and the snapshot then catches up with the count. */
    method ReportProgress(totalElapsed: nat) returns (report: ProgressReport)
      requires Valid()
      modifies this
      ensures Valid()
      ensures report.generated == generated && report.matched == matched
      ensures report.delta == old(generated) - old(prevCount)
      ensures report.runningTime == SplitHms(totalElapsed)
      ensures prevCount == generated
      ensures generated == old(generated) && matched == old(matched) && hits == old(hits)
    {
      var currentCount := generated;
      var currentMatches := matched;
      var countDiff := currentCount - prevCount;
      prevCount := currentCount;
      report := ProgressReport(currentCount, currentMatches, countDiff, SplitHms(totalElapsed));
    }

    /** `for _ in 0..n_jobs`: iteration `i` runs a task on `candidateAt(i)`
        when the queue depth `queuedAt(i)` it observes is at most
        `numThreads`, and skips it otherwise. */
    method Dispatch(nJobs: nat, numThreads: nat, queuedAt: nat -> nat,
                    candidateAt: nat -> Candidate) returns (submitted: nat)
      requires Valid()
      requires generated + nJobs <= U64_MAX
      modifies this
      ensures Valid()
      ensures submitted == Submissions(nJobs, numThreads, queuedAt) <= nJobs
      ensures generated == old(generated) + submitted
      ensures hits == old(hits) + Hits(matcher, nJobs, numThreads, queuedAt, candidateAt)
      ensures matched == old(matched) + |Hits(matcher, nJobs, numThreads, queuedAt, candidateAt)|
      ensures prevCount == old(prevCount)
    {
      submitted := 0;
      for i := 0 to nJobs
        invariant Valid()
        invariant submitted == Submissions(i, numThreads, queuedAt) <= i
        invariant generated == old(generated) + submitted
        invariant hits == old(hits) + Hits(matcher, i, numThreads, queuedAt, candidateAt)
        invariant matched == old(matched) + |Hits(matcher, i, numThreads, queuedAt, candidateAt)|
        invariant prevCount == old(prevCount)
      {
        if queuedAt(i) <= numThreads {
          var _ := RunTask(candidateAt(i));
          submitted := submitted + 1;
        }
      }
    }

    /** The final report once every task has finished, `totalElapsed`
        seconds after the start. The rate divides by the generated count
        only when something matched, and the invariant makes that count
        positive then, so the rate is a proper percentage. */
    method Finish(totalElapsed: nat) returns (s: Summary)
      requires Valid()
      ensures s.generated == generated && s.matched == matched
      ensures s.runningTime == SplitHms(totalElapsed)
      ensures s.matchRate.Some? <==> matched > 0
      ensures s.matchRate.Some? ==>
        (generated > 0 && s.matchRate.value == (matched as real / generated as real) * 100.0)
      ensures s.matchRate.Some? ==> 0.0 < s.matchRate.value <= 100.0
    {
      var finalGenerated := generated;
      var finalMatches := matched;
      var rate: Option<real> := None;
      if finalMatches > 0 {
        var ratio := finalMatches as real / finalGenerated as real;
        RatioAtMostOne(finalMatches, finalGenerated);
        rate := Some(ratio * 100.0);
      }
      s := Summary(finalGenerated, finalMatches, SplitHms(totalElapsed), rate);
    }
  }

  /** A positive count over a count at least as large is a ratio in (0, 1]. */
  lemma RatioAtMostOne(a: nat, b: nat)
    requires 0 < a <= b
    ensures 0.0 < a as real / b as real <= 1.0
  {
  }

  /** `main`: compile the patterns, run the dispatch loop over `nJobs`
      iterations from zeroed counters, and report. Every counted address was
      generated by a submitted task, the recorder received exactly the
      matching candidates with their private keys, and the counters stay
      within `u64`. */
  method Run(patterns: seq<string>, nJobs: nat, numThreads: nat, queuedAt: nat -> nat,
             candidateAt: nat -> Candidate, totalElapsed: nat)
    returns (s: Summary, recorded: seq<Candidate>)
    requires nJobs <= U64_MAX
    ensures s.generated == Submissions(nJobs, numThreads, queuedAt) <= nJobs
    ensures recorded == Hits(Classify(patterns), nJobs, numThreads, queuedAt, candidateAt)
    ensures s.matched == |recorded| <= s.generated
    ensures forall c :: c in recorded ==> MatchesAny(Classify(patterns), c.address)
    ensures s.runningTime == SplitHms(totalElapsed)
    ensures s.matchRate.Some? <==> s.matched > 0
  {
    var matcher := NewPatternMatcher(patterns);
    var counters := new Counters(matcher);
    var _ := counters.Dispatch(nJobs, numThreads, queuedAt, candidateAt);
    recorded := counters.hits;
    s := counters.Finish(totalElapsed);
  }
}
