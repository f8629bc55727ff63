/** Counting repeated failures (`record.rs`). */
module ErrorRuns {

  import opened Octets

  const REPEAT_WINDOW: nat := 60_000
  const U32_MAX: nat := 0xFFFF_FFFF

  /** Who reported what. */
  datatype Failure = Failure(component: nat, message: string)

  datatype Report = Report(failure: Failure, now: nat)

  datatype Entry = Entry(failure: Failure, occurrences: nat)

  datatype Run = Run(failure: Failure, writtenAt: nat, unwritten: nat)

  function SaturatingSuccessor(n: nat): nat {
    if n < U32_MAX then n + 1 else U32_MAX
  }

  predicate WithinWindow(now: nat, writtenAt: nat) {
    now < writtenAt + REPEAT_WINDOW
  }

  /** The run after a report. */
  function NextRun(last: Option<Run>, report: Report): (run: Run)
    ensures run.failure == report.failure
  {
    match last
    case Some(run) =>
      if run.failure == report.failure && WithinWindow(report.now, run.writtenAt)
      then run.(unwritten := SaturatingSuccessor(run.unwritten))
      else Run(report.failure, report.now, 0)
    case None => Run(report.failure, report.now, 0)
  }

  /** The entries a report writes. */
  function Written(last: Option<Run>, report: Report): seq<Entry> {
    match last
    case Some(run) =>
      if run.failure == report.failure then
        if WithinWindow(report.now, run.writtenAt) then []
        else [Entry(run.failure, SaturatingSuccessor(run.unwritten))]
      else (if run.unwritten > 0 then [Entry(run.failure, run.unwritten)] else []) + [Entry(report.failure, 1)]
    case None => [Entry(report.failure, 1)]
  }

  /** The failure this process reported last, shared by its threads. */
  class Recorder {
    var last: Option<Run>

    constructor ()
      ensures last == None
    {
      last := None;
    }

    method Observe(failure: Failure, now: nat) returns (entries: seq<Entry>)
      modifies this
      ensures last == Some(NextRun(old(last), Report(failure, now)))
      ensures entries == Written(old(last), Report(failure, now))
    {
      if last.Some? && last.value.failure == failure {
        last := Some(last.value.(unwritten := SaturatingSuccessor(last.value.unwritten)));
        if now < last.value.writtenAt + REPEAT_WINDOW {
          return [];
        }
        var entry := Entry(failure, last.value.unwritten);
        last := Some(last.value.(unwritten := 0));
        last := Some(last.value.(writtenAt := now));
        return [entry];
      }
      entries := [];
      if last.Some? && last.value.unwritten > 0 {
        entries := entries + [Entry(last.value.failure, last.value.unwritten)];
      }
      entries := entries + [Entry(failure, 1)];
      last := Some(Run(failure, now, 0));
    }

    /** A whole run of reports. */
    method ObserveAll(reports: seq<Report>) returns (entries: seq<Entry>)
      requires last == None
      modifies this
      ensures last == RunAfter(reports)
      ensures entries == EntriesOf(reports)
    {
      entries := [];
      for k := 0 to |reports|
        invariant last == RunAfter(reports[..k])
        invariant entries == EntriesOf(reports[..k])
      {
        assert reports[..k + 1][..k] == reports[..k];
        var more := Observe(reports[k].failure, reports[k].now);
        entries := entries + more;
      }
      assert reports[..|reports|] == reports;
    }
  }

  // ----- Whole runs -----

  function RunAfter(reports: seq<Report>): Option<Run> {
    if reports == [] then None
    else Some(NextRun(RunAfter(reports[..|reports| - 1]), reports[|reports| - 1]))
  }

  function EntriesOf(reports: seq<Report>): seq<Entry> {
    if reports == [] then []
    else
      var init := reports[..|reports| - 1];
      EntriesOf(init) + Written(RunAfter(init), reports[|reports| - 1])
  }

  function Count(f: Failure, reports: seq<Report>): nat {
    if reports == [] then 0
    else Count(f, reports[..|reports| - 1]) + if reports[|reports| - 1].failure == f then 1 else 0
  }

  function Occurrences(f: Failure, entries: seq<Entry>): nat {
    if entries == [] then 0
    else Occurrences(f, entries[..|entries| - 1])
         + if entries[|entries| - 1].failure == f then entries[|entries| - 1].occurrences else 0
  }

  function Unwritten(f: Failure, last: Option<Run>): nat {
    match last
    case None => 0
    case Some(run) => if run.failure == f then run.unwritten else 0
  }

  /** Reports that found their run's counter full. */
  function Saturated(f: Failure, reports: seq<Report>): nat {
    if reports == [] then 0
    else
      var init, report := reports[..|reports| - 1], reports[|reports| - 1];
      Saturated(f, init)
      + if report.failure == f && Unwritten(f, RunAfter(init)) >= U32_MAX then 1 else 0
  }

  lemma {:induction false} OccurrencesOfConcatenation(f: Failure, a: seq<Entry>, b: seq<Entry>)
    ensures Occurrences(f, a + b) == Occurrences(f, a) + Occurrences(f, b)
  {
    if b == [] {
      assert a + b == a;
    } else {
      assert (a + b)[..|a + b| - 1] == a + b[..|b| - 1];
      OccurrencesOfConcatenation(f, a, b[..|b| - 1]);
    }
  }

  lemma OccurrencesOfOne(f: Failure, e: Entry)
    ensures Occurrences(f, [e]) == if e.failure == f then e.occurrences else 0
    ensures Occurrences(f, []) == 0
  {
    assert [e][..0] == [];
  }

  /** One report moves its occurrence into an entry or into the run, unless the run's counter is full. */
  lemma ReportIsCounted(f: Failure, last: Option<Run>, report: Report)
    ensures Unwritten(f, last) + (if report.failure == f then 1 else 0)
      == Occurrences(f, Written(last, report)) + Unwritten(f, Some(NextRun(last, report)))
         + (if report.failure == f && Unwritten(f, last) >= U32_MAX then Unwritten(f, last) + 1 - U32_MAX else 0)
  {
    OccurrencesOfOne(f, Entry(report.failure, 1));
    match last {
      case None =>
      case Some(run) =>
        OccurrencesOfOne(f, Entry(run.failure, run.unwritten));
        OccurrencesOfOne(f, Entry(run.failure, SaturatingSuccessor(run.unwritten)));
        OccurrencesOfConcatenation(f, [Entry(run.failure, run.unwritten)], [Entry(report.failure, 1)]);
        assert [] + [Entry(report.failure, 1)] == [Entry(report.failure, 1)];
    }
  }

  lemma {:induction false} CounterIsBounded(reports: seq<Report>)
    ensures RunAfter(reports).Some? ==> RunAfter(reports).value.unwritten <= U32_MAX
  {
    if reports != [] {
      CounterIsBounded(reports[..|reports| - 1]);
    }
  }

  /**
   Over any reports at any times, for every failure: what entries wrote, what the run still holds, and
   the reports that found the counter full add up to the reports.
   */
  lemma {:induction false} EveryReportIsCounted(f: Failure, reports: seq<Report>)
    ensures Count(f, reports)
      == Occurrences(f, EntriesOf(reports)) + Unwritten(f, RunAfter(reports)) + Saturated(f, reports)
  {
    if reports != [] {
      var init, report := reports[..|reports| - 1], reports[|reports| - 1];
      EveryReportIsCounted(f, init);
      CounterIsBounded(init);
      ReportIsCounted(f, RunAfter(init), report);
      OccurrencesOfConcatenation(f, EntriesOf(init), Written(RunAfter(init), report));
    }
  }

  lemma {:induction false} SaturationNeedsReports(f: Failure, reports: seq<Report>)
    ensures Unwritten(f, RunAfter(reports)) <= Count(f, reports) <= |reports|
    ensures Saturated(f, reports) > 0 ==> |reports| > U32_MAX
  {
    if reports != [] {
      SaturationNeedsReports(f, reports[..|reports| - 1]);
    }
  }

  /** Below the 32-bit saturation no occurrence is lost. */
  lemma CountsAreKept(f: Failure, reports: seq<Report>)
    requires |reports| <= U32_MAX
    ensures Count(f, reports) == Occurrences(f, EntriesOf(reports)) + Unwritten(f, RunAfter(reports))
  {
    EveryReportIsCounted(f, reports);
    SaturationNeedsReports(f, reports);
  }

  // ----- The repeat window -----

  predicate NonDecreasing(reports: seq<Report>) {
    forall i, j :: 0 <= i <= j < |reports| ==> reports[i].now <= reports[j].now
  }

  /** An entry and the place of the report that wrote it. */
  datatype Stamped = Stamped(entry: Entry, report: nat)

  function StampedBy(entries: seq<Entry>, report: nat): (stamped: seq<Stamped>)
    ensures |stamped| == |entries|
    ensures forall k :: 0 <= k < |entries| ==> stamped[k] == Stamped(entries[k], report)
  {
    seq(|entries|, k requires 0 <= k < |entries| => Stamped(entries[k], report))
  }

  /** The entries with the reports that wrote them. */
  function StampedOf(reports: seq<Report>): seq<Stamped> {
    if reports == [] then []
    else
      var init := reports[..|reports| - 1];
      StampedOf(init) + StampedBy(Written(RunAfter(init), reports[|reports| - 1]), |init|)
  }

  lemma {:induction false} StampedAreEntries(reports: seq<Report>)
    ensures |StampedOf(reports)| == |EntriesOf(reports)|
    ensures forall k :: 0 <= k < |EntriesOf(reports)| ==> StampedOf(reports)[k].entry == EntriesOf(reports)[k]
  {
    if reports != [] {
      StampedAreEntries(reports[..|reports| - 1]);
    }
  }

  predicate ReportsExist(reports: seq<Report>, stamped: seq<Stamped>) {
    forall k :: 0 <= k < |stamped| ==> stamped[k].report < |reports|
  }

  /** Written by another failure's report, for the repeats before it. */
  predicate IsFlush(reports: seq<Report>, s: Stamped)
    requires s.report < |reports|
  {
    reports[s.report].failure != s.entry.failure
  }

  function Capped(n: int): int {
    if n < U32_MAX then n else U32_MAX
  }

  /** Between the reports at `i` and `m` all are of one failure, and inside the window of the first. */
  predicate OnlyRepeats(reports: seq<Report>, i: nat, m: nat)
    requires i < m <= |reports|
  {
    forall k :: i < k < m
      ==> reports[k].failure == reports[i].failure && WithinWindow(reports[k].now, reports[i].now)
  }

  /** What is known of an entry and the one behind it. */
  predicate Follows(reports: seq<Report>, a: Stamped, b: Stamped)
    requires a.report < |reports| && b.report < |reports|
  {
    var i, m := a.report, b.report;
    if IsFlush(reports, a) then m == i && !IsFlush(reports, b)
    else
      && i < m
      && OnlyRepeats(reports, i, m)
      && (IsFlush(reports, b) ==> b.entry == Entry(a.entry.failure, Capped(m - i - 1)) && m > i + 1)
      && (reports[m].failure == a.entry.failure
          ==> !WithinWindow(reports[m].now, reports[i].now) && b.entry.occurrences == Capped(m - i))
      && (reports[m].failure != a.entry.failure && m > i + 1 ==> IsFlush(reports, b))
  }

  predicate AllFollow(reports: seq<Report>, stamped: seq<Stamped>)
    requires ReportsExist(reports, stamped)
  {
    forall k :: 0 <= k < |stamped| - 1 ==> Follows(reports, stamped[k], stamped[k + 1])
  }

  /** The run is what the last entry and the reports since make it. */
  predicate RunMatches(reports: seq<Report>, last: Stamped, run: Run)
    requires last.report < |reports|
  {
    && !IsFlush(reports, last)
    && run.failure == last.entry.failure
    && run.writtenAt == reports[last.report].now
    && run.unwritten == Capped(|reports| - 1 - last.report)
    && OnlyRepeats(reports, last.report, |reports|)
  }

  lemma FollowsLonger(reports: seq<Report>, report: Report, a: Stamped, b: Stamped)
    requires a.report < |reports| && b.report < |reports| && Follows(reports, a, b)
    ensures Follows(reports + [report], a, b)
  {
  }

  lemma {:induction false} HistoryHolds(reports: seq<Report>)
    requires reports != []
    ensures var stamped := StampedOf(reports);
      && stamped != []
      && ReportsExist(reports, stamped)
      && AllFollow(reports, stamped)
      && RunMatches(reports, stamped[|stamped| - 1], RunAfter(reports).value)
  {
    var init, report := reports[..|reports| - 1], reports[|reports| - 1];
    assert reports == init + [report];
    if init == [] {
      assert StampedOf(reports) == [] + StampedBy([Entry(report.failure, 1)], 0);
    } else {
      HistoryHolds(init);
      NextHolds(init, report, StampedOf(init), RunAfter(init).value);
    }
  }

  /** One more report keeps all of it. */
  lemma NextHolds(init: seq<Report>, report: Report, before: seq<Stamped>, run: Run)
    requires init != [] && before != [] && ReportsExist(init, before) && AllFollow(init, before)
    requires RunMatches(init, before[|before| - 1], run)
    ensures var reports := init + [report];
      var stamped := before + StampedBy(Written(Some(run), report), |init|);
      && ReportsExist(reports, stamped)
      && AllFollow(reports, stamped)
      && RunMatches(reports, stamped[|stamped| - 1], NextRun(Some(run), report))
  {
    var reports := init + [report];
    var more := StampedBy(Written(Some(run), report), |init|);
    var stamped := before + more;
    var last := before[|before| - 1];
    assert OnlyRepeats(reports, last.report, |init|);
    forall k | 0 <= k < |stamped| - 1 ensures Follows(reports, stamped[k], stamped[k + 1]) {
      if k + 1 < |before| {
        FollowsLonger(init, report, before[k], before[k + 1]);
      }
    }
  }

  /**
   Entries for one failure with no other failure's between: the last is at least the repeat window behind
   the first, unless it was flushed by another failure's report.
   */
  lemma EntriesAreApart(reports: seq<Report>, i: nat, j: nat)
    requires NonDecreasing(reports) && reports != [] && i < j < |StampedOf(reports)|
    requires forall m :: i <= m <= j ==> StampedOf(reports)[m].entry.failure == StampedOf(reports)[i].entry.failure
    ensures var stamped := StampedOf(reports);
      && ReportsExist(reports, stamped)
      && (!IsFlush(reports, stamped[j])
          ==> reports[stamped[j].report].now >= reports[stamped[i].report].now + REPEAT_WINDOW)
  {
    var stamped := StampedOf(reports);
    HistoryHolds(reports);
    ReportsInOrder(reports, i, j - 1);
    assert Follows(reports, stamped[j - 1], stamped[j]);
  }

  lemma {:induction false} ReportsInOrder(reports: seq<Report>, i: nat, j: nat)
    requires reports != [] && i <= j < |StampedOf(reports)|
    ensures ReportsExist(reports, StampedOf(reports))
    ensures StampedOf(reports)[i].report <= StampedOf(reports)[j].report
    decreases j
  {
    HistoryHolds(reports);
    if i < j {
      ReportsInOrder(reports, i, j - 1);
      assert Follows(reports, StampedOf(reports)[j - 1], StampedOf(reports)[j]);
    }
  }

  /**
   When the next entry is for the same failure and closer than the window: exactly when another failure's
   report wrote it, inside the window and not directly behind. It then counts the repeats between.
   */
  lemma CloseEntriesExactly(reports: seq<Report>, j: nat)
    requires reports != [] && j + 1 < |StampedOf(reports)|
    ensures ReportsExist(reports, StampedOf(reports))
    ensures var a, b := StampedOf(reports)[j], StampedOf(reports)[j + 1];
      b.entry.failure == a.entry.failure && WithinWindow(reports[b.report].now, reports[a.report].now)
      <==> && reports[b.report].failure != a.entry.failure
           && b.report > a.report + 1
           && WithinWindow(reports[b.report].now, reports[a.report].now)
    ensures var a, b := StampedOf(reports)[j], StampedOf(reports)[j + 1];
      b.entry.failure == a.entry.failure && IsFlush(reports, b)
      ==> && a.report < b.report
          && b.entry.occurrences == Capped(b.report - a.report - 1)
          && OnlyRepeats(reports, a.report, b.report)
  {
    HistoryHolds(reports);
    assert Follows(reports, StampedOf(reports)[j], StampedOf(reports)[j + 1]);
  }

  /** Two entries for one failure, next to each other and two milliseconds apart. */
  lemma FlushedEntryIsClose(f: Failure, g: Failure)
    requires f != g
    ensures StampedOf([Report(f, 0), Report(f, 1), Report(g, 2)])
      == [Stamped(Entry(f, 1), 0), Stamped(Entry(f, 1), 2), Stamped(Entry(g, 1), 2)]
  {
    var reports := [Report(f, 0), Report(f, 1), Report(g, 2)];
    assert reports[..2] == [Report(f, 0), Report(f, 1)] && [Report(f, 0), Report(f, 1)][..1] == [Report(f, 0)];
    assert [Report(f, 0)][..0] == [];
    assert RunAfter([Report(f, 0)]) == Some(Run(f, 0, 0));
    assert RunAfter(reports[..2]) == Some(Run(f, 0, 1));
    assert StampedOf([Report(f, 0)]) == [Stamped(Entry(f, 1), 0)];
    assert StampedOf(reports[..2]) == [Stamped(Entry(f, 1), 0)];
  }
}
