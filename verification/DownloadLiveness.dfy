/** Reporting a download's growth: the meter, and the interleavings of the thread that runs
    the download with the thread that reports it. */
module DownloadLiveness {
  import opened Outcomes

  const KIB := 1024
  const U32_MAX := 0xFFFF_FFFF
  const MIN_REPORTED_GROWTH := 1024 * 1024

  // -------------------------------------------------------------- meter

  /** The count reported for a tree of `observed` bytes. */
  function GrownKib(baseline: int, observed: int): int {
    var kib := (observed - baseline) / KIB;
    if kib <= U32_MAX then kib else U32_MAX
  }

  /** Whether a poll reports: only growth of at least one MiB over the last report. */
  predicate Reports(reported: int, observed: int) {
    observed - reported >= MIN_REPORTED_GROWTH
  }

  /** A later report exceeds an earlier one by 1024 KiB, or is at the wire's maximum. */
  predicate Rises(earlier: int, later: int) {
    later >= earlier + KIB || later == U32_MAX
  }

  lemma ReportsRise(baseline: int, reported: int, observed: int)
    requires Reports(reported, observed)
    ensures Rises(GrownKib(baseline, reported), GrownKib(baseline, observed))
  {
  }

  class GrowthMeter {
    const baseline: int
    var reported: int

    constructor (measured: int)
      ensures baseline == measured && reported == measured
    {
      baseline, reported := measured, measured;
    }

    /** `poll`: `observed` is what the trees hold now; shrinking never lowers the mark. */
    method Poll(observed: int) returns (grown: Option<int>)
      modifies this
      ensures grown.Some? <==> Reports(old(reported), observed)
      ensures grown.Some? <==> observed - old(reported) >= 1048576
      ensures reported == if grown.Some? then observed else old(reported)
      ensures grown.Some? ==> grown.value == GrownKib(baseline, observed)
                              && Rises(GrownKib(baseline, old(reported)), grown.value)
      ensures grown.Some? ==> var kib := (observed - baseline) / 1024;
                              grown.value == if kib <= 4294967295 then kib else 4294967295
      ensures reported >= old(reported)
    {
      if observed - reported < MIN_REPORTED_GROWTH {
        return None;
      }
      ReportsRise(baseline, reported, observed);
      reported := observed;
      var kib := (observed - baseline) / KIB;
      return Some(if kib <= U32_MAX then kib else U32_MAX);
    }
  }

  // --------------------------------------------------------- two threads

  datatype Write = Begin | Growth(kib: int) | Complete

  /** Where the downloading thread stands. Reporting a count goes through four points: it
      is about to test the announced flag, to set it, to write BEGIN, and to write the count.
      Finishing, too, tests the flag before it writes COMPLETE. */
  datatype Main =
    | Entering | FirstFlag | FirstBegin
    | Body | Joining(normal: bool)
    | LastPoll | Report(kib: int) | SetFlag(kib: int) | WriteBegin(kib: int) | WriteGrowth(kib: int)
    | Finishing | WriteComplete
    | Returned | Raised

  /** The reporter's points, with the same four for a count. */
  datatype Reporter =
    | NotStarted | Waiting | Polling
    | Reporting(count: int) | Flagging(count: int) | Announcing(count: int) | Writing(count: int)
    | Stopped

  /** `trace` is what has been written to the progress channel. */
  datatype State = State(catalog: bool, main: Main, reporter: Reporter, stop: bool, announced: bool,
                         baseline: int, reported: int, trace: seq<Write>)

  function Initial(catalog: bool, measured: int): State {
    State(catalog, Entering, NotStarted, false, false, measured, measured, [])
  }

  /** One atomic step of a thread. A poll sees `observed` bytes, whatever the trees grew or
      shrank to; the body ends normally or by raising. */
  datatype Action = MainStep(normal: bool, observed: int) | ReporterStep(observed: int)

  predicate Enabled(s: State, a: Action) {
    match a
    case MainStep(_, _) =>
      !s.main.Returned? && !s.main.Raised? && (s.main.Joining? ==> s.reporter.Stopped?)
    case ReporterStep(_) =>
      !s.reporter.NotStarted? && !s.reporter.Stopped?
  }

  function Wrote(s: State, w: Write): State { s.(trace := s.trace + [w]) }

  function MainNext(s: State, normal: bool, observed: int): State {
    match s.main
    case Entering =>
      if s.catalog && !s.announced then s.(main := FirstFlag) else s.(main := Body, reporter := Waiting)
    case FirstFlag => s.(announced := true, main := FirstBegin)
    case FirstBegin => Wrote(s, Begin).(main := Body, reporter := Waiting)
    case Body => s.(stop := true, main := Joining(normal))
    case Joining(returned) => s.(main := if returned then LastPoll else Raised)
    case LastPoll =>
      if Reports(s.reported, observed)
      then s.(reported := observed, main := Report(GrownKib(s.baseline, observed)))
      else s.(main := Finishing)
    case Report(kib) => s.(main := if s.announced then WriteGrowth(kib) else SetFlag(kib))
    case SetFlag(kib) => s.(announced := true, main := WriteBegin(kib))
    case WriteBegin(kib) => Wrote(s, Begin).(main := WriteGrowth(kib))
    case WriteGrowth(kib) => Wrote(s, Growth(kib)).(main := Finishing)
    case Finishing => s.(main := if s.announced then WriteComplete else Returned)
    case WriteComplete => Wrote(s, Complete).(main := Returned)
    case Returned => s
    case Raised => s
  }

  function ReporterNext(s: State, observed: int): State {
    match s.reporter
    case NotStarted => s
    case Waiting => s.(reporter := if s.stop then Stopped else Polling)
    case Polling =>
      if Reports(s.reported, observed)
      then s.(reported := observed, reporter := Reporting(GrownKib(s.baseline, observed)))
      else s.(reporter := Waiting)
    case Reporting(kib) => s.(reporter := if s.announced then Writing(kib) else Flagging(kib))
    case Flagging(kib) => s.(announced := true, reporter := Announcing(kib))
    case Announcing(kib) => Wrote(s, Begin).(reporter := Writing(kib))
    case Writing(kib) => Wrote(s, Growth(kib)).(reporter := Waiting)
    case Stopped => s
  }

  function Step(s: State, a: Action): State
    requires Enabled(s, a)
  {
    match a
    case MainStep(normal, observed) => MainNext(s, normal, observed)
    case ReporterStep(observed) => ReporterNext(s, observed)
  }

  // ------------------------------------------------------- the invariant

  /** The wire order: BEGIN once and first, COMPLETE only last, counts rising. */
  ghost predicate WellOrdered(trace: seq<Write>) {
    && (trace != [] ==> trace[0].Begin?)
    && (forall i :: 0 < i < |trace| ==> !trace[i].Begin?)
    && (forall i :: 0 <= i < |trace| - 1 ==> !trace[i].Complete?)
    && (forall i, j :: 0 <= i < j < |trace| && trace[i].Growth? && trace[j].Growth? ==>
          Rises(trace[i].kib, trace[j].kib))
  }

  ghost predicate Completed(trace: seq<Write>) {
    trace != [] && trace[|trace| - 1].Complete?
  }

  /** A thread holds a count that it has measured and not yet written. */
  function Pending(s: State): Option<int> {
    if s.main.Report? || s.main.SetFlag? || s.main.WriteBegin? || s.main.WriteGrowth? then Some(s.main.kib)
    else if s.reporter.Reporting? || s.reporter.Flagging? || s.reporter.Announcing? || s.reporter.Writing?
    then Some(s.reporter.count)
    else None
  }

  /** A thread has claimed the announcement and not yet written it. */
  predicate Claimed(s: State) {
    s.main.FirstBegin? || s.main.WriteBegin? || s.reporter.Announcing?
  }

  /** A thread has found the flag unset and is about to set it. */
  predicate Flags(s: State) {
    s.main.FirstFlag? || s.main.SetFlag? || s.reporter.Flagging?
  }

  /** The body has not started. */
  predicate Starting(s: State) {
    s.main.Entering? || s.main.FirstFlag? || s.main.FirstBegin?
  }

  /** The downloading thread writes reports only while the reporter does not run. */
  ghost predicate TurnsTaken(s: State) {
    && (Starting(s) ==> s.reporter.NotStarted?)
    && (s.main.Body? || s.main.Joining? ==> !s.reporter.NotStarted?)
    && (!Starting(s) && !s.main.Body? && !s.main.Joining? ==> s.reporter.Stopped?)
    && (s.stop <==> !Starting(s) && !s.main.Body?)
    && (s.reporter.Stopped? ==> s.stop)
  }

  /** Turns make the test and the setting of the flag one step to the other thread: whoever
      found it unset still finds it so. */
  ghost predicate AnnouncedOnce(s: State) {
    && (s.announced <==> s.trace != [] || Claimed(s))
    && (s.main.Entering? || Flags(s) ==> !s.announced)
    && (Claimed(s) ==> s.trace == [])
    && (s.main.WriteGrowth? || s.main.WriteComplete? || s.reporter.Writing? ==> s.trace != [])
  }

  /** Every written count is passed by `kib`. */
  ghost predicate Passed(trace: seq<Write>, kib: int) {
    forall i :: 0 <= i < |trace| && trace[i].Growth? ==> Rises(trace[i].kib, kib)
  }

  /** Every written count is `kib` or passed by it. */
  ghost predicate Reached(trace: seq<Write>, kib: int) {
    forall i :: 0 <= i < |trace| && trace[i].Growth? ==> trace[i].kib == kib || Rises(trace[i].kib, kib)
  }

  /** The written counts are those of earlier marks; the newest mark is written or pending. */
  ghost predicate CountsWritten(s: State) {
    var mark := GrownKib(s.baseline, s.reported);
    && s.reported >= s.baseline
    && (if Pending(s).Some? then Pending(s).value == mark && Passed(s.trace, mark) else Reached(s.trace, mark))
  }

  ghost predicate Invariant(s: State) {
    && WellOrdered(s.trace)
    && TurnsTaken(s)
    && AnnouncedOnce(s)
    && CountsWritten(s)
    && (Completed(s.trace) ==> s.main.Returned?)
    && (s.main.Returned? && s.announced ==> Completed(s.trace))
  }

  lemma {:induction false} PollKeeps(trace: seq<Write>, baseline: int, reported: int, observed: int)
    requires Reports(reported, observed) && Reached(trace, GrownKib(baseline, reported))
    ensures Passed(trace, GrownKib(baseline, observed))
  {
  }

  lemma {:induction false} WriteKeeps(trace: seq<Write>, w: Write)
    requires WellOrdered(trace) && !Completed(trace)
    requires if w.Begin? then trace == [] else trace != []
    requires w.Growth? ==> Passed(trace, w.kib)
    ensures WellOrdered(trace + [w])
    ensures w.Growth? ==> Reached(trace + [w], w.kib)
    ensures !w.Growth? ==> forall kib :: Passed(trace, kib) ==> Passed(trace + [w], kib)
    ensures !w.Growth? ==> forall kib :: Reached(trace, kib) ==> Reached(trace + [w], kib)
    ensures Completed(trace + [w]) <==> w.Complete?
  {
  }

  /** The main thread's steps that write. */
  predicate MainWrites(s: State) {
    s.main.FirstBegin? || s.main.WriteBegin? || s.main.WriteGrowth? || s.main.WriteComplete?
  }

  lemma {:induction false} MainWriteKeeps(s: State, normal: bool, observed: int)
    requires Invariant(s) && MainWrites(s)
    ensures Invariant(MainNext(s, normal, observed))
  {
    match s.main {
      case FirstBegin => WriteKeeps(s.trace, Begin);
      case WriteBegin(_) => WriteKeeps(s.trace, Begin);
      case WriteGrowth(kib) => WriteKeeps(s.trace, Growth(kib));
      case WriteComplete => WriteKeeps(s.trace, Complete);
    }
  }

  lemma {:induction false} MainKeepsInvariant(s: State, normal: bool, observed: int)
    requires Invariant(s) && Enabled(s, MainStep(normal, observed))
    ensures Invariant(MainNext(s, normal, observed))
  {
    if MainWrites(s) {
      MainWriteKeeps(s, normal, observed);
    } else if s.main.LastPoll? && Reports(s.reported, observed) {
      PollKeeps(s.trace, s.baseline, s.reported, observed);
    }
  }

  lemma {:induction false} ReporterKeepsInvariant(s: State, observed: int)
    requires Invariant(s) && Enabled(s, ReporterStep(observed))
    ensures Invariant(ReporterNext(s, observed))
  {
    if s.reporter.Announcing? || s.reporter.Writing? {
      WriteKeeps(s.trace, if s.reporter.Announcing? then Begin else Growth(s.reporter.count));
    } else if s.reporter.Polling? && Reports(s.reported, observed) {
      PollKeeps(s.trace, s.baseline, s.reported, observed);
    }
  }

  // ---------------------------------------------------------------- runs

  ghost predicate IsRun(catalog: bool, measured: int, actions: seq<Action>, states: seq<State>) {
    && |states| == |actions| + 1 && states[0] == Initial(catalog, measured)
    && (forall i :: 0 <= i < |actions| ==>
          Enabled(states[i], actions[i]) && states[i + 1] == Step(states[i], actions[i]))
  }

  lemma {:induction false} RunKeepsInvariant(catalog: bool, measured: int, actions: seq<Action>, states: seq<State>,
                                             i: nat)
    requires IsRun(catalog, measured, actions, states) && i <= |actions|
    ensures Invariant(states[i])
    decreases i
  {
    if i > 0 {
      RunKeepsInvariant(catalog, measured, actions, states, i - 1);
      assert Enabled(states[i - 1], actions[i - 1]) && states[i] == Step(states[i - 1], actions[i - 1]);
      match actions[i - 1]
      case MainStep(normal, observed) => MainKeepsInvariant(states[i - 1], normal, observed);
      case ReporterStep(observed) => ReporterKeepsInvariant(states[i - 1], observed);
    }
  }

  /** In every interleaving: what is written begins with the only BEGIN, counts rise by at
      least 1024 KiB or sit at the maximum, COMPLETE is written last and only when the body
      returned; a body that raised leaves no COMPLETE, and a body that returned leaves one
      exactly when the download was announced. */
  lemma {:induction false} ReportsInOrder(catalog: bool, measured: int, actions: seq<Action>, states: seq<State>,
                                          i: nat)
    requires IsRun(catalog, measured, actions, states) && i <= |actions|
    ensures WellOrdered(states[i].trace)
    ensures Completed(states[i].trace) ==> states[i].main.Returned? && |states[i].trace| > 1
    ensures states[i].main.Raised? ==> Complete !in states[i].trace
    ensures states[i].main.Returned? ==> states[i].trace == [] || Completed(states[i].trace)
    ensures states[i].main.Returned? && catalog ==> Completed(states[i].trace)
  {
    RunKeepsInvariant(catalog, measured, actions, states, i);
    CatalogAnnounced(catalog, measured, actions, states, i);
  }

  /** The catalog download is announced before its body runs. */
  lemma {:induction false} CatalogAnnounced(catalog: bool, measured: int, actions: seq<Action>, states: seq<State>,
                                            i: nat)
    requires IsRun(catalog, measured, actions, states) && i <= |actions|
    ensures states[i].catalog == catalog && CatalogClaimed(states[i])
    ensures catalog && !Starting(states[i]) ==>
              states[i].trace != [] && states[i].trace[0].Begin?
    decreases i
  {
    if i > 0 {
      CatalogAnnounced(catalog, measured, actions, states, i - 1);
      assert Enabled(states[i - 1], actions[i - 1]) && states[i] == Step(states[i - 1], actions[i - 1]);
      RunKeepsInvariant(catalog, measured, actions, states, i - 1);
      CatalogStep(states[i - 1], actions[i - 1]);
    }
    RunKeepsInvariant(catalog, measured, actions, states, i);
  }

  /** Past its entry, the catalog download has claimed the announcement, and then written. */
  predicate CatalogClaimed(s: State) {
    && (s.catalog && !s.main.Entering? && !s.main.FirstFlag? ==> s.announced)
    && (s.catalog && !Starting(s) ==> s.trace != [])
  }

  lemma {:induction false} CatalogStep(s: State, a: Action)
    requires Invariant(s) && Enabled(s, a) && CatalogClaimed(s)
    ensures CatalogClaimed(Step(s, a)) && Step(s, a).catalog == s.catalog
  {
  }


  // ------------------------------------------------ every rise is written

  /** What a measurement of `observed` bytes is worth reporting as, if it rose by a mebibyte
      over the last reported one: the growth in KiB, as far as 32 bits go. */
  ghost predicate Rose(s: State, observed: int, kib: int) {
    && observed - s.reported >= 1048576
    && (var grown := (observed - s.baseline) / 1024; kib == if grown <= 4294967295 then grown else 4294967295)
  }

  /** The reporter has measured `kib` and not yet written it. */
  predicate ReporterHolds(s: State, kib: int) {
    match s.reporter
    case Reporting(count) => count == kib
    case Flagging(count) => count == kib
    case Announcing(count) => count == kib
    case Writing(count) => count == kib
    case _ => false
  }

  /** The main thread has measured `kib` last and not yet written it. */
  predicate MainHolds(s: State, kib: int) {
    match s.main
    case Report(count) => count == kib
    case SetFlag(count) => count == kib
    case WriteBegin(count) => count == kib
    case WriteGrowth(count) => count == kib
    case _ => false
  }

  lemma {:induction false} RunStep(catalog: bool, measured: int, actions: seq<Action>, states: seq<State>, i: nat)
    requires IsRun(catalog, measured, actions, states) && i < |actions|
    ensures Invariant(states[i]) && Enabled(states[i], actions[i]) && states[i + 1] == Step(states[i], actions[i])
  {
    RunKeepsInvariant(catalog, measured, actions, states, i);
  }

  lemma {:induction false} MainKeepsTrace(s: State, normal: bool, observed: int)
    ensures s.trace <= MainNext(s, normal, observed).trace
    ensures MainNext(s, normal, observed).reporter == s.reporter || s.main.Entering? || s.main.FirstBegin?
  {
  }

  lemma {:induction false} ReporterWritesNext(s: State, observed: int, kib: int)
    requires ReporterHolds(s, kib) || Growth(kib) in s.trace
    ensures ReporterHolds(ReporterNext(s, observed), kib) || Growth(kib) in ReporterNext(s, observed).trace
  {
    var n := ReporterNext(s, observed);
    if s.reporter.Writing? {
      assert n.trace[|s.trace|] == Growth(s.reporter.count);
    }
    if k :| 0 <= k < |s.trace| && s.trace[k] == Growth(kib) {
      assert n.trace[k] == Growth(kib);
    }
  }

  /** A rise the reporter polls is written before the reporter moves on. */
  lemma {:induction false} ReporterWrites(catalog: bool, measured: int, actions: seq<Action>, states: seq<State>,
                                          i: nat, j: nat, kib: int)
    requires IsRun(catalog, measured, actions, states) && i < j <= |actions|
    requires actions[i].ReporterStep? && states[i].reporter.Polling? && Rose(states[i], actions[i].observed, kib)
    ensures ReporterHolds(states[j], kib) || Growth(kib) in states[j].trace
    decreases j
  {
    RunStep(catalog, measured, actions, states, j - 1);
    if i + 1 < j {
      ReporterWrites(catalog, measured, actions, states, i, j - 1, kib);
      ReporterWritesStep(states[j - 1], actions[j - 1], kib);
    }
  }

  lemma {:induction false} ReporterWritesStep(s: State, a: Action, kib: int)
    requires Invariant(s) && Enabled(s, a) && (ReporterHolds(s, kib) || Growth(kib) in s.trace)
    ensures ReporterHolds(Step(s, a), kib) || Growth(kib) in Step(s, a).trace
  {
    match a
    case ReporterStep(observed) => ReporterWritesNext(s, observed, kib);
    case MainStep(normal, observed) => MainKeepsTrace(s, normal, observed);
  }

  /** The trace ends with the count. */
  ghost predicate LastWrote(trace: seq<Write>, kib: int) {
    trace != [] && trace[|trace| - 1] == Growth(kib)
  }

  /** The trace ends with the count and COMPLETE. */
  ghost predicate EndsWith(trace: seq<Write>, kib: int) {
    |trace| > 1 && trace[|trace| - 2] == Growth(kib) && trace[|trace| - 1] == Complete
  }

  /** The main thread has written the count of its last measurement, or is about to. */
  ghost predicate Ending(s: State, kib: int) {
    && s.reporter.Stopped?
    && match s.main
       case Finishing => s.announced && LastWrote(s.trace, kib)
       case WriteComplete => LastWrote(s.trace, kib)
       case Returned => EndsWith(s.trace, kib)
       case _ => MainHolds(s, kib)
  }

  lemma {:induction false} EndingStep(s: State, a: Action, kib: int)
    requires Ending(s, kib) && Enabled(s, a) && (s.main.WriteBegin? || s.main.WriteGrowth? ==> s.announced)
    ensures Ending(Step(s, a), kib)
  {
    match a
    case MainStep(normal, observed) => EndingMain(s, normal, observed, kib);
  }

  lemma {:induction false} EndingNext(s: State, a: Action, kib: int)
    requires Invariant(s) && Enabled(s, a) && Ending(s, kib)
    ensures Ending(Step(s, a), kib)
  {
    assert AnnouncedOnce(s);
    EndingStep(s, a, kib);
  }

  lemma {:induction false} EndingMain(s: State, normal: bool, observed: int, kib: int)
    requires Ending(s, kib) && (s.main.WriteBegin? || s.main.WriteGrowth? ==> s.announced)
    ensures Ending(MainNext(s, normal, observed), kib)
  {
  }

  lemma {:induction false} EndingAt(catalog: bool, measured: int, actions: seq<Action>, states: seq<State>,
                                    k: nat, kib: int)
    requires IsRun(catalog, measured, actions, states) && k < |actions| && Ending(states[k], kib)
    ensures Ending(states[k + 1], kib)
  {
    RunStep(catalog, measured, actions, states, k);
    EndingNext(states[k], actions[k], kib);
  }

  lemma {:induction false} EndingRun(catalog: bool, measured: int, actions: seq<Action>, states: seq<State>,
                                     i: nat, j: nat, kib: int)
    requires IsRun(catalog, measured, actions, states) && i <= j <= |actions| && Ending(states[i], kib)
    ensures Ending(states[j], kib)
    decreases j
  {
    if i < j {
      EndingRun(catalog, measured, actions, states, i, j - 1, kib);
      EndingAt(catalog, measured, actions, states, j - 1, kib);
    }
  }

  /** A run that returned after a last measurement that rose ends with that count and COMPLETE. */
  lemma {:induction false} LastRiseIsWritten(catalog: bool, measured: int, actions: seq<Action>, states: seq<State>,
                                             i: nat, j: nat, kib: int)
    requires IsRun(catalog, measured, actions, states) && i < j <= |actions|
    requires actions[i].MainStep? && states[i].main.LastPoll? && Rose(states[i], actions[i].observed, kib)
    ensures Ending(states[j], kib)
    ensures states[j].main.Returned? ==> EndsWith(states[j].trace, kib)
  {
    RunStep(catalog, measured, actions, states, i);
    LastRise(states[i], actions[i], kib);
    EndingRun(catalog, measured, actions, states, i + 1, j, kib);
  }

  lemma {:induction false} LastRise(s: State, a: Action, kib: int)
    requires Invariant(s) && Enabled(s, a) && a.MainStep? && s.main.LastPoll? && Rose(s, a.observed, kib)
    ensures Ending(Step(s, a), kib)
  {
  }

  /** Once the body has ended, both threads run to their end: every further step brings the
      download closer to its last state, so a report cannot be lost to a running thread. */
  function StepsLeft(s: State): nat {
    match s.main
    case Joining(_) =>
      8 + (match s.reporter
           case NotStarted => 0
           case Waiting => 1
           case Polling => 6
           case Reporting(_) => 5
           case Flagging(_) => 4
           case Announcing(_) => 3
           case Writing(_) => 2
           case Stopped => 0)
    case LastPoll => 7
    case Report(_) => 6
    case SetFlag(_) => 5
    case WriteBegin(_) => 4
    case WriteGrowth(_) => 3
    case Finishing => 2
    case WriteComplete => 1
    case _ => 0
  }

  lemma {:induction false} EndingMakesProgress(s: State, a: Action)
    requires Invariant(s) && Enabled(s, a) && s.stop
    ensures StepsLeft(Step(s, a)) < StepsLeft(s)
    ensures Step(s, a).stop
  {
  }

  /** A body that has ended never leaves both threads stuck. */
  lemma {:induction false} EndingNeverStuck(s: State)
    requires Invariant(s) && s.stop && !s.main.Returned? && !s.main.Raised?
    ensures Enabled(s, MainStep(true, 0)) || Enabled(s, ReporterStep(0))
  {
  }
}
