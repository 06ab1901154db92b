/** Admission of one aligner response against the audio window it was aligned to.

    Seconds are reals. A reported time is finite or not; everything admitted is finite. */
module WindowTiming {
  import opened Outcomes
  import Sequences

  datatype ReportedTime = Finite(s: real) | NonFinite

  /** One unit of a paired model report. */
  datatype ReportedWord = ReportedWord(text: string, start: ReportedTime, end: ReportedTime)

  /** The aligner's own units and one report per unit (`PairedWindowAlignment`). */
  datatype PairedReport = PairedReport(units: seq<string>, words: seq<ReportedWord>)

  datatype SpanDefect = NotFinite | Negative | Reversed
  datatype Boundary = Start | End

  datatype TimingProblem =
    | InvalidSpan(index: nat, defect: SpanDefect)
    | OutsideWindow(index: nat)
    | BackwardsSpan(previous: nat, current: nat, boundary: Boundary)

  /** An admitted timing: a positive interval, or a position without one. */
  datatype Timing = Observed(start: real, end: real) | Unavailable(at: real)

  datatype AlignedWord = AlignedWord(text: string, timing: Timing)

  /** `WindowAlignment`: bounded evidence for one window of `duration` seconds. */
  datatype Alignment = Alignment(units: seq<string>, words: seq<AlignedWord>, duration: real)

  /** `PairedWindowAlignment` refuses unequal populations. */
  method PairReports(units: seq<string>, words: seq<ReportedWord>) returns (r: Option<PairedReport>)
    ensures r.Some? <==> |units| == |words|
    ensures r.Some? ==> r.value == PairedReport(units, words)
  {
    if |units| != |words| {
      return None;
    }
    return Some(PairedReport(units, words));
  }

  /** The span check, in the order the source tests it. */
  function SpanProblem(w: ReportedWord, duration: real, index: nat): Option<TimingProblem> {
    if w.start.NonFinite? || w.end.NonFinite? then Some(InvalidSpan(index, NotFinite))
    else if w.start.s < 0.0 || w.end.s < 0.0 then Some(InvalidSpan(index, Negative))
    else if w.end.s < w.start.s then Some(InvalidSpan(index, Reversed))
    else if w.end.s > duration then Some(OutsideWindow(index))
    else None
  }

  /** A report inside its window: finite, forward, and bounded. */
  ghost predicate Bounded(w: ReportedWord, duration: real) {
    w.start.Finite? && w.end.Finite? && 0.0 <= w.start.s <= w.end.s <= duration
  }

  /** The timing a bounded report stands for. */
  function TimingOf(w: ReportedWord): Timing
    requires w.start.Finite? && w.end.Finite?
  {
    if w.start.s == w.end.s then Unavailable(w.start.s) else Observed(w.start.s, w.end.s)
  }

  /** A report whose order counts: a nonblank text with a positive interval. */
  predicate Ordered(w: ReportedWord, blank: string -> bool) {
    w.start != w.end && !blank(w.text)
  }

  /** Any two order-bearing reports start and end in report order. */
  ghost predicate NonDecreasing(words: seq<ReportedWord>, blank: string -> bool) {
    forall i, j :: 0 <= i < j < |words| && Ordered(words[i], blank) && Ordered(words[j], blank) ==>
      NotAfter(words[i], words[j])
  }

  ghost predicate NotAfter(a: ReportedWord, b: ReportedWord) {
    a.start.Finite? && a.end.Finite? && b.start.Finite? && b.end.Finite? ==>
      a.start.s <= b.start.s && a.end.s <= b.end.s
  }

  ghost predicate AllBounded(words: seq<ReportedWord>, duration: real) {
    forall i :: 0 <= i < |words| ==> Bounded(words[i], duration)
  }

  /** `WindowAlignment.__init__`: accepted exactly when every report is bounded by the
      window and the order-bearing ones are non-decreasing, over all pairs. */
  method AdmitWindow(report: PairedReport, duration: real, blank: string -> bool)
    returns (r: Result<Alignment, TimingProblem>)
    ensures r.Ok? <==> AllBounded(report.words, duration) && NonDecreasing(report.words, blank)
    ensures r.Ok? ==> AdmittedFrom(report, duration, r.value)
    ensures r.Err? ==> exists i: nat :: FirstProblem(report.words, duration, blank, i, r.error)
  {
    var words := report.words;
    var admitted: seq<AlignedWord> := [];
    var previous: Option<nat> := None;
    for i := 0 to |words|
      invariant |admitted| == i
      invariant AllBounded(words[..i], duration)
      invariant forall j :: 0 <= j < i ==> admitted[j] == AlignedWord(words[j].text, TimingOf(words[j]))
      invariant LatestOrdered(words, i, blank, previous)
      invariant NonDecreasing(words[..i], blank)
    {
      var word := words[i];
      var problem := SpanProblem(word, duration, i);
      if problem.Some? {
        assert !Bounded(words[i], duration);
        assert FirstProblem(words, duration, blank, i, problem.value);
        return Err(problem.value);
      }
      if word.start != word.end && !blank(word.text) {
        if previous.Some? {
          var before := words[previous.value];
          assert Bounded(words[..i][previous.value], duration);
          if word.start.s < before.start.s {
            assert FirstProblem(words, duration, blank, i, BackwardsSpan(previous.value, i, Start));
            return Err(BackwardsSpan(previous.value, i, Start));
          }
          if word.end.s < before.end.s {
            assert FirstProblem(words, duration, blank, i, BackwardsSpan(previous.value, i, End));
            return Err(BackwardsSpan(previous.value, i, End));
          }
        }
        previous := Some(i);
      }
      assert words[..i + 1] == words[..i] + [word];
      admitted := admitted + [AlignedWord(word.text, TimingOf(word))];
    }
    assert words[..|words|] == words;
    return Ok(Alignment(report.units, admitted, duration));
  }

  /** Every report before `i` is fine, and `problem` names what is wrong with report `i`: its
      own span, or its order against the last order-bearing report. */
  ghost predicate FirstProblem(words: seq<ReportedWord>, duration: real, blank: string -> bool, i: nat,
                               problem: TimingProblem) {
    && i < |words| && AllBounded(words[..i], duration) && NonDecreasing(words[..i], blank)
    && match problem
       case BackwardsSpan(previous, current, boundary) =>
         && current == i && Bounded(words[i], duration) && Ordered(words[i], blank)
         && LatestOrdered(words, i, blank, Some(previous))
         && words[previous].start.Finite? && words[previous].end.Finite?
         && (boundary == Start <==> words[i].start.s < words[previous].start.s)
         && (boundary == End ==> words[i].end.s < words[previous].end.s)
       case InvalidSpan(index, defect) =>
         && index == i
         && (match defect
             case NotFinite => words[i].start.NonFinite? || words[i].end.NonFinite?
             case Negative => Times(words[i]) && (words[i].start.s < 0.0 || words[i].end.s < 0.0)
             case Reversed => Times(words[i]) && 0.0 <= words[i].end.s < words[i].start.s)
       case OutsideWindow(index) =>
         index == i && Times(words[i]) && 0.0 <= words[i].start.s <= words[i].end.s && duration < words[i].end.s
  }

  ghost predicate Times(w: ReportedWord) {
    w.start.Finite? && w.end.Finite?
  }

  /** `previous` is the last order-bearing report before `i`. */
  ghost predicate LatestOrdered(words: seq<ReportedWord>, i: nat, blank: string -> bool, previous: Option<nat>) {
    && i <= |words|
    && (previous.Some? ==> previous.value < i && Ordered(words[previous.value], blank))
    && (forall j :: 0 <= j < i && Ordered(words[j], blank) ==> previous.Some? && j <= previous.value)
  }

  // ------------------------------------------- what admitted words satisfy

  /** The alignment holds exactly the report's words and timings. */
  ghost predicate AdmittedFrom(report: PairedReport, duration: real, a: Alignment) {
    && AllBounded(report.words, duration)
    && a.units == report.units && a.duration == duration && |a.words| == |report.words|
    && (forall i :: 0 <= i < |a.words| ==>
          a.words[i] == AlignedWord(report.words[i].text, TimingOf(report.words[i])))
  }

  lemma {:induction false} AdmittedUnique(report: PairedReport, duration: real, a: Alignment, b: Alignment)
    requires AdmittedFrom(report, duration, a) && AdmittedFrom(report, duration, b)
    ensures a == b
  {
    assert a.words == b.words;
  }

  ghost predicate TimingInside(t: Timing, duration: real) {
    match t
    case Observed(start, end) => 0.0 <= start < end <= duration
    case Unavailable(at) => 0.0 <= at <= duration
  }

  /** Words of one window: all timings inside it, observed spans in order. */
  ghost predicate InWindow(words: seq<AlignedWord>, duration: real) {
    && (forall i :: 0 <= i < |words| ==> TimingInside(words[i].timing, duration))
    && (forall i, j :: 0 <= i < j < |words| && words[i].timing.Observed? && words[j].timing.Observed? ==>
          words[i].timing.start <= words[j].timing.start && words[i].timing.end <= words[j].timing.end)
  }

  function Nonblank(words: seq<AlignedWord>, blank: string -> bool): seq<AlignedWord> {
    if words == [] then []
    else
      var n := |words| - 1;
      if blank(words[n].text) then Nonblank(words[..n], blank) else Nonblank(words[..n], blank) + [words[n]]
  }

  function Spoken(blank: string -> bool): AlignedWord -> bool {
    (w: AlignedWord) => !blank(w.text)
  }

  /** The nonblank words by their positions. */
  lemma {:induction false} NonblankPicks(words: seq<AlignedWord>, blank: string -> bool) returns (ps: seq<nat>)
    ensures Sequences.Passing(words, Spoken(blank), ps) && Sequences.Picked(words, ps, Nonblank(words, blank))
  {
    if words == [] {
      ps := [];
    } else {
      var n := |words| - 1;
      ps := NonblankPicks(words[..n], blank);
      assert words == words[..n] + [words[n]];
      Sequences.PassingNext(words[..n], words[n], Spoken(blank), ps);
      Sequences.PickedNext(words[..n], words[n], ps, Nonblank(words[..n], blank));
      if !blank(words[n].text) {
        ps := ps + [n];
      }
    }
  }

  /** Admitted nonblank words keep the order of the report. */
  ghost predicate InWindowNonblank(words: seq<AlignedWord>, duration: real, blank: string -> bool) {
    && (forall i :: 0 <= i < |words| ==> TimingInside(words[i].timing, duration))
    && (forall i, j :: 0 <= i < j < |words| && words[i].timing.Observed? && words[j].timing.Observed?
                       && !blank(words[i].text) && !blank(words[j].text) ==>
          words[i].timing.start <= words[j].timing.start && words[i].timing.end <= words[j].timing.end)
  }

  lemma {:induction false} AdmittedInWindow(report: PairedReport, duration: real, blank: string -> bool, a: Alignment)
    requires AdmittedFrom(report, duration, a) && NonDecreasing(report.words, blank)
    ensures InWindowNonblank(a.words, duration, blank)
  {
    forall i | 0 <= i < |a.words| ensures TimingInside(a.words[i].timing, duration) {
      assert Bounded(report.words[i], duration);
    }
    forall i, j | 0 <= i < j < |a.words| && a.words[i].timing.Observed? && a.words[j].timing.Observed?
                  && !blank(a.words[i].text) && !blank(a.words[j].text)
      ensures a.words[i].timing.start <= a.words[j].timing.start && a.words[i].timing.end <= a.words[j].timing.end
    {
      assert Bounded(report.words[i], duration) && Bounded(report.words[j], duration);
      assert Ordered(report.words[i], blank) && Ordered(report.words[j], blank);
    }
  }

  lemma {:induction false} NonblankMembers(words: seq<AlignedWord>, blank: string -> bool)
    ensures forall w :: w in Nonblank(words, blank) <==> w in words && !blank(w.text)
  {
    if words != [] {
      var n := |words| - 1;
      NonblankMembers(words[..n], blank);
      assert words == words[..n] + [words[n]];
    }
  }

  lemma {:induction false} InWindowAppend(words: seq<AlignedWord>, w: AlignedWord, duration: real)
    requires InWindow(words, duration) && TimingInside(w.timing, duration)
    requires forall i :: 0 <= i < |words| && words[i].timing.Observed? && w.timing.Observed? ==>
               words[i].timing.start <= w.timing.start && words[i].timing.end <= w.timing.end
    ensures InWindow(words + [w], duration)
  {
  }

  /** `SpokenWindowWords`: the nonblank view of admitted words is fully in order. */
  lemma {:induction false} SpokenInWindow(words: seq<AlignedWord>, duration: real, blank: string -> bool)
    requires InWindowNonblank(words, duration, blank)
    ensures InWindow(Nonblank(words, blank), duration)
  {
    if words != [] {
      var n := |words| - 1;
      var before, last := words[..n], words[n];
      SpokenInWindow(before, duration, blank);
      NonblankMembers(before, blank);
      var kept := Nonblank(before, blank);
      if !blank(last.text) {
        forall i | 0 <= i < |kept| && kept[i].timing.Observed? && last.timing.Observed?
          ensures kept[i].timing.start <= last.timing.start && kept[i].timing.end <= last.timing.end
        {
          assert kept[i] in kept;
          var k :| 0 <= k < n && before[k] == kept[i];
          assert words[k] == kept[i];
        }
        InWindowAppend(kept, last, duration);
      }
    }
  }
}
