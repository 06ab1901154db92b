/** Folding the aligner's units back onto the words that were asked for. */
module WordFold {
  import opened Outcomes
  import opened Numbers
  import opened Sequences
  import opened WindowTiming

  /** The requested words, the aligner's units, and how many units each word contributed. */
  datatype Segmentation = Segmentation(words: seq<string>, transcript: string, units: seq<string>, unitCounts: seq<nat>)

  function Flatten(lists: seq<seq<string>>): seq<string> {
    if lists == [] then [] else Flatten(lists[..|lists| - 1]) + lists[|lists| - 1]
  }

  /** The units contributed before word `i`. */
  function Offset(counts: seq<nat>, i: nat): nat
    requires i <= |counts|
  {
    if i == 0 then 0 else Offset(counts, i - 1) + counts[i - 1]
  }

  /** The units are the words' own units, word by word: word `i` owns the stretch from
      `Offset(i)` to `Offset(i + 1)`, and that stretch is its own segmentation. */
  ghost predicate Proved(s: Segmentation, split: string -> seq<string>) {
    && CountsUnits(s)
    && s.units == split(s.transcript)
    && (forall i :: 0 <= i < |s.words| ==> OwnsUnits(s, i, split(s.words[i])))
  }

  /** Word `i` owns the stretch `own` of the units. */
  ghost predicate OwnsUnits(s: Segmentation, i: int, own: seq<string>)
    requires 0 <= i < |s.words| == |s.unitCounts|
  {
    && s.unitCounts[i] == |own|
    && Offset(s.unitCounts, i) <= Offset(s.unitCounts, i + 1) <= |s.units|
    && s.units[Offset(s.unitCounts, i)..Offset(s.unitCounts, i + 1)] == own
  }

  /** Every unit is counted for exactly one word. */
  ghost predicate CountsUnits(s: Segmentation) {
    |s.unitCounts| == |s.words| && Offset(s.unitCounts, |s.words|) == |s.units|
  }

  lemma {:induction false} OffsetMonotone(counts: seq<nat>, i: nat, j: nat)
    requires i <= j <= |counts|
    ensures Offset(counts, i) <= Offset(counts, j)
    decreases j
  {
    if i < j {
      OffsetMonotone(counts, i, j - 1);
    }
  }

  /** `WordSegmentation.of_words`; `split` is the aligner's tokenizer and `strip` the
      runtime's whitespace trimming. */
  method OfWords(words: seq<string>, split: string -> seq<string>, strip: string -> string)
    returns (r: Option<Segmentation>)
    ensures var perWord := seq(|words|, i requires 0 <= i < |words| => split(words[i]));
            r.Some? <==> split(strip(JoinWith(' ', words))) == Flatten(perWord)
    ensures r.Some? ==> Proved(r.value, split)
                        && r.value.words == words && r.value.transcript == strip(JoinWith(' ', words))
  {
    var transcript := strip(JoinWith(' ', words));
    var perWord := seq(|words|, i requires 0 <= i < |words| => split(words[i]));
    var whole := split(transcript);
    if whole != Flatten(perWord) {
      return None;
    }
    var counts: seq<nat> := seq(|words|, i requires 0 <= i < |words| => |perWord[i]|);
    var s := Segmentation(words, transcript, whole, counts);
    ghost var cuts := FlattenLaid(perWord);
    CutsAreOffsets(whole, perWord, counts, cuts, |words|);
    forall i | 0 <= i < |words| ensures OwnsUnits(s, i, split(words[i])) {
      CutsAreOffsets(whole, perWord, counts, cuts, i);
      CutsAreOffsets(whole, perWord, counts, cuts, i + 1);
      assert PartAt(whole, cuts[i], cuts[i + 1], perWord[i]);
    }
    return Some(s);
  }

  /** Joined lists lie one after the other. */
  lemma {:induction false} FlattenLaid(lists: seq<seq<string>>) returns (cuts: seq<nat>)
    ensures LaidOut(Flatten(lists), lists, cuts)
  {
    if lists == [] {
      cuts := [0];
    } else {
      var n := |lists| - 1;
      var before := FlattenLaid(lists[..n]);
      LayNext(Flatten(lists[..n]), lists[..n], before, lists[n]);
      cuts := before + [|Flatten(lists)|];
      assert lists == lists[..n] + [lists[n]];
    }
  }

  /** Lengths fix the cuts. */
  lemma {:induction false} CutsAreOffsets<T>(whole: seq<T>, parts: seq<seq<T>>, counts: seq<nat>, cuts: seq<nat>,
                                             i: nat)
    requires LaidOut(whole, parts, cuts) && |counts| == |parts| && i <= |parts|
    requires forall k :: 0 <= k < |parts| ==> |parts[k]| == counts[k]
    ensures cuts[i] == Offset(counts, i)
  {
    if i > 0 {
      CutsAreOffsets(whole, parts, counts, cuts, i - 1);
      assert PartAt(whole, cuts[i - 1], cuts[i], parts[i - 1]);
    }
  }

  // ------------------------------------------------------------ the fold

  datatype UntimedReason = UnitUnavailable | BelowResolution | NoAlignableCharacters

  datatype FoldedWord =
    | Timed(word: string, startMs: int, endMs: int)
    | Untimed(word: string, reason: UntimedReason)

  datatype FoldFailure = SegmentationDrift | NotForward(word: nat)

  function Milliseconds(seconds: real): int {
    RoundHalfEven(seconds * 1000.0)
  }

  predicate AllObserved(units: seq<AlignedWord>) {
    forall i :: 0 <= i < |units| ==> units[i].timing.Observed?
  }

  /** Rounded start of the first unit and rounded end of the last. */
  function Extent(units: seq<AlignedWord>): (int, int)
    requires units != [] && AllObserved(units)
  {
    (Milliseconds(units[0].timing.start), Milliseconds(units[|units| - 1].timing.end))
  }

  /** A word whose rounded interval runs backwards cannot be a timed word. */
  predicate Backwards(units: seq<AlignedWord>) {
    units != [] && AllObserved(units) && Extent(units).1 < Extent(units).0
  }

  /** What one word becomes. */
  function Outcome(word: string, units: seq<AlignedWord>): FoldedWord
    requires !Backwards(units)
  {
    if units == [] then Untimed(word, NoAlignableCharacters)
    else if !AllObserved(units) then Untimed(word, UnitUnavailable)
    else if Extent(units).0 == Extent(units).1 then Untimed(word, BelowResolution)
    else Timed(word, Extent(units).0, Extent(units).1)
  }

  /** The units of word `i`. */
  function UnitsOf(s: Segmentation, words: seq<AlignedWord>, i: nat): seq<AlignedWord>
    requires CountsUnits(s) && |words| == |s.units| && i < |s.words|
  {
    OffsetMonotone(s.unitCounts, i, i + 1);
    OffsetMonotone(s.unitCounts, i + 1, |s.words|);
    words[Offset(s.unitCounts, i)..Offset(s.unitCounts, i + 1)]
  }

  /** The constituent loop stops at the first unit without an interval. */
  method ObservedPrefix(units: seq<AlignedWord>) returns (observed: seq<AlignedWord>)
    ensures |observed| == |units| <==> AllObserved(units)
    ensures |observed| == |units| ==> observed == units
  {
    observed := [];
    for i := 0 to |units|
      invariant observed == units[..i] && AllObserved(units[..i])
    {
      if units[i].timing.Unavailable? {
        return;
      }
      assert units[..i + 1] == units[..i] + [units[i]];
      observed := observed + [units[i]];
    }
    assert units[..|units|] == units;
  }

  /** `WordSegmentation.fold`. It fails exactly on a segmentation drift or on the first
      word whose units, all observed, round to a backwards interval. */
  method Fold(s: Segmentation, alignment: Alignment) returns (r: Result<seq<FoldedWord>, FoldFailure>)
    requires CountsUnits(s) && |alignment.words| == |alignment.units|
    ensures r == Err(SegmentationDrift) <==> alignment.units != s.units
    ensures alignment.units == s.units ==>
              (r.Ok? <==> forall i :: 0 <= i < |s.words| ==> !Backwards(UnitsOf(s, alignment.words, i)))
    ensures r.Ok? ==> |r.value| == |s.words| &&
                      forall i :: 0 <= i < |s.words| ==>
                        !Backwards(UnitsOf(s, alignment.words, i))
                        && r.value[i] == Outcome(s.words[i], UnitsOf(s, alignment.words, i))
    ensures r.Err? && r.error.NotForward? ==>
              && r.error.word < |s.words| && Backwards(UnitsOf(s, alignment.words, r.error.word))
              && forall i :: 0 <= i < r.error.word ==> !Backwards(UnitsOf(s, alignment.words, i))
  {
    if alignment.units != s.units {
      return Err(SegmentationDrift);
    }
    var folded: seq<FoldedWord> := [];
    var cursor := 0;
    for i := 0 to |s.words|
      invariant |folded| == i && cursor == Offset(s.unitCounts, i)
      invariant forall j :: 0 <= j < i ==>
                  !Backwards(UnitsOf(s, alignment.words, j))
                  && folded[j] == Outcome(s.words[j], UnitsOf(s, alignment.words, j))
    {
      var word, count := s.words[i], s.unitCounts[i];
      ghost var units := UnitsOf(s, alignment.words, i);
      OffsetMonotone(s.unitCounts, i + 1, |s.words|);
      if count == 0 {
        assert Offset(s.unitCounts, i + 1) == cursor;
        assert |units| == 0;
        folded := folded + [Untimed(word, NoAlignableCharacters)];
      } else {
        var constituents := alignment.words[cursor..cursor + count];
        assert constituents == units;
        cursor := cursor + count;
        var observed := ObservedPrefix(constituents);
        if |observed| != |constituents| {
          folded := folded + [Untimed(word, UnitUnavailable)];
        } else {
          var startMs := Milliseconds(observed[0].timing.start);
          var endMs := Milliseconds(observed[|observed| - 1].timing.end);
          if startMs == endMs {
            folded := folded + [Untimed(word, BelowResolution)];
          } else if endMs < startMs {
            assert Backwards(units);
            return Err(NotForward(i));
          } else {
            folded := folded + [Timed(word, startMs, endMs)];
          }
        }
      }
    }
    return Ok(folded);
  }

  // --------------------------------------------------- the fold's guarantees

  lemma MillisecondsMonotone(x: real, y: real)
    requires x <= y
    ensures Milliseconds(x) <= Milliseconds(y)
  {
    RoundMonotone(x * 1000.0, y * 1000.0);
  }

  /** `ms` is the number of milliseconds nearest to the seconds, halves to even. */
  ghost predicate NearestMs(seconds: real, ms: int) {
    NearestEven(1000.0 * seconds, ms)
  }

  /** Timed words have positive intervals inside the rounded window, in order. */
  ghost predicate TimedInOrder(folded: seq<FoldedWord>, duration: real) {
    && (forall i, end :: 0 <= i < |folded| && folded[i].Timed? && NearestMs(duration, end) ==>
          0 <= folded[i].startMs < folded[i].endMs <= end)
    && (forall i, j :: 0 <= i < j < |folded| && folded[i].Timed? && folded[j].Timed? ==>
          folded[i].startMs <= folded[j].startMs && folded[i].endMs <= folded[j].endMs)
  }

  /** For units in order the fold never raises, and its timed words are positive, inside
      the rounded window, and in order. */
  lemma {:induction false} FoldNeverRaises(s: Segmentation, words: seq<AlignedWord>, duration: real)
    requires CountsUnits(s) && |words| == |s.units| && InWindow(words, duration)
    ensures forall i :: 0 <= i < |s.words| ==> !Backwards(UnitsOf(s, words, i))
  {
    forall i | 0 <= i < |s.words| ensures !Backwards(UnitsOf(s, words, i)) {
      OffsetMonotone(s.unitCounts, i, i + 1);
      OffsetMonotone(s.unitCounts, i + 1, |s.words|);
      var units := UnitsOf(s, words, i);
      if units != [] && AllObserved(units) {
        var first, last := units[0].timing, units[|units| - 1].timing;
        assert first.start <= last.end;
        MillisecondsMonotone(first.start, last.end);
      }
    }
  }

  ghost predicate FoldOf(s: Segmentation, words: seq<AlignedWord>, folded: seq<FoldedWord>) {
    && CountsUnits(s) && |words| == |s.units| && |folded| == |s.words|
    && (forall i :: 0 <= i < |s.words| ==>
          !Backwards(UnitsOf(s, words, i)) && folded[i] == Outcome(s.words[i], UnitsOf(s, words, i)))
  }

  /** A timed word spans its first unit's start to its last unit's end. */
  lemma {:induction false} TimedUnits(s: Segmentation, words: seq<AlignedWord>, folded: seq<FoldedWord>, i: nat)
    returns (from: nat, to: nat)
    requires FoldOf(s, words, folded) && i < |folded| && folded[i].Timed?
    ensures from == Offset(s.unitCounts, i) < to == Offset(s.unitCounts, i + 1) <= |words|
    ensures AllObserved(words[from..to]) && words[from].timing.Observed? && words[to - 1].timing.Observed?
    ensures folded[i].startMs == Milliseconds(words[from].timing.start)
    ensures folded[i].endMs == Milliseconds(words[to - 1].timing.end)
    ensures folded[i].startMs < folded[i].endMs
  {
    from, to := Offset(s.unitCounts, i), Offset(s.unitCounts, i + 1);
    OffsetMonotone(s.unitCounts, i, i + 1);
    OffsetMonotone(s.unitCounts, i + 1, |s.words|);
    var units := UnitsOf(s, words, i);
    assert units[0] == words[from] && units[|units| - 1] == words[to - 1];
  }

  lemma {:induction false} FoldInOrder(s: Segmentation, words: seq<AlignedWord>, duration: real,
                                       folded: seq<FoldedWord>)
    requires FoldOf(s, words, folded) && InWindow(words, duration)
    ensures TimedInOrder(folded, duration)
  {
    forall i, end | 0 <= i < |folded| && folded[i].Timed? && NearestMs(duration, end)
      ensures 0 <= folded[i].startMs < folded[i].endMs <= end
    {
      var from, to := TimedUnits(s, words, folded, i);
      RoundIsNearestEven(1000.0 * duration, end);
      RoundInteger(0);
      MillisecondsMonotone(0.0, words[from].timing.start);
      MillisecondsMonotone(words[to - 1].timing.end, duration);
    }
    forall i, j | 0 <= i < j < |folded| && folded[i].Timed? && folded[j].Timed?
      ensures folded[i].startMs <= folded[j].startMs && folded[i].endMs <= folded[j].endMs
    {
      TimedPair(s, words, duration, folded, i, j);
    }
  }

  lemma {:induction false} TimedPair(s: Segmentation, words: seq<AlignedWord>, duration: real,
                                     folded: seq<FoldedWord>, i: nat, j: nat)
    requires FoldOf(s, words, folded) && InWindow(words, duration)
    requires i < j < |folded| && folded[i].Timed? && folded[j].Timed?
    ensures folded[i].startMs <= folded[j].startMs && folded[i].endMs <= folded[j].endMs
  {
    var a, b := TimedUnits(s, words, folded, i);
    var c, d := TimedUnits(s, words, folded, j);
    OffsetMonotone(s.unitCounts, i + 1, j);
    MillisecondsMonotone(words[a].timing.start, words[c].timing.start);
    MillisecondsMonotone(words[b - 1].timing.end, words[d - 1].timing.end);
  }

  ghost predicate NonblankTexts(report: PairedReport, blank: string -> bool) {
    forall i :: 0 <= i < |report.words| ==> !blank(report.words[i].text)
  }

  /** Admission, then the fold. When every unit text is nonblank, the fold adds no failure
      to admission and drift, and every timed word is in order. */
  method AlignWords(s: Segmentation, report: PairedReport, duration: real, blank: string -> bool)
    returns (r: Option<seq<FoldedWord>>)
    requires CountsUnits(s) && |report.words| == |report.units|
    ensures r.Some? <==> AllBounded(report.words, duration)
                         && NonDecreasing(report.words, blank) && report.units == s.units
                         && forall own :: OwnReports(s, report, own) ==> NoneRoundsBackwards(own)
    ensures r.Some? ==> exists own :: OwnReports(s, report, own) && FoldedFrom(s, own, r.value)
    ensures NonblankTexts(report, blank) ==>
              (r.Some? <==> (&& AllBounded(report.words, duration)
                             && NonDecreasing(report.words, blank) && report.units == s.units))
    ensures NonblankTexts(report, blank) && r.Some? ==> TimedInOrder(r.value, duration)
  {
    var admitted := AdmitWindow(report, duration, blank);
    if admitted.Err? {
      return None;
    }
    var a := admitted.value;
    AdmittedInWindow(report, duration, blank, a);
    var folded := Fold(s, a);
    if report.units == s.units {
      FoldFromReports(s, report, duration, a);
    }
    if NonblankTexts(report, blank) && report.units == s.units {
      assert InWindow(a.words, duration);
      FoldNeverRaises(s, a.words, duration);
      FoldInOrder(s, a.words, duration, folded.value);
    }
    if folded.Err? {
      return None;
    }
    FoldedIsFrom(s, report, duration, a, folded.value);
    return Some(folded.value);
  }

  // ------------------------------------------- from reports to milliseconds

  /** `own[i]` are the reports of word `i`: one after the other, as many as it has units. */
  ghost predicate OwnReports(s: Segmentation, report: PairedReport, own: seq<seq<ReportedWord>>) {
    && |own| == |s.words| == |s.unitCounts|
    && (forall i :: 0 <= i < |own| ==> |own[i]| == s.unitCounts[i])
    && (exists cuts :: LaidOut(report.words, own, cuts))
  }

  /** Every one of a word's reports has a positive interval. */
  ghost predicate Intervals(own: seq<ReportedWord>) {
    forall k :: 0 <= k < |own| ==> own[k].start != own[k].end
  }

  /** The first report's start and the last one's end, in milliseconds, round to these. */
  ghost predicate Rounds(own: seq<ReportedWord>, startMs: int, endMs: int) {
    && own != [] && own[0].start.Finite? && own[|own| - 1].end.Finite?
    && NearestMs(own[0].start.s, startMs) && NearestMs(own[|own| - 1].end.s, endMs)
  }

  ghost predicate NoneRoundsBackwards(own: seq<seq<ReportedWord>>) {
    forall i, a, b :: 0 <= i < |own| && Intervals(own[i]) && Rounds(own[i], a, b) ==> a <= b
  }

  /** What a word's own reports make of it. */
  ghost predicate WordFrom(word: string, own: seq<ReportedWord>, f: FoldedWord) {
    && f.word == word
    && (f == Untimed(word, NoAlignableCharacters) <==> own == [])
    && (f == Untimed(word, UnitUnavailable) <==> !Intervals(own))
    && (f == Untimed(word, BelowResolution) <==> Intervals(own) && exists ms :: Rounds(own, ms, ms))
    && (f.Timed? ==> Intervals(own) && f.startMs < f.endMs && Rounds(own, f.startMs, f.endMs))
  }

  ghost predicate FoldedFrom(s: Segmentation, own: seq<seq<ReportedWord>>, folded: seq<FoldedWord>) {
    && |own| == |folded| == |s.words|
    && (forall i :: 0 <= i < |folded| ==> WordFrom(s.words[i], own[i], folded[i]))
  }

  /** A word's reports and its admitted units, one for one. */
  ghost predicate UnitsFrom(own: seq<ReportedWord>, units: seq<AlignedWord>) {
    && |units| == |own|
    && (forall k :: 0 <= k < |own| ==>
          own[k].start.Finite? && own[k].end.Finite? && units[k].timing == TimingOf(own[k]))
  }

  lemma {:induction false} ExtentRounds(own: seq<ReportedWord>, units: seq<AlignedWord>, a: int, b: int)
    requires UnitsFrom(own, units) && own != [] && AllObserved(units)
    ensures Rounds(own, a, b) <==> Extent(units) == (a, b)
  {
    RoundIsNearestEven(1000.0 * own[0].start.s, a);
    RoundIsNearestEven(1000.0 * own[|own| - 1].end.s, b);
  }

  lemma {:induction false} OutcomeFrom(word: string, own: seq<ReportedWord>, units: seq<AlignedWord>)
    requires UnitsFrom(own, units)
    ensures AllObserved(units) <==> Intervals(own)
    ensures Backwards(units) <==> Intervals(own) && exists a, b :: Rounds(own, a, b) && b < a
    ensures !Backwards(units) ==> WordFrom(word, own, Outcome(word, units))
  {
    if own != [] && AllObserved(units) {
      var (start, end) := Extent(units);
      forall a, b ensures Rounds(own, a, b) <==> (start, end) == (a, b) {
        ExtentRounds(own, units, a, b);
      }
      assert Rounds(own, start, end);
    }
  }

  /** The reports of the words, cut where the fold cuts the units. */
  function ReportsOf(s: Segmentation, report: PairedReport): (own: seq<seq<ReportedWord>>)
    requires CountsUnits(s) && |report.words| == |s.units|
    ensures |own| == |s.words|
  {
    seq(|s.words|, i requires 0 <= i < |s.words| =>
      OffsetMonotone(s.unitCounts, i, i + 1);
      OffsetMonotone(s.unitCounts, i + 1, |s.words|);
      report.words[Offset(s.unitCounts, i)..Offset(s.unitCounts, i + 1)])
  }

  lemma {:induction false} ReportsAreOwn(s: Segmentation, report: PairedReport)
    requires CountsUnits(s) && |report.words| == |s.units|
    ensures OwnReports(s, report, ReportsOf(s, report))
  {
    var own := ReportsOf(s, report);
    var cuts := seq(|own| + 1, i requires 0 <= i <= |own| => Offset(s.unitCounts, i));
    forall i | 0 <= i < |own|
      ensures PartAt(report.words, cuts[i], cuts[i + 1], own[i]) && |own[i]| == s.unitCounts[i]
    {
      OffsetMonotone(s.unitCounts, i, i + 1);
      OffsetMonotone(s.unitCounts, i + 1, |s.words|);
      assert cuts[i + 1] == cuts[i] + s.unitCounts[i];
    }
    assert LaidOut(report.words, own, cuts);
  }

  lemma {:induction false} OwnUnique(s: Segmentation, report: PairedReport, own: seq<seq<ReportedWord>>)
    requires CountsUnits(s) && |report.words| == |s.units| && OwnReports(s, report, own)
    ensures own == ReportsOf(s, report)
  {
    var cuts :| LaidOut(report.words, own, cuts);
    forall i | 0 <= i < |own| ensures own[i] == ReportsOf(s, report)[i] {
      CutsAreOffsets(report.words, own, s.unitCounts, cuts, i);
      CutsAreOffsets(report.words, own, s.unitCounts, cuts, i + 1);
      assert PartAt(report.words, cuts[i], cuts[i + 1], own[i]);
    }
  }

  lemma {:induction false} WordUnitsFrom(s: Segmentation, report: PairedReport, duration: real, a: Alignment, i: nat)
    requires CountsUnits(s) && |report.words| == |s.units| && AdmittedFrom(report, duration, a) && i < |s.words|
    ensures UnitsFrom(ReportsOf(s, report)[i], UnitsOf(s, a.words, i))
  {
    var from, to := Offset(s.unitCounts, i), Offset(s.unitCounts, i + 1);
    OffsetMonotone(s.unitCounts, i, i + 1);
    OffsetMonotone(s.unitCounts, i + 1, |s.words|);
    forall k | from <= k < to
      ensures report.words[k].start.Finite? && report.words[k].end.Finite?
      ensures a.words[k].timing == TimingOf(report.words[k])
    {
      assert Bounded(report.words[k], duration);
    }
  }

  /** The fold can raise exactly when some word's reports round backwards. */
  lemma {:induction false} FoldFromReports(s: Segmentation, report: PairedReport, duration: real, a: Alignment)
    requires CountsUnits(s) && |report.words| == |s.units| && AdmittedFrom(report, duration, a)
    ensures OwnReports(s, report, ReportsOf(s, report))
    ensures NoneBackwards(s, a.words) <==>
            forall own :: OwnReports(s, report, own) ==> NoneRoundsBackwards(own)
  {
    ReportsAreOwn(s, report);
    var own := ReportsOf(s, report);
    forall other | OwnReports(s, report, other) ensures other == own {
      OwnUnique(s, report, other);
    }
    forall i | 0 <= i < |s.words|
      ensures Backwards(UnitsOf(s, a.words, i)) <==> Intervals(own[i]) && exists a, b :: Rounds(own[i], a, b) && b < a
    {
      WordUnitsFrom(s, report, duration, a, i);
      OutcomeFrom(s.words[i], own[i], UnitsOf(s, a.words, i));
    }
  }

  lemma {:induction false} FoldedIsFrom(s: Segmentation, report: PairedReport, duration: real, a: Alignment,
                                        folded: seq<FoldedWord>)
    requires |report.words| == |s.units| && AdmittedFrom(report, duration, a) && FoldOf(s, a.words, folded)
    ensures exists own :: OwnReports(s, report, own) && FoldedFrom(s, own, folded)
  {
    ReportsAreOwn(s, report);
    var own := ReportsOf(s, report);
    forall i | 0 <= i < |folded| ensures WordFrom(s.words[i], own[i], folded[i]) {
      WordUnitsFrom(s, report, duration, a, i);
      OutcomeFrom(s.words[i], own[i], UnitsOf(s, a.words, i));
    }
    assert FoldedFrom(s, own, folded);
  }

  ghost predicate NoneBackwards(s: Segmentation, words: seq<AlignedWord>) {
    && CountsUnits(s) && |words| == |s.units|
    && (forall i :: 0 <= i < |s.words| ==> !Backwards(UnitsOf(s, words, i)))
  }

  /** Blank report texts escape the ordering check, and then the fold can raise: the word "ab"
      with the units "a" and "b", reported as "a" at 0.5..0.6 s and blank at 0.1..0.2 s, is
      segmented and admitted, and rounds backwards. */
  lemma {:induction false} BlankUnitsCanRaise(split: string -> seq<string>, strip: string -> string,
                                              blank: string -> bool)
    returns (s: Segmentation, report: PairedReport, a: Alignment)
    requires split("ab") == ["a", "b"] && strip("ab") == "ab" && blank(" ") && !blank("a")
    ensures s.words == ["ab"] && s.transcript == strip(JoinWith(' ', s.words)) && Proved(s, split)
    ensures report.units == s.units && |report.words| == |report.units|
    ensures AllBounded(report.words, 1.0) && NonDecreasing(report.words, blank) && AdmittedFrom(report, 1.0, a)
    ensures !NoneBackwards(s, a.words)
  {
    var units, counts: seq<nat> := ["a", "b"], [2];
    s := Segmentation(["ab"], "ab", units, counts);
    var first, second := ReportedWord("a", Finite(0.5), Finite(0.6)), ReportedWord(" ", Finite(0.1), Finite(0.2));
    report := PairedReport(units, [first, second]);
    var aligned := [AlignedWord("a", Observed(0.5, 0.6)), AlignedWord(" ", Observed(0.1, 0.2))];
    a := Alignment(units, aligned, 1.0);
    assert Offset(counts, 1) == 2;
    assert OwnsUnits(s, 0, split("ab"));
    assert UnitsOf(s, aligned, 0) == aligned;
    RoundInteger(500);
    RoundInteger(200);
    assert Backwards(aligned);
  }
}
