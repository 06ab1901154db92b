/** Placing aligned chunks in a recording and assembling them in order. */
module RecordingAssembly {
  import opened Outcomes
  import Sequences
  import PunctuationPlaces
  import opened WindowTiming
  import opened Punctuation

  datatype RecordingWindow = RecordingWindow(start: real, duration: real) {
    function End(): real { start + duration }
  }

  datatype RecordingTiming = Placed(start: real, end: real) | NotObserved
  datatype RecordingWord = RecordingWord(text: string, timing: RecordingTiming)

  /** `RecordingChunkSpeech`. */
  datatype Chunk = Chunk(text: string, window: RecordingWindow, words: seq<RecordingWord>)

  function PlacedTiming(t: Timing, offset: real): RecordingTiming {
    match t
    case Observed(start, end) => Placed(offset + start, offset + end)
    case Unavailable(_) => NotObserved
  }

  /** The chunk holds the words of one window, moved by the chunk's offset. */
  ghost predicate PlacedFrom(text: string, offset: real, words: seq<AlignedWord>, duration: real, c: Chunk) {
    && c.text == text && c.window == RecordingWindow(offset, duration) && |c.words| == |words|
    && (forall i :: 0 <= i < |words| ==>
          c.words[i] == RecordingWord(words[i].text, PlacedTiming(words[i].timing, offset)))
  }

  /** `RecordingChunkSpeech.__init__`; a negative offset is refused. Positive window
      spans stay positive, so the per-span check cannot fail over the reals. */
  method PlaceChunk(text: string, offset: real, words: seq<AlignedWord>, duration: real) returns (r: Option<Chunk>)
    ensures r.Some? <==> offset >= 0.0
    ensures r.Some? ==> PlacedFrom(text, offset, words, duration, r.value)
  {
    if offset < 0.0 {
      return None;
    }
    var placed: seq<RecordingWord> := [];
    for i := 0 to |words|
      invariant |placed| == i
      invariant forall j :: 0 <= j < i ==>
                  placed[j] == RecordingWord(words[j].text, PlacedTiming(words[j].timing, offset))
    {
      placed := placed + [RecordingWord(words[i].text, PlacedTiming(words[i].timing, offset))];
    }
    return Some(Chunk(text, RecordingWindow(offset, duration), placed));
  }

  /** A chunk whose observed spans are positive, inside its window, and in order. */
  ghost predicate SoundChunk(c: Chunk) {
    && 0.0 <= c.window.start <= c.window.End()
    && (forall i :: 0 <= i < |c.words| && c.words[i].timing.Placed? ==>
          c.window.start <= c.words[i].timing.start < c.words[i].timing.end <= c.window.End())
    && (forall i, j :: 0 <= i < j < |c.words| && c.words[i].timing.Placed? && c.words[j].timing.Placed? ==>
          c.words[i].timing.start <= c.words[j].timing.start && c.words[i].timing.end <= c.words[j].timing.end)
  }

  lemma {:induction false} PlacementIsSound(text: string, offset: real, words: seq<AlignedWord>, duration: real,
                                            c: Chunk)
    requires PlacedFrom(text, offset, words, duration, c) && InWindow(words, duration)
    requires offset >= 0.0 && duration >= 0.0
    ensures SoundChunk(c)
  {
    forall i | 0 <= i < |c.words| && c.words[i].timing.Placed?
      ensures c.window.start <= c.words[i].timing.start < c.words[i].timing.end <= c.window.End()
    {
      assert TimingInside(words[i].timing, duration);
    }
  }

  // ------------------------------------------------------ one chunk

  /** What the engine has for one chunk: the recogniser's text, where the audio lies,
      and the aligner's reports. */
  datatype ChunkReport = ChunkReport(text: string, offset: real, duration: real, report: PairedReport)

  /** The words a chunk is built from: the admitted nonblank words, punctuated when the
      profile asks for it. */
  ghost predicate SpeechOf(input: ChunkReport, restore: bool, blank: string -> bool, lexical: char -> bool,
                           a: Alignment, words: seq<AlignedWord>) {
    && AdmittedFrom(input.report, input.duration, a) && NonDecreasing(input.report.words, blank)
    && (if restore then PunctuationOf(input.text, Nonblank(a.words, blank), lexical, words)
        else words == Nonblank(a.words, blank))
  }

  ghost predicate ChunkFrom(input: ChunkReport, restore: bool, blank: string -> bool, lexical: char -> bool, c: Chunk) {
    exists a, words :: SpeechOf(input, restore, blank, lexical, a, words)
                       && PlacedFrom(input.text, input.offset, words, input.duration, c)
  }

  /** When a chunk can be aligned: its window and reports are admissible, and punctuation,
      if asked for, finds the same lexical characters in the text and the words. */
  ghost predicate Alignable(input: ChunkReport, restore: bool, blank: string -> bool, lexical: char -> bool) {
    && input.offset >= 0.0 && input.duration >= 0.0
    && AllBounded(input.report.words, input.duration) && NonDecreasing(input.report.words, blank)
    && (restore ==> exists a :: AdmittedFrom(input.report, input.duration, a)
                                && SameSpelling(input.text, Nonblank(a.words, blank), lexical))
  }

  ghost predicate SameSpelling(text: string, words: seq<AlignedWord>, lexical: char -> bool) {
    && Spelling(Texts(words), lexical) == Keep(text, lexical)
    && forall i :: 0 <= i < |words| ==> Keep(words[i].text, lexical) != []
  }

  /** Admission, the nonblank view, optional punctuation, and placement of one chunk. */
  method AlignChunk(input: ChunkReport, restore: bool, blank: string -> bool, lexical: char -> bool)
    returns (r: Option<Chunk>)
    ensures r.Some? <==> Alignable(input, restore, blank, lexical)
    ensures r.Some? ==> ChunkFrom(input, restore, blank, lexical, r.value) && SoundChunk(r.value)
    ensures r.Some? ==> r.value.window == RecordingWindow(input.offset, input.duration)
  {
    if input.duration < 0.0 {
      return None;
    }
    var admitted := AdmitWindow(input.report, input.duration, blank);
    if admitted.Err? {
      return None;
    }
    var a := admitted.value;
    AdmittedInWindow(input.report, input.duration, blank, a);
    SpokenInWindow(a.words, input.duration, blank);
    var spoken := Nonblank(a.words, blank);
    var words := spoken;
    if restore {
      var punctuated := Punctuate(input.text, spoken, lexical);
      assert punctuated.Some? <==> SameSpelling(input.text, spoken, lexical);
      if punctuated.None? {
        forall b | AdmittedFrom(input.report, input.duration, b) ensures b == a {
          AdmittedUnique(input.report, input.duration, a, b);
        }
        return None;
      }
      words := punctuated.value;
      PunctuationInWindow(input.text, spoken, lexical, words, input.duration);
    }
    r := PlaceChunk(input.text, input.offset, words, input.duration);
    if r.Some? {
      PlacementIsSound(input.text, input.offset, words, input.duration, r.value);
      assert SpeechOf(input, restore, blank, lexical, a, words);
    }
  }

  /** A report placed in the recording: moved by the offset if it has an interval. */
  ghost predicate Placing(w: ReportedWord, offset: real, timing: RecordingTiming) {
    && w.start.Finite? && w.end.Finite?
    && timing == if w.start == w.end then NotObserved else Placed(offset + w.start.s, offset + w.end.s)
  }

  /** A chunk straight from its reports: one word for each report that is not blank, in order,
      placed; the texts are the reports' own, or stand in the recognised text with their marks. */
  ghost predicate ChunkOf(input: ChunkReport, restore: bool, blank: string -> bool, lexical: char -> bool, c: Chunk,
                          spoken: seq<nat>, texts: seq<string>, starts: seq<nat>, ends: seq<nat>) {
    && c.text == input.text && c.window == RecordingWindow(input.offset, input.duration)
    && Sequences.Increasing(spoken) && |c.words| == |spoken| == |texts|
    && (forall k: nat :: k in spoken <==> k < |input.report.words| && !blank(input.report.words[k].text))
    && (forall j :: 0 <= j < |spoken| ==> spoken[j] < |input.report.words|
                                          && texts[j] == input.report.words[spoken[j]].text
                                          && Placing(input.report.words[spoken[j]], input.offset, c.words[j].timing))
    && (if restore then PunctuationPlaces.StandsIn(input.text, texts, lexical, starts, ends, ChunkTexts(c))
        else ChunkTexts(c) == texts)
  }

  function ChunkTexts(c: Chunk): (r: seq<string>)
    ensures |r| == |c.words| && forall j :: 0 <= j < |r| ==> r[j] == c.words[j].text
  {
    seq(|c.words|, j requires 0 <= j < |c.words| => c.words[j].text)
  }

  lemma {:induction false} ChunkIsOf(input: ChunkReport, restore: bool, blank: string -> bool, lexical: char -> bool,
                                     c: Chunk)
    returns (spoken: seq<nat>, texts: seq<string>, starts: seq<nat>, ends: seq<nat>)
    requires ChunkFrom(input, restore, blank, lexical, c)
    ensures ChunkOf(input, restore, blank, lexical, c, spoken, texts, starts, ends)
  {
    var a: Alignment, words: seq<AlignedWord> :|
      && SpeechOf(input, restore, blank, lexical, a, words)
      && PlacedFrom(input.text, input.offset, words, input.duration, c);
    spoken := NonblankPicks(a.words, blank);
    var nonblank: seq<AlignedWord> := Nonblank(a.words, blank);
    texts, starts, ends := Texts(nonblank), [], [];
    if restore {
      starts, ends := PunctuationPlaces.PunctuationStands(input.text, nonblank, lexical, words);
    }
    assert ChunkTexts(c) == Texts(words);
    forall j | 0 <= j < |spoken|
      ensures texts[j] == input.report.words[spoken[j]].text
      ensures Placing(input.report.words[spoken[j]], input.offset, c.words[j].timing)
    {
      assert Bounded(input.report.words[spoken[j]], input.duration);
      assert words[j].timing == nonblank[j].timing;
    }
  }

  /** A report has one chunk. */
  lemma {:induction false} ChunkUnique(input: ChunkReport, restore: bool, blank: string -> bool,
                                       lexical: char -> bool, c: Chunk, d: Chunk)
    requires ChunkFrom(input, restore, blank, lexical, c) && ChunkFrom(input, restore, blank, lexical, d)
    ensures c == d
  {
    var a, words :| SpeechOf(input, restore, blank, lexical, a, words)
          && PlacedFrom(input.text, input.offset, words, input.duration, c);
    var b, others :| SpeechOf(input, restore, blank, lexical, b, others)
          && PlacedFrom(input.text, input.offset, others, input.duration, d);
    AdmittedUnique(input.report, input.duration, a, b);
    if restore {
      PunctuationUnique(input.text, Nonblank(a.words, blank), lexical, words, others);
    }
    assert c.words == d.words;
  }

  // ---------------------------------------------------- the append chain

  datatype Prefix = RecordingStart | Extended(previous: Prefix, chunk: Chunk)

  /** `append`: a chunk may not start before the previous chunk's window ends. */
  function Append(prefix: Prefix, chunk: Chunk): Option<Prefix> {
    match prefix
    case RecordingStart => Some(Extended(prefix, chunk))
    case Extended(_, previous) =>
      if chunk.window.start < previous.window.End() then None else Some(Extended(prefix, chunk))
  }

  /** The chunks of a prefix, in append order. */
  function ChunksOf(prefix: Prefix): seq<Chunk> {
    match prefix
    case RecordingStart => []
    case Extended(previous, chunk) => ChunksOf(previous) + [chunk]
  }

  /** `CompletedRecording.__init__` walks the chain backwards and reverses what it found. */
  method Complete(prefix: Prefix) returns (chunks: seq<Chunk>)
    ensures chunks == ChunksOf(prefix)
  {
    var found: seq<Chunk> := [];
    var rest := prefix;
    while rest.Extended?
      invariant ChunksOf(prefix) == ChunksOf(rest) + Sequences.Reversed(found)
      decreases rest
    {
      assert Sequences.Reversed(found + [rest.chunk]) == [rest.chunk] + Sequences.Reversed(found);
      found := found + [rest.chunk];
      rest := rest.previous;
    }
    chunks := Sequences.Reversed(found);
  }

  /** Any earlier window ends no later than any later window starts. */
  ghost predicate WindowsInOrder(chunks: seq<Chunk>) {
    forall i, j :: 0 <= i < j < |chunks| ==> chunks[i].window.End() <= chunks[j].window.start
  }

  /** Comparing with the previous chunk alone orders all windows, in both directions. */
  lemma {:induction false} AppendKeepsOrder(prefix: Prefix, chunk: Chunk)
    requires WindowsInOrder(ChunksOf(prefix))
    requires forall i :: 0 <= i < |ChunksOf(prefix)| ==> SoundChunk(ChunksOf(prefix)[i])
    ensures Append(prefix, chunk).Some? <==> WindowsInOrder(ChunksOf(prefix) + [chunk])
    ensures Append(prefix, chunk).Some? ==> ChunksOf(Append(prefix, chunk).value) == ChunksOf(prefix) + [chunk]
  {
    if prefix.Extended? {
      var before := ChunksOf(prefix);
      var last := |before| - 1;
      assert before[last] == prefix.chunk;
      assert SoundChunk(before[last]);
      var after := before + [chunk];
      assert after[last] == prefix.chunk && after[last + 1] == chunk;
      if Append(prefix, chunk).Some? {
        forall i, j | 0 <= i < j < |after| ensures after[i].window.End() <= after[j].window.start {
          if j == last + 1 && i < last {
            assert before[i].window.End() <= before[last].window.start;
          }
        }
      } else {
        assert !(after[last].window.End() <= after[last + 1].window.start);
      }
    }
  }

  // ------------------------------------------------ the whole recording

  /** Observed spans never go backwards, within a chunk or from chunk to chunk. */
  ghost predicate SpansInOrder(chunks: seq<Chunk>) {
    forall i, j, a, b :: 0 <= i <= j < |chunks| && 0 <= a < |chunks[i].words| && 0 <= b < |chunks[j].words|
                         && (i < j || a < b)
                         && chunks[i].words[a].timing.Placed? && chunks[j].words[b].timing.Placed? ==>
      NoLater(chunks[i].words[a].timing, chunks[j].words[b].timing)
  }

  ghost predicate NoLater(s: RecordingTiming, t: RecordingTiming) {
    s.Placed? && t.Placed? ==> s.start <= t.start && s.end <= t.end
  }

  ghost predicate SoundRecording(chunks: seq<Chunk>) {
    && (forall i :: 0 <= i < |chunks| ==> SoundChunk(chunks[i]))
    && WindowsInOrder(chunks)
    && SpansInOrder(chunks)
  }

  /** Sound chunks in ordered windows make a recording whose spans are in order throughout. */
  lemma {:induction false} OrderedWindowsOrderSpans(chunks: seq<Chunk>)
    requires (forall i :: 0 <= i < |chunks| ==> SoundChunk(chunks[i])) && WindowsInOrder(chunks)
    ensures SoundRecording(chunks)
  {
    forall i, j, a, b | 0 <= i <= j < |chunks| && 0 <= a < |chunks[i].words| && 0 <= b < |chunks[j].words|
                        && (i < j || a < b) && chunks[i].words[a].timing.Placed? && chunks[j].words[b].timing.Placed?
      ensures NoLater(chunks[i].words[a].timing, chunks[j].words[b].timing)
    {
      assert SoundChunk(chunks[i]) && SoundChunk(chunks[j]);
      if i < j {
        assert chunks[i].window.End() <= chunks[j].window.start;
      }
    }
  }

  /** No input window starts before an earlier one ends. */
  ghost predicate InputsInOrder(inputs: seq<ChunkReport>) {
    forall i, j :: 0 <= i < j < |inputs| ==> inputs[i].offset + inputs[i].duration <= inputs[j].offset
  }

  ghost predicate ChunksFrom(inputs: seq<ChunkReport>, restore: bool, blank: string -> bool, lexical: char -> bool,
                             chunks: seq<Chunk>) {
    |chunks| == |inputs| &&
    forall i :: 0 <= i < |chunks| ==>
      && ChunkFrom(inputs[i], restore, blank, lexical, chunks[i])
      && SoundChunk(chunks[i])
      && chunks[i].window == RecordingWindow(inputs[i].offset, inputs[i].duration)
  }

  ghost predicate AllAlignable(inputs: seq<ChunkReport>, restore: bool, blank: string -> bool, lexical: char -> bool) {
    forall i :: 0 <= i < |inputs| ==> Alignable(inputs[i], restore, blank, lexical)
  }

  /** The prefix holds the inputs' chunks, in order. */
  ghost predicate Built(inputs: seq<ChunkReport>, restore: bool, blank: string -> bool, lexical: char -> bool,
                        prefix: Prefix) {
    ChunksFrom(inputs, restore, blank, lexical, ChunksOf(prefix)) && WindowsInOrder(ChunksOf(prefix))
  }

  /** Align the next chunk and append it. */
  method ExtendRecording(inputs: seq<ChunkReport>, i: nat, restore: bool, blank: string -> bool,
                         lexical: char -> bool, prefix: Prefix)
    returns (r: Option<Prefix>)
    requires i < |inputs| && Built(inputs[..i], restore, blank, lexical, prefix)
    ensures r.Some? <==> Alignable(inputs[i], restore, blank, lexical) && InputsInOrder(inputs[..i + 1])
    ensures r.Some? ==> Built(inputs[..i + 1], restore, blank, lexical, r.value)
  {
    var chunk := AlignChunk(inputs[i], restore, blank, lexical);
    if chunk.None? {
      return None;
    }
    ghost var before := ChunksOf(prefix);
    AppendKeepsOrder(prefix, chunk.value);
    OneMoreChunk(inputs, i, restore, blank, lexical, before, chunk.value);
    return Append(prefix, chunk.value);
  }

  /** The chunk loop of a transcription: align each chunk, append it, publish the chain.
      It succeeds exactly when every chunk aligns and no window rewinds, and then it lists
      one chunk per input, in input order, with every observed span in order. */
  method AssembleRecording(inputs: seq<ChunkReport>, restore: bool, blank: string -> bool, lexical: char -> bool)
    returns (r: Option<seq<Chunk>>)
    ensures r.Some? <==> AllAlignable(inputs, restore, blank, lexical) && InputsInOrder(inputs)
    ensures r.Some? ==> ChunksFrom(inputs, restore, blank, lexical, r.value) && SoundRecording(r.value)
  {
    var recording := RecordingStart;
    for i := 0 to |inputs|
      invariant Built(inputs[..i], restore, blank, lexical, recording)
      invariant forall j :: 0 <= j < i ==> Alignable(inputs[j], restore, blank, lexical)
    {
      var extended := ExtendRecording(inputs, i, restore, blank, lexical, recording);
      if extended.None? {
        RewindStays(inputs, i + 1);
        return None;
      }
      recording := extended.value;
    }
    var chunks := Complete(recording);
    AllChunks(inputs, restore, blank, lexical, chunks);
    return Some(chunks);
  }

  lemma {:induction false} OneMoreChunk(inputs: seq<ChunkReport>, i: nat, restore: bool, blank: string -> bool,
                                        lexical: char -> bool,
                                        chunks: seq<Chunk>, c: Chunk)
    requires i < |inputs| && ChunksFrom(inputs[..i], restore, blank, lexical, chunks)
    requires ChunkFrom(inputs[i], restore, blank, lexical, c) && SoundChunk(c)
    requires c.window == RecordingWindow(inputs[i].offset, inputs[i].duration)
    ensures ChunksFrom(inputs[..i + 1], restore, blank, lexical, chunks + [c])
  {
    assert inputs[..i + 1] == inputs[..i] + [inputs[i]];
  }

  lemma {:induction false} AllChunks(inputs: seq<ChunkReport>, restore: bool, blank: string -> bool,
                                     lexical: char -> bool, chunks: seq<Chunk>)
    requires ChunksFrom(inputs[..|inputs|], restore, blank, lexical, chunks) && WindowsInOrder(chunks)
    ensures ChunksFrom(inputs, restore, blank, lexical, chunks) && SoundRecording(chunks) && InputsInOrder(inputs)
  {
    assert inputs[..|inputs|] == inputs;
    OrderedWindowsOrderSpans(chunks);
  }

  lemma {:induction false} RewindStays(inputs: seq<ChunkReport>, n: nat)
    requires n <= |inputs|
    ensures InputsInOrder(inputs) ==> InputsInOrder(inputs[..n])
  {
  }
}
