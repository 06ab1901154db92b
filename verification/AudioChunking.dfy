/** Splitting a recording's audio into chunks at quiet samples, and when the windows of the
    chunks are in order, as the recording's append chain demands. */
module AudioChunking {
  import opened Outcomes
  import opened Numbers
  import opened WindowTiming
  import opened RecordingAssembly

  type Samples = seq<real>

  /** Samples per second, and the fixed lengths of the chunker in samples: how far around a
      cut it searches, the width of the quiet window, and the shortest model input. */
  const RATE: real := 16000.0
  const EXPAND := 80000
  const WINDOW := 1600
  const MINIMUM := 8000

  /** A configured chunk length in seconds. */
  type ChunkLength = x: real | x > 0.0 witness 1.0

  datatype AudioChunk = AudioChunk(samples: Samples, offset: real) {
    function Seconds(): real { |samples| as real / RATE }
  }

  // ------------------------------------------------------- the quiet cut

  /** The first position of the least value. */
  function FirstLeast(s: seq<real>): (i: nat)
    requires s != []
    ensures i < |s| && (forall j :: 0 <= j < |s| ==> s[i] <= s[j]) && (forall j :: 0 <= j < i ==> s[i] < s[j])
  {
    var n := |s| - 1;
    if n == 0 then 0
    else
      var k := FirstLeast(s[..n]);
      if s[n] < s[k] then n else k
  }

  function Loudness(wav: Samples): seq<real> {
    seq(|wav|, i requires 0 <= i < |wav| => if wav[i] >= 0.0 then wav[i] else -wav[i])
  }

  function Total(s: seq<real>): real {
    if s == [] then 0.0 else Total(s[..|s| - 1]) + s[|s| - 1]
  }

  /** The loudness of every full window. */
  function WindowSums(loud: seq<real>): seq<real>
    requires |loud| >= WINDOW
  {
    seq(|loud| - WINDOW + 1, i requires 0 <= i <= |loud| - WINDOW => Total(loud[i..i + WINDOW]))
  }

  /** The quietest sample of the quietest window between `left` and `right`. */
  function QuietCut(wav: Samples, left: nat, right: nat): (cut: nat)
    requires left + WINDOW < right <= |wav|
    ensures left <= cut < right
  {
    var loud := Loudness(wav[left..right]);
    var at := FirstLeast(WindowSums(loud));
    left + at + FirstLeast(loud[at..at + WINDOW])
  }

  /** Where the chunk starting at `start` ends: near `start + longest`, and after at least one
      sample. */
  function NextCut(wav: Samples, start: nat, longest: nat): (cut: nat)
    requires start + longest < |wav|
    ensures start < cut <= |wav| && start + longest - EXPAND <= cut <= start + longest + EXPAND
  {
    var aim := start + longest;
    var left, right := Max(start, aim - EXPAND), Min(|wav|, aim + EXPAND);
    var boundary := if right - left <= WINDOW then aim else QuietCut(wav, left, right);
    Min(Max(boundary, start + 1), |wav|)
  }

  ghost function Magnitude(x: real): real { if x < 0.0 then -x else x }

  /** The sum of the magnitudes of the samples `from` to `to`. */
  ghost function Volume(wav: Samples, from: nat, to: nat): real
    requires from <= to <= |wav|
  {
    if from == to then 0.0 else Volume(wav, from, to - 1) + Magnitude(wav[to - 1])
  }

  ghost function WindowVolume(wav: Samples, at: nat): real
    requires at + 1600 <= |wav|
  {
    Volume(wav, at, at + 1600)
  }

  /** `cut` lies in the quietest window of a tenth of a second between `left` and `right`, the
      first one if there are several, and is its quietest sample, again the first. */
  ghost predicate Quietest(wav: Samples, left: nat, right: nat, at: nat, cut: nat)
    requires right <= |wav|
  {
    && left <= at <= cut < at + 1600 <= right
    && (forall b: nat :: left <= b && b + 1600 <= right ==>
          WindowVolume(wav, at) <= WindowVolume(wav, b) && (b < at ==> WindowVolume(wav, at) < WindowVolume(wav, b)))
    && (forall k :: at <= k < at + 1600 ==>
          Magnitude(wav[cut]) <= Magnitude(wav[k]) && (k < cut ==> Magnitude(wav[cut]) < Magnitude(wav[k])))
  }

  lemma {:induction false} TotalIsVolume(wav: Samples, left: nat, right: nat, a: nat, b: nat)
    requires left <= right <= |wav| && a <= b <= right - left
    ensures Total(Loudness(wav[left..right])[a..b]) == Volume(wav, left + a, left + b)
    decreases b
  {
    if a < b {
      var loud := Loudness(wav[left..right]);
      TotalIsVolume(wav, left, right, a, b - 1);
      assert loud[a..b][..b - 1 - a] == loud[a..b - 1];
      assert wav[left..right][b - 1] == wav[left + b - 1];
    }
  }

  lemma {:induction false} QuietCutIsQuietest(wav: Samples, left: nat, right: nat) returns (at: nat)
    requires left + WINDOW < right <= |wav|
    ensures Quietest(wav, left, right, at, QuietCut(wav, left, right))
  {
    var loud := Loudness(wav[left..right]);
    var sums := WindowSums(loud);
    var i := FirstLeast(sums);
    at := left + i;
    forall b: nat | left <= b && b + 1600 <= right
      ensures WindowVolume(wav, b) == sums[b - left]
    {
      TotalIsVolume(wav, left, right, b - left, b - left + 1600);
    }
    forall k | at <= k < at + 1600 ensures Magnitude(wav[k]) == loud[i..i + WINDOW][k - at] {
      assert wav[left..right][k - left] == wav[k];
    }
  }

  /** The cut for the stretch from `left` to `right` around the aim: the aim itself if the
      stretch is no longer than the window, else its quietest sample, but never `start`. */
  ghost predicate CutAround(wav: Samples, start: nat, aim: nat, left: nat, right: nat, cut: nat)
    requires right <= |wav|
  {
    if right - left <= 1600 then cut == if aim == start then start + 1 else aim
    else exists at: nat, quiet: nat ::
           Quietest(wav, left, right, at, quiet) && cut == if quiet == start then start + 1 else quiet
  }

  lemma {:induction false} CutIs(wav: Samples, start: nat, longest: nat, left: nat, right: nat)
    requires start + longest < |wav|
    requires left == Max(start, start + longest - EXPAND) && right == Min(|wav|, start + longest + EXPAND)
    ensures NextCut(wav, start, longest) ==
            if right - left <= WINDOW then Max(start + longest, start + 1)
            else Max(QuietCut(wav, left, right), start + 1)
  {
  }

  /** Where a chunk ends, without the search: the stretch reaches five seconds to either side
      of the aim, within the audio and after the start. */
  lemma {:induction false} CutIsQuietest(wav: Samples, start: nat, longest: nat, left: nat, right: nat)
    requires start + longest < |wav|
    requires left == (if longest < 80000 then start else start + longest - 80000)
    requires right == (if |wav| < start + longest + 80000 then |wav| else start + longest + 80000)
    ensures CutAround(wav, start, start + longest, left, right, NextCut(wav, start, longest))
  {
    var cut := NextCut(wav, start, longest);
    CutIs(wav, start, longest, left, right);
    if right - left > 1600 {
      var quiet := QuietCut(wav, left, right);
      var at := QuietCutIsQuietest(wav, left, right);
      assert cut == if quiet == start then start + 1 else quiet;
    }
  }

  // --------------------------------------------------------- the chunks

  /** `cuts` are the ends of the pieces of audio that is too long for one chunk. */
  ghost predicate SplitAt(wav: Samples, longest: nat, cuts: seq<nat>) {
    && |cuts| >= 2 && cuts[0] == 0 && cuts[|cuts| - 1] == |wav|
    && (forall i :: 0 <= i < |cuts| - 2 ==> CutAfter(wav, longest, cuts[i], cuts[i + 1]))
    && cuts[|cuts| - 2] <= |wav| <= cuts[|cuts| - 2] + longest
  }

  ghost predicate CutAfter(wav: Samples, longest: nat, start: nat, cut: nat) {
    start + longest < |wav| && cut == NextCut(wav, start, longest)
  }

  /** The piece from `from` to `to`, with silence up to the shortest input. */
  function Padded(wav: Samples, from: nat, to: nat): Samples
    requires from <= to <= |wav|
  {
    wav[from..to] + seq(Max(MINIMUM - (to - from), 0), _ => 0.0)
  }

  ghost predicate PieceOf(wav: Samples, from: nat, to: nat, chunk: AudioChunk) {
    from <= to <= |wav| && chunk == AudioChunk(Padded(wav, from, to), from as real / RATE)
  }

  function Longest(maxSeconds: ChunkLength): nat
  {
    (maxSeconds * RATE).Floor
  }

  /** What the chunker returns: the audio as it is, or its pieces, each padded. */
  ghost predicate ChunkedAs(wav: Samples, maxSeconds: ChunkLength, cuts: seq<nat>, chunks: seq<AudioChunk>)
  {
    if |wav| as real / RATE <= maxSeconds
    then cuts == [0, |wav|] && chunks == [AudioChunk(wav, 0.0)]
    else SplitAt(wav, Longest(maxSeconds), cuts) && |chunks| == |cuts| - 1
         && forall i :: 0 <= i < |chunks| ==> PieceOf(wav, cuts[i], cuts[i + 1], chunks[i])
  }

  /** The chunks up to `start`, each cut from more audio than one chunk may hold. */
  ghost predicate CutSoFar(wav: Samples, longest: nat, start: nat, cuts: seq<nat>, chunks: seq<AudioChunk>) {
    && |cuts| == |chunks| + 1 && cuts[0] == 0 && cuts[|chunks|] == start <= |wav|
    && (forall i :: 0 <= i < |chunks| ==> CutAfter(wav, longest, cuts[i], cuts[i + 1]))
    && (forall i :: 0 <= i < |chunks| ==> PieceOf(wav, cuts[i], cuts[i + 1], chunks[i]))
  }

  lemma {:induction false} CutFurther(wav: Samples, longest: nat, start: nat, cuts: seq<nat>, chunks: seq<AudioChunk>,
                                      cut: nat, chunk: AudioChunk)
    requires CutSoFar(wav, longest, start, cuts, chunks)
    requires CutAfter(wav, longest, start, cut) && PieceOf(wav, start, cut, chunk)
    ensures CutSoFar(wav, longest, cut, cuts + [cut], chunks + [chunk])
  {
    var all, more := cuts + [cut], chunks + [chunk];
    forall i | 0 <= i < |more|
      ensures CutAfter(wav, longest, all[i], all[i + 1]) && PieceOf(wav, all[i], all[i + 1], more[i])
    {
      if i < |chunks| {
        assert CutAfter(wav, longest, cuts[i], cuts[i + 1]) && PieceOf(wav, cuts[i], cuts[i + 1], chunks[i]);
      }
    }
  }

  /** `split_audio_into_chunks` on mono audio. */
  method SplitAudio(wav: Samples, maxSeconds: ChunkLength) returns (chunks: seq<AudioChunk>, ghost cuts: seq<nat>)
    ensures ChunkedAs(wav, maxSeconds, cuts, chunks)
    ensures exists c :: ChunkedAs(wav, maxSeconds, c, chunks)
  {
    if |wav| as real / RATE <= maxSeconds {
      cuts, chunks := [0, |wav|], [AudioChunk(wav, 0.0)];
      assert ChunkedAs(wav, maxSeconds, cuts, chunks);
      return;
    }
    var longest := Longest(maxSeconds);
    var start: nat, offset := 0, 0.0;
    cuts, chunks := [0], [];
    while |wav| - start > longest
      invariant CutSoFar(wav, longest, start, cuts, chunks) && offset == start as real / RATE
      decreases |wav| - start
    {
      var boundary := NextCut(wav, start, longest);
      var chunk := AudioChunk(Padded(wav, start, boundary), offset);
      CutFurther(wav, longest, start, cuts, chunks, boundary, chunk);
      chunks := chunks + [chunk];
      offset := offset + (boundary - start) as real / RATE;
      start := boundary;
      cuts := cuts + [boundary];
    }
    var last := AudioChunk(Padded(wav, start, |wav|), offset);
    chunks := chunks + [last];
    cuts := cuts + [|wav|];
    assert ChunkedAs(wav, maxSeconds, cuts, chunks);
  }

  // --------------------------------------------- nothing lost, nothing twice

  lemma {:induction false} CutsInOrder(wav: Samples, maxSeconds: ChunkLength, cuts: seq<nat>, chunks: seq<AudioChunk>,
                                       i: nat, j: nat)
    requires ChunkedAs(wav, maxSeconds, cuts, chunks) && i <= j < |cuts|
    ensures cuts[i] <= cuts[j] <= |wav|
    decreases j
  {
    if |wav| as real / RATE > maxSeconds && i < j {
      CutsInOrder(wav, maxSeconds, cuts, chunks, i, j - 1);
      assert PieceOf(wav, cuts[j - 1], cuts[j], chunks[j - 1]);
    }
  }

  /** A chunk of divided audio is its piece and then silence up to half a second, and starts at
      the piece's time; audio that is short enough is one chunk as it is. */
  lemma {:induction false} PaddingIsSilence(wav: Samples, maxSeconds: ChunkLength, cuts: seq<nat>,
                                            chunks: seq<AudioChunk>, i: nat)
    requires ChunkedAs(wav, maxSeconds, cuts, chunks) && i < |chunks|
    ensures |wav| as real / 16000.0 <= maxSeconds ==> chunks == [AudioChunk(wav, 0.0)]
    ensures |wav| as real / 16000.0 > maxSeconds ==>
              && |cuts| == |chunks| + 1 && cuts[i] <= cuts[i + 1]
              && chunks[i].offset == cuts[i] as real / 16000.0
              && (|chunks[i].samples| == if cuts[i + 1] - cuts[i] < 8000 then 8000 else cuts[i + 1] - cuts[i])
              && forall k :: cuts[i + 1] - cuts[i] <= k < |chunks[i].samples| ==> chunks[i].samples[k] == 0.0
  {
    if |wav| as real / RATE > maxSeconds {
      assert PieceOf(wav, cuts[i], cuts[i + 1], chunks[i]);
    }
  }

  /** The first `n` samples of a chunk that has as many. */
  function Unpadded(chunk: AudioChunk, n: int): Samples {
    if 0 <= n <= |chunk.samples| then chunk.samples[..n] else []
  }

  /** The first `n` chunks without their padding, one after the other. */
  ghost function Joined(cuts: seq<nat>, chunks: seq<AudioChunk>, n: nat): Samples
    requires n <= |chunks| == |cuts| - 1
  {
    if n == 0 then []
    else
      var from: int, to: int := cuts[n - 1], cuts[n];
      Joined(cuts, chunks, n - 1) + Unpadded(chunks[n - 1], to - from)
  }

  lemma {:induction false} PieceFits(wav: Samples, maxSeconds: ChunkLength, cuts: seq<nat>, chunks: seq<AudioChunk>,
                                     i: nat)
    requires ChunkedAs(wav, maxSeconds, cuts, chunks) && i < |chunks|
    ensures |cuts| == |chunks| + 1 && cuts[i] <= cuts[i + 1] <= |wav|
    ensures cuts[i + 1] - cuts[i] <= |chunks[i].samples|
    ensures Unpadded(chunks[i], cuts[i + 1] - cuts[i]) == wav[cuts[i]..cuts[i + 1]]
    ensures chunks[i].offset == cuts[i] as real / RATE
  {
    if |wav| as real / RATE > maxSeconds {
      assert PieceOf(wav, cuts[i], cuts[i + 1], chunks[i]);
    }
  }

  /** The first `n` chunks, without padding, are the audio up to their end. */
  lemma {:induction false} ChunksJoin(wav: Samples, maxSeconds: ChunkLength, cuts: seq<nat>, chunks: seq<AudioChunk>,
                                      n: nat)
    requires ChunkedAs(wav, maxSeconds, cuts, chunks) && n <= |chunks|
    ensures |cuts| == |chunks| + 1 && cuts[n] <= |wav| && Joined(cuts, chunks, n) == wav[..cuts[n]]
  {
    if n > 0 {
      ChunksJoin(wav, maxSeconds, cuts, chunks, n - 1);
      PieceFits(wav, maxSeconds, cuts, chunks, n - 1);
      PrefixJoin(wav, cuts[n - 1], cuts[n]);
    }
  }

  lemma {:induction false} PrefixJoin(wav: Samples, from: nat, to: nat)
    requires from <= to <= |wav|
    ensures wav[..from] + wav[from..to] == wav[..to]
  {
  }

  /** Concatenating the chunks without their padding reproduces the audio. */
  lemma {:induction false} ChunksReproduceAudio(wav: Samples, maxSeconds: ChunkLength, cuts: seq<nat>,
                                                chunks: seq<AudioChunk>)
    requires ChunkedAs(wav, maxSeconds, cuts, chunks)
    ensures |cuts| == |chunks| + 1 && Joined(cuts, chunks, |chunks|) == wav
  {
    ChunksJoin(wav, maxSeconds, cuts, chunks, |chunks|);
    assert wav[..|wav|] == wav;
  }

  /** While cuts are left on both sides they agree, and so they end together. */
  lemma {:induction false} SameCuts(wav: Samples, longest: nat, a: seq<nat>, b: seq<nat>, i: nat)
    requires SplitAt(wav, longest, a) && SplitAt(wav, longest, b) && i < |a| - 1
    ensures i < |b| - 1 && a[i] == b[i]
  {
    if i > 0 {
      SameCuts(wav, longest, a, b, i - 1);
      assert CutAfter(wav, longest, a[i - 1], a[i]);
      assert i < |b| - 1;
      assert CutAfter(wav, longest, b[i - 1], b[i]);
    }
  }

  /** One recording is split in one way. */
  lemma {:induction false} SplitUnique(wav: Samples, maxSeconds: ChunkLength, a: seq<nat>, chunks: seq<AudioChunk>,
                                       b: seq<nat>, others: seq<AudioChunk>)
    requires ChunkedAs(wav, maxSeconds, a, chunks) && ChunkedAs(wav, maxSeconds, b, others)
    ensures a == b && chunks == others
  {
    if |wav| as real / RATE > maxSeconds {
      var longest := Longest(maxSeconds);
      SameCuts(wav, longest, a, b, |a| - 2);
      SameCuts(wav, longest, b, a, |b| - 2);
      forall i | 0 <= i < |a| ensures a[i] == b[i] {
        if i < |a| - 1 {
          SameCuts(wav, longest, a, b, i);
        }
      }
      forall i | 0 <= i < |chunks| ensures chunks[i] == others[i] {
        assert PieceOf(wav, a[i], a[i + 1], chunks[i]) && PieceOf(wav, b[i], b[i + 1], others[i]);
      }
    }
  }

  /** No chunk is longer than the configured length and the search radius of five seconds. */
  lemma {:induction false} ChunksBounded(wav: Samples, maxSeconds: ChunkLength, cuts: seq<nat>, chunks: seq<AudioChunk>,
                                         i: nat)
    requires ChunkedAs(wav, maxSeconds, cuts, chunks) && i < |chunks|
    ensures |cuts| == |chunks| + 1 && cuts[i] <= cuts[i + 1] <= cuts[i] + Longest(maxSeconds) + EXPAND
    ensures chunks[i].Seconds() <= maxSeconds + 5.0
  {
    if |wav| as real / RATE > maxSeconds {
      assert PieceOf(wav, cuts[i], cuts[i + 1], chunks[i]);
      assert i < |chunks| - 1 ==> CutAfter(wav, Longest(maxSeconds), cuts[i], cuts[i + 1]);
      assert |chunks[i].samples| == Max(MINIMUM, cuts[i + 1] - cuts[i]);
    }
  }

  // ------------------------------------------------- windows in order

  /** Any earlier chunk's window ends no later than any later one starts. */
  ghost predicate OrderedWindows(chunks: seq<AudioChunk>) {
    forall i, j :: 0 <= i < j < |chunks| ==> chunks[i].offset + chunks[i].Seconds() <= chunks[j].offset
  }

  /** Every piece but the last is long enough as it is. */
  ghost predicate OnlyLastShort(cuts: seq<nat>) {
    forall i :: 0 <= i < |cuts| - 2 ==> cuts[i + 1] - cuts[i] >= MINIMUM
  }

  /** Padding runs into the next window exactly where a piece before the last is short. */
  lemma {:induction false} OrderedIffOnlyLastShort(wav: Samples, maxSeconds: ChunkLength, cuts: seq<nat>,
                                                   chunks: seq<AudioChunk>)
    requires ChunkedAs(wav, maxSeconds, cuts, chunks)
    ensures OrderedWindows(chunks) <==> OnlyLastShort(cuts)
  {
    if |wav| as real / RATE > maxSeconds {
      if OrderedWindows(chunks) {
        forall i | 0 <= i < |cuts| - 2 ensures cuts[i + 1] - cuts[i] >= MINIMUM {
          assert PieceOf(wav, cuts[i], cuts[i + 1], chunks[i]) && PieceOf(wav, cuts[i + 1], cuts[i + 2], chunks[i + 1]);
          assert chunks[i].offset + chunks[i].Seconds() <= chunks[i + 1].offset;
        }
      }
      if OnlyLastShort(cuts) {
        forall i, j | 0 <= i < j < |chunks| ensures chunks[i].offset + chunks[i].Seconds() <= chunks[j].offset {
          assert PieceOf(wav, cuts[i], cuts[i + 1], chunks[i]) && PieceOf(wav, cuts[j], cuts[j + 1], chunks[j]);
          CutsInOrder(wav, maxSeconds, cuts, chunks, i + 1, j);
        }
      }
    }
  }

  /** The windows are long enough for every audio: no cut can leave a short piece. */
  lemma {:induction false} LongWindowsOrdered(wav: Samples, maxSeconds: ChunkLength, cuts: seq<nat>,
                                              chunks: seq<AudioChunk>)
    requires ChunkedAs(wav, maxSeconds, cuts, chunks)
    requires Longest(maxSeconds) >= MINIMUM + EXPAND
    ensures OrderedWindows(chunks)
  {
    if |wav| as real / RATE > maxSeconds {
      forall i | 0 <= i < |cuts| - 2 ensures cuts[i + 1] - cuts[i] >= MINIMUM {
        assert CutAfter(wav, Longest(maxSeconds), cuts[i], cuts[i + 1]);
      }
    }
    OrderedIffOnlyLastShort(wav, maxSeconds, cuts, chunks);
  }

  // ----------------------------------------------------- silence is cut early

  function Silence(n: nat): (wav: Samples)
    ensures |wav| == n && forall i :: 0 <= i < n ==> wav[i] == 0.0
  {
    seq(n, _ => 0.0)
  }

  lemma {:induction false} SilentTotal(s: seq<real>)
    requires forall i :: 0 <= i < |s| ==> s[i] == 0.0
    ensures Total(s) == 0.0
  {
    if s != [] {
      SilentTotal(s[..|s| - 1]);
    }
  }

  lemma {:induction false} SilentLeast(s: seq<real>)
    requires s != [] && forall i :: 0 <= i < |s| ==> s[i] == 0.0
    ensures FirstLeast(s) == 0
  {
    assert s[FirstLeast(s)] == s[0];
  }

  /** In silence every window is as quiet as the first one. */
  lemma {:induction false} SilentCut(wav: Samples, left: nat, right: nat)
    requires left + WINDOW < right <= |wav| && forall i :: 0 <= i < |wav| ==> wav[i] == 0.0
    ensures QuietCut(wav, left, right) == left
  {
    var loud := Loudness(wav[left..right]);
    var sums := WindowSums(loud);
    forall i | 0 <= i < |loud| ensures loud[i] == 0.0 {
      assert wav[left..right][i] == wav[left + i];
    }
    forall i | 0 <= i < |sums| ensures sums[i] == 0.0 {
      var part := loud[i..i + WINDOW];
      assert forall k :: 0 <= k < WINDOW ==> part[k] == loud[i + k];
      SilentTotal(part);
    }
    SilentLeast(sums);
    SilentLeast(loud[0..WINDOW]);
  }

  ghost predicate Ascends(wav: Samples, cuts: seq<nat>, i: int) {
    0 <= i < |cuts| - 1 ==> cuts[i] <= cuts[i + 1] <= |wav|
  }

  /** Every audio can be cut from every start. */
  lemma {:induction false} CutsExist(wav: Samples, longest: nat, start: nat) returns (cuts: seq<nat>)
    requires start <= |wav|
    ensures |cuts| >= 2 && cuts[0] == start && cuts[|cuts| - 1] == |wav|
    ensures forall i :: 0 <= i < |cuts| - 2 ==> CutAfter(wav, longest, cuts[i], cuts[i + 1])
    ensures forall i :: Ascends(wav, cuts, i)
    ensures |wav| <= cuts[|cuts| - 2] + longest
    decreases |wav| - start
  {
    if |wav| - start <= longest {
      cuts := [start, |wav|];
    } else {
      var cut := NextCut(wav, start, longest);
      var rest := CutsExist(wav, longest, cut);
      cuts := [start] + rest;
      forall i ensures Ascends(wav, cuts, i) {
        assert Ascends(wav, rest, i - 1) && Ascends(wav, rest, 0);
      }
      forall i | 0 <= i < |cuts| - 2 ensures CutAfter(wav, longest, cuts[i], cuts[i + 1]) {
        if i > 0 {
          assert CutAfter(wav, longest, rest[i - 1], rest[i]);
        }
      }
    }
  }

  lemma {:induction false} CutsMakeChunks(wav: Samples, maxSeconds: ChunkLength, cuts: seq<nat>)
    returns (chunks: seq<AudioChunk>)
    requires |wav| as real / RATE > maxSeconds
    requires SplitAt(wav, Longest(maxSeconds), cuts) && forall i :: Ascends(wav, cuts, i)
    ensures ChunkedAs(wav, maxSeconds, cuts, chunks)
  {
    chunks := seq(|cuts| - 1, i requires 0 <= i < |cuts| - 1 && Ascends(wav, cuts, i) =>
      AudioChunk(Padded(wav, cuts[i], cuts[i + 1]), cuts[i] as real / RATE));
    forall i | 0 <= i < |chunks| ensures PieceOf(wav, cuts[i], cuts[i + 1], chunks[i]) {
      assert Ascends(wav, cuts, i);
    }
  }

  /** Enough silence to need a second chunk is cut at the start of the search. */
  lemma {:induction false} SilenceChunks(maxSeconds: ChunkLength)
    returns (wav: Samples, cuts: seq<nat>, chunks: seq<AudioChunk>)
    ensures ChunkedAs(wav, maxSeconds, cuts, chunks)
    ensures |wav| as real / RATE > maxSeconds && |cuts| > 2 && cuts[1] == Max(Longest(maxSeconds) - EXPAND, 1)
  {
    var longest := Longest(maxSeconds);
    wav := Silence(longest + EXPAND + 1);
    assert |wav| as real > maxSeconds * RATE;
    cuts := CutsExist(wav, longest, 0);
    assert Ascends(wav, cuts, |cuts| - 2);
    chunks := CutsMakeChunks(wav, maxSeconds, cuts);
    assert |cuts| > 2;
    assert CutAfter(wav, longest, cuts[0], cuts[1]);
    SilentCut(wav, Max(0, longest - EXPAND), longest + EXPAND);
  }

  /** Windows are in order for every audio exactly when the longest chunk exceeds the search
      radius by at least the shortest input: 5.5 seconds. */
  lemma {:induction false} OrderedForEveryAudio(maxSeconds: ChunkLength)
    ensures (forall wav, cuts, chunks :: ChunkedAs(wav, maxSeconds, cuts, chunks) ==> OrderedWindows(chunks))
            <==> maxSeconds >= 5.5
  {
    assert Longest(maxSeconds) >= MINIMUM + EXPAND <==> maxSeconds >= 5.5;
    if maxSeconds >= 5.5 {
      forall wav, cuts, chunks | ChunkedAs(wav, maxSeconds, cuts, chunks) ensures OrderedWindows(chunks) {
        LongWindowsOrdered(wav, maxSeconds, cuts, chunks);
      }
    } else {
      var wav, cuts, chunks := SilenceChunks(maxSeconds);
      OrderedIffOnlyLastShort(wav, maxSeconds, cuts, chunks);
      assert cuts[1] - cuts[0] < MINIMUM;
    }
  }

  // ------------------------------------------------- the whole transcription

  /** What the recogniser and the aligner returned for a chunk that holds speech. */
  datatype Heard = Heard(text: string, report: PairedReport)

  function ReportOf(chunk: AudioChunk, heard: Heard): ChunkReport {
    ChunkReport(heard.text, chunk.offset, chunk.Seconds(), heard.report)
  }

  /** Input `k` is the report of chunk `kept[k]`; exactly the chunks with speech are kept. */
  ghost predicate ReportsOf(chunks: seq<AudioChunk>, heard: nat -> Option<Heard>, n: nat,
                            kept: seq<nat>, inputs: seq<ChunkReport>) {
    && |inputs| == |kept| && n <= |chunks|
    && (forall k :: 0 <= k < |kept| ==>
          kept[k] < n && heard(kept[k]).Some? && inputs[k] == ReportOf(chunks[kept[k]], heard(kept[k]).value))
    && (forall j, k :: 0 <= j < k < |kept| ==> kept[j] < kept[k])
    && (forall i: nat :: i < n && heard(i).Some? ==> i in kept)
  }

  /** No chunk with speech starts before an earlier one ends. */
  ghost predicate SpeechInOrder(chunks: seq<AudioChunk>, heard: nat -> Option<Heard>) {
    forall i: nat, j: nat :: i < j < |chunks| && heard(i).Some? && heard(j).Some? ==>
      chunks[i].offset + chunks[i].Seconds() <= chunks[j].offset
  }

  lemma {:induction false} ReportsInOrder(chunks: seq<AudioChunk>, heard: nat -> Option<Heard>,
                                          kept: seq<nat>, inputs: seq<ChunkReport>)
    requires ReportsOf(chunks, heard, |chunks|, kept, inputs)
    ensures InputsInOrder(inputs) <==> SpeechInOrder(chunks, heard)
  {
    if SpeechInOrder(chunks, heard) {
      forall j, k | 0 <= j < k < |inputs| ensures inputs[j].offset + inputs[j].duration <= inputs[k].offset {
        assert kept[j] < kept[k];
        assert chunks[kept[j]].offset + chunks[kept[j]].Seconds() <= chunks[kept[k]].offset;
      }
    }
    if InputsInOrder(inputs) {
      forall a: nat, b: nat | a < b < |chunks| && heard(a).Some? && heard(b).Some?
        ensures chunks[a].offset + chunks[a].Seconds() <= chunks[b].offset
      {
        var j :| 0 <= j < |kept| && kept[j] == a;
        var k :| 0 <= k < |kept| && kept[k] == b;
        assert inputs[j].offset + inputs[j].duration <= inputs[k].offset;
      }
    }
  }

  /** Every chunk with speech can be aligned. */
  ghost predicate SpeechAlignable(chunks: seq<AudioChunk>, heard: nat -> Option<Heard>,
                                  restore: bool, blank: string -> bool, lexical: char -> bool) {
    forall i: nat :: i < |chunks| && heard(i).Some? ==>
      Alignable(ReportOf(chunks[i], heard(i).value), restore, blank, lexical)
  }

  lemma {:induction false} AlignableReports(chunks: seq<AudioChunk>, heard: nat -> Option<Heard>,
                                            kept: seq<nat>, inputs: seq<ChunkReport>,
                                            restore: bool, blank: string -> bool, lexical: char -> bool)
    requires ReportsOf(chunks, heard, |chunks|, kept, inputs)
    ensures AllAlignable(inputs, restore, blank, lexical) <==> SpeechAlignable(chunks, heard, restore, blank, lexical)
  {
    if AllAlignable(inputs, restore, blank, lexical) {
      forall i: nat | i < |chunks| && heard(i).Some?
        ensures Alignable(ReportOf(chunks[i], heard(i).value), restore, blank, lexical)
      {
        var k :| 0 <= k < |kept| && kept[k] == i;
        assert Alignable(inputs[k], restore, blank, lexical);
      }
    }
  }

  /** Chunks without speech (blank or refused output) are skipped. */
  method CollectReports(chunks: seq<AudioChunk>, heard: nat -> Option<Heard>)
    returns (inputs: seq<ChunkReport>, ghost kept: seq<nat>)
    ensures ReportsOf(chunks, heard, |chunks|, kept, inputs)
    ensures exists k :: ReportsOf(chunks, heard, |chunks|, k, inputs)
  {
    inputs, kept := [], [];
    for i := 0 to |chunks|
      invariant ReportsOf(chunks, heard, i, kept, inputs)
    {
      var found := heard(i);
      if found.Some? {
        inputs := inputs + [ReportOf(chunks[i], found.value)];
        ghost var more := kept + [i];
        assert forall j: nat :: j in kept ==> j in more;
        assert i in more;
        kept := more;
      }
    }
  }

  /** The published chunks are those of the chunks with speech, in order. */
  ghost predicate RecordingOf(chunks: seq<AudioChunk>, heard: nat -> Option<Heard>, restore: bool,
                              blank: string -> bool, lexical: char -> bool, recording: seq<Chunk>) {
    exists kept, inputs ::
      ReportsOf(chunks, heard, |chunks|, kept, inputs) && ChunksFrom(inputs, restore, blank, lexical, recording)
  }

  /** A recording is published exactly when every chunk with speech aligns and none runs into a
      later one; it is sound and lists those chunks. */
  ghost predicate TranscriptionOf(chunks: seq<AudioChunk>, heard: nat -> Option<Heard>, restore: bool,
                                  blank: string -> bool, lexical: char -> bool, r: Option<seq<Chunk>>) {
    && (r.Some? <==> SpeechAlignable(chunks, heard, restore, blank, lexical) && SpeechInOrder(chunks, heard))
    && (r.Some? ==> SoundRecording(r.value) && RecordingOf(chunks, heard, restore, blank, lexical, r.value))
  }

  /** The recording of a transcription: split, recognise, align, append. With windows of at
      least 5.5 seconds order never stops it. */
  method TranscribeRecording(wav: Samples, maxSeconds: ChunkLength, heard: nat -> Option<Heard>,
                             restore: bool, blank: string -> bool, lexical: char -> bool)
    returns (r: Option<seq<Chunk>>)
    ensures forall cuts, chunks :: ChunkedAs(wav, maxSeconds, cuts, chunks) ==>
              TranscriptionOf(chunks, heard, restore, blank, lexical, r)
    ensures maxSeconds >= 5.5 ==> forall cuts, chunks :: ChunkedAs(wav, maxSeconds, cuts, chunks) ==>
              (r.Some? <==> SpeechAlignable(chunks, heard, restore, blank, lexical))
  {
    var split;
    ghost var at;
    split, at := SplitAudio(wav, maxSeconds);
    var inputs;
    ghost var kept;
    inputs, kept := CollectReports(split, heard);
    AlignableReports(split, heard, kept, inputs, restore, blank, lexical);
    ReportsInOrder(split, heard, kept, inputs);
    r := AssembleRecording(inputs, restore, blank, lexical);
    assert TranscriptionOf(split, heard, restore, blank, lexical, r);
    OrderedForEveryAudio(maxSeconds);
    forall cuts, chunks | ChunkedAs(wav, maxSeconds, cuts, chunks) ensures chunks == split {
      SplitUnique(wav, maxSeconds, cuts, chunks, at, split);
    }
  }
}
