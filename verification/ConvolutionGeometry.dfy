/** Frame arithmetic of the aligners: the shortest input of a convolution chain, the audio
    token windows of Qwen, and Whisper's plan against what its executor checks. */
module ConvolutionGeometry {
  import opened Outcomes
  import opened Numbers

  type Positive = x: int | x > 0 witness 1

  /** One time-axis convolution. */
  datatype Convolution = Convolution(padding: int, dilation: int, kernel: int, stride: Positive) {
    /** The input width one output frame sees. */
    function Receptive(): int { dilation * (kernel - 1) + 1 }

    /** The forward formula; the stride is positive, so division is floor division. */
    function Output(frames: int): int
    {
      (frames + 2 * padding - dilation * (kernel - 1) - 1) / stride + 1
    }
  }

  /** Every stage of the chain yields at least one frame. */
  ghost predicate YieldsFrames(chain: seq<Convolution>, n: int)
  {
    chain == [] || (chain[0].Output(n) >= 1 && YieldsFrames(chain[1..], chain[0].Output(n)))
  }

  /** The backward pass over the chain. */
  function MinimumInput(chain: seq<Convolution>): int {
    if chain == [] then 1
    else Max(1, (MinimumInput(chain[1..]) - 1) * chain[0].stride + chain[0].Receptive() - 2 * chain[0].padding)
  }

  lemma {:induction false} ProductOrder(a: int, b: int, c: int)
    requires a <= b && c >= 0
    ensures a * c <= b * c
  {
    assert (b - a) * c >= 0;
  }

  lemma {:induction false} DivAtLeast(x: int, s: Positive, q: int)
    ensures x / s >= q <==> x >= q * s
  {
    var d := x / s;
    assert d * s <= x < d * s + s;
    if d >= q {
      ProductOrder(q, d, s);
    } else {
      ProductOrder(d + 1, q, s);
    }
  }

  /** A stage yields `m` frames exactly from the width the backward step asks for. */
  lemma {:induction false} OutputAtLeast(c: Convolution, n: int, m: int)
    ensures c.Output(n) >= m <==> n >= (m - 1) * c.stride + c.Receptive() - 2 * c.padding
  {
    DivAtLeast(n + 2 * c.padding - c.dilation * (c.kernel - 1) - 1, c.stride, m - 1);
  }

  /** `minimum_samples` is exact: an input of at least one sample yields a frame at every
      stage if and only if it has that many samples. */
  lemma {:induction false} MinimumInputExact(chain: seq<Convolution>, n: int)
    requires n >= 1
    ensures YieldsFrames(chain, n) <==> n >= MinimumInput(chain)
    decreases |chain|
  {
    if chain != [] {
      var first, rest := chain[0], chain[1..];
      OutputAtLeast(first, n, MinimumInput(rest));
      OutputAtLeast(first, n, 1);
      if first.Output(n) >= 1 {
        MinimumInputExact(rest, first.Output(n));
      }
    }
  }

  /** `MmsFeatureGeometry.read`: the reversed loop; an empty chain is refused. */
  method MinimumSamples(chain: seq<Convolution>) returns (r: Option<int>)
    ensures r.Some? <==> chain != []
    ensures r.Some? ==> r.value == MinimumInput(chain)
    ensures r.Some? ==> forall n :: n >= 1 ==> (YieldsFrames(chain, n) <==> n >= r.value)
  {
    if chain == [] {
      return None;
    }
    var minimum := 1;
    var i := |chain|;
    while i > 0
      invariant 0 <= i <= |chain| && minimum == MinimumInput(chain[i..])
    {
      i := i - 1;
      assert chain[i..][1..] == chain[i + 1..];
      var receptive := chain[i].dilation * (chain[i].kernel - 1) + 1;
      minimum := Max(1, (minimum - 1) * chain[i].stride + receptive - 2 * chain[i].padding);
    }
    assert chain[0..] == chain;
    forall n | n >= 1 ensures YieldsFrames(chain, n) <==> n >= minimum {
      MinimumInputExact(chain, n);
    }
    return Some(minimum);
  }

  // ---------------------------------------------------------------- Qwen

  /** Frames after the chain, without the zero-frame shortcut. */
  function Through(chain: seq<Convolution>, frames: int): int
  {
    if chain == [] then frames else Through(chain[1..], chain[0].Output(frames))
  }

  function After(chain: seq<Convolution>, frames: int): int
  {
    if frames == 0 then 0 else Through(chain, frames)
  }

  /** `after_convolutions`. */
  method AfterConvolutions(chain: seq<Convolution>, frames: int) returns (r: int)
    ensures r == After(chain, frames)
    ensures if frames == 0 then r == 0 else exists counts :: Counted(chain, frames, counts) && r == counts[|chain|]
  {
    if frames == 0 {
      return 0;
    }
    r := frames;
    ghost var counts := [frames];
    for i := 0 to |chain|
      invariant Through(chain[i..], r) == Through(chain, frames)
      invariant |counts| == i + 1 && counts[0] == frames && counts[i] == r
      invariant forall j :: 0 <= j < i ==> Convolves(chain[j], counts[j], counts[j + 1])
    {
      assert chain[i..][0] == chain[i] && chain[i..][1..] == chain[i + 1..];
      OutputConvolves(chain[i], r);
      r := chain[i].Output(r);
      counts := counts + [r];
    }
    assert Counted(chain, frames, counts);
  }

  /** `m` is the number of places the kernel has on `n` padded frames: the last one fits and
      another stride would not. */
  ghost predicate Convolves(c: Convolution, n: int, m: int) {
    var room := n + 2 * c.padding - (c.dilation * (c.kernel - 1) + 1);
    (m - 1) * c.stride <= room < m * c.stride
  }

  /** The frame counts before the chain and after each stage. */
  ghost predicate Counted(chain: seq<Convolution>, frames: int, counts: seq<int>) {
    && |counts| == |chain| + 1 && counts[0] == frames
    && (forall j :: 0 <= j < |chain| ==> Convolves(chain[j], counts[j], counts[j + 1]))
  }

  lemma {:induction false} OutputConvolves(c: Convolution, n: int)
    ensures Convolves(c, n, c.Output(n))
  {
    var room := n + 2 * c.padding - c.dilation * (c.kernel - 1) - 1;
    DivAtLeast(room, c.stride, c.Output(n) - 1);
    DivAtLeast(room, c.stride, c.Output(n));
  }

  lemma {:induction false} ThroughMonotone(chain: seq<Convolution>, a: int, b: int)
    requires a <= b
    ensures Through(chain, a) <= Through(chain, b)
    decreases |chain|
  {
    if chain != [] {
      OutputAtLeast(chain[0], a, chain[0].Output(a));
      OutputAtLeast(chain[0], b, chain[0].Output(a));
      ThroughMonotone(chain[1..], chain[0].Output(a), chain[0].Output(b));
    }
  }

  /** Floor division and its remainder, as the runtime's `divmod`. */
  function FloorDiv(a: int, b: int): int
    requires b != 0
  {
    if b > 0 then a / b else (-a) / (-b)
  }

  function Repeated(value: int, count: int): seq<int> {
    if count <= 0 then [] else [value] + Repeated(value, count - 1)
  }

  function Sum(s: seq<int>): int {
    if s == [] then 0 else s[0] + Sum(s[1..])
  }

  /** Attention windows: full ones, then the remainder if it is not zero. */
  function Windows(tokens: int, window: int): seq<int>
    requires window != 0
  {
    var complete := FloorDiv(tokens, window);
    var remainder := tokens - complete * window;
    Repeated(window, complete) + (if remainder != 0 then [remainder] else [])
  }

  lemma {:induction false} RepeatedFacts(value: int, count: int, tail: seq<int>)
    ensures Sum(Repeated(value, count) + tail) == Max(count, 0) * value + Sum(tail)
    ensures forall i :: 0 <= i < |Repeated(value, count)| ==> Repeated(value, count)[i] == value
    decreases count
  {
    if count <= 0 {
      assert Repeated(value, count) + tail == tail;
    } else {
      RepeatedFacts(value, count - 1, tail);
      var all := Repeated(value, count) + tail;
      assert all[1..] == Repeated(value, count - 1) + tail;
      assert (count - 1) * value + value == count * value;
    }
  }

  /** For a positive window size every window but the last is full, the last is positive and no
      larger, and they make up the token count exactly when that count is not negative. */
  lemma {:induction false} WindowsPartition(tokens: int, window: Positive)
    ensures forall i :: 0 <= i < |Windows(tokens, window)| ==> 0 < Windows(tokens, window)[i] <= window
    ensures forall i :: 0 <= i < |Windows(tokens, window)| - 1 ==> Windows(tokens, window)[i] == window
    ensures Sum(Windows(tokens, window)) == tokens <==> tokens >= 0
  {
    var complete := FloorDiv(tokens, window);
    var remainder := tokens - complete * window;
    assert 0 <= remainder < window by {
      assert tokens == window * (tokens / window) + tokens % window;
    }
    var tail := if remainder != 0 then [remainder] else [];
    RepeatedFacts(window, complete, tail);
    assert Sum(tail) == remainder;
    DivAtLeast(tokens, window, 0);
    if complete < 0 {
      ProductOrder(complete, -1, window);
    }
  }

  datatype QwenGeometry = QwenGeometry(hop: Positive, fftSize: Positive, minimumSamples: nat, chunkFrames: Positive,
                                       inferenceFrames: Positive, convolutions: seq<Convolution>)

  /** The admitted geometry: whole chunks per inference window. */
  ghost predicate AdmittedGeometry(g: QwenGeometry) {
    g.inferenceFrames >= g.chunkFrames && g.inferenceFrames % g.chunkFrames == 0
  }

  datatype QwenPlan = QwenPlan(melFrames: int, paddedFrames: int, tokens: int, windows: seq<int>)

  datatype QwenRefusal = TooShort | TokensDisagree | NoAttentionWindow

  /** The count arithmetic of `_from_loaded`; `observed` is the processor's own token count, and
      a zero attention window is the division error it raises. */
  method PlanWindows(g: QwenGeometry, samples: int, observed: int) returns (r: Result<QwenPlan, QwenRefusal>)
    requires AdmittedGeometry(g)
    ensures r == Err(TooShort) <==> Max(samples, g.minimumSamples) < Max(g.fftSize / 2 + 1, g.hop)
    ensures r.Ok? ==> PlanFor(g, Max(samples, g.minimumSamples) / g.hop, r.value)
    ensures r == Err(TokensDisagree) <==>
            Max(samples, g.minimumSamples) >= Max(g.fftSize / 2 + 1, g.hop)
            && observed != TokenCount(g, Max(samples, g.minimumSamples) / g.hop)
    ensures r == Err(NoAttentionWindow) ==> WindowSize(g, Max(samples, g.minimumSamples) / g.hop) == 0
    ensures Through(g.convolutions, 1) > 0 ==> r != Err(NoAttentionWindow)
  {
    var effective := Max(samples, g.minimumSamples);
    if effective < Max(g.fftSize / 2 + 1, g.hop) {
      return Err(TooShort);
    }
    var frames := effective / g.hop;
    DivAtLeast(effective, g.hop, 1);
    var padded := ((frames + g.chunkFrames - 1) / g.chunkFrames) * g.chunkFrames;
    var fullChunks, lastFrames := frames / g.chunkFrames, frames % g.chunkFrames;
    var chunkTokens := AfterConvolutions(g.convolutions, g.chunkFrames);
    var lastTokens := AfterConvolutions(g.convolutions, lastFrames);
    var tokens := fullChunks * chunkTokens + lastTokens;
    if observed != tokens {
      return Err(TokensDisagree);
    }
    var maximumChunk := AfterConvolutions(g.convolutions, Min(frames, g.chunkFrames));
    var window := maximumChunk * (g.inferenceFrames / g.chunkFrames);
    AttentionWindow(g, frames);
    if window == 0 {
      return Err(NoAttentionWindow);
    }
    return Ok(QwenPlan(frames, padded, tokens, Windows(tokens, window)));
  }

  function TokenCount(g: QwenGeometry, frames: int): int
  {
    (frames / g.chunkFrames) * After(g.convolutions, g.chunkFrames) + After(g.convolutions, frames % g.chunkFrames)
  }

  function WindowSize(g: QwenGeometry, frames: int): int
  {
    After(g.convolutions, Min(frames, g.chunkFrames)) * (g.inferenceFrames / g.chunkFrames)
  }

  ghost predicate PlanFor(g: QwenGeometry, frames: int, plan: QwenPlan)
  {
    && frames >= 1 && plan.melFrames == frames
    && plan.paddedFrames == ((frames + g.chunkFrames - 1) / g.chunkFrames) * g.chunkFrames
    && plan.tokens == TokenCount(g, frames)
    && WindowSize(g, frames) != 0 && plan.windows == Windows(plan.tokens, WindowSize(g, frames))
  }

  /** When one frame convolves to a positive length, so does every part of a chunk, and the
      attention window is positive. */
  lemma {:induction false} AttentionWindow(g: QwenGeometry, frames: int)
    requires AdmittedGeometry(g) && frames >= 1
    ensures Through(g.convolutions, 1) > 0 ==> WindowSize(g, frames) > 0 && TokenCount(g, frames) > 0
  {
    if Through(g.convolutions, 1) > 0 {
      ThroughMonotone(g.convolutions, 1, Min(frames, g.chunkFrames));
      DivAtLeast(g.inferenceFrames, g.chunkFrames, 1);
      TokensPositive(g, frames);
    }
  }

  lemma {:induction false} TokensPositive(g: QwenGeometry, frames: int)
    requires frames >= 1 && Through(g.convolutions, 1) > 0
    ensures TokenCount(g, frames) > 0
  {
    var full, last, steps := frames / g.chunkFrames, frames % g.chunkFrames, After(g.convolutions, g.chunkFrames);
    ThroughMonotone(g.convolutions, 1, g.chunkFrames);
    DivAtLeast(frames, g.chunkFrames, 0);
    ProductOrder(0, full, steps);
    if last > 0 {
      ThroughMonotone(g.convolutions, 1, last);
    } else {
      DivAtLeast(frames, g.chunkFrames, 1);
    }
  }

  /** The padded length is the least multiple of the chunk that covers the frames. */
  lemma {:induction false} PaddedIsLeast(g: QwenGeometry, frames: int, plan: QwenPlan, chunks: int)
    requires PlanFor(g, frames, plan)
    ensures frames <= plan.paddedFrames
    ensures chunks * g.chunkFrames >= frames ==> plan.paddedFrames <= chunks * g.chunkFrames
  {
    LeastChunks(frames, g.chunkFrames, chunks);
  }

  /** The frames in whole chunks and a last one that is not empty, and what each convolves to. */
  ghost predicate InChunks(g: QwenGeometry, frames: int, lengths: seq<int>, steps: seq<int>) {
    && |lengths| == |steps| > 0 && Sum(lengths) == frames
    && (forall i :: 0 <= i < |lengths| - 1 ==> lengths[i] == g.chunkFrames)
    && 0 < lengths[|lengths| - 1] <= g.chunkFrames
    && (forall i :: 0 <= i < |lengths| ==> steps[i] == Through(g.convolutions, lengths[i]))
  }

  /** The token count is what the chunks convolve to, one by one, and the attention window is
      the first chunk's share for as many chunks as one inference window holds. */
  lemma {:induction false} TokensByChunk(g: QwenGeometry, frames: int) returns (lengths: seq<int>, steps: seq<int>)
    requires frames >= 1
    ensures InChunks(g, frames, lengths, steps) && Sum(steps) == TokenCount(g, frames)
    ensures WindowSize(g, frames) == steps[0] * (g.inferenceFrames / g.chunkFrames)
    decreases frames
  {
    var c: int := g.chunkFrames;
    if frames <= c {
      lengths, steps := [frames], [Through(g.convolutions, frames)];
      OneChunk(frames, g.chunkFrames);
      assert Sum(lengths) == frames + Sum(lengths[1..]) && Sum(steps) == steps[0] + Sum(steps[1..]);
    } else {
      var l, s := TokensByChunk(g, frames - c);
      lengths, steps := [c] + l, [Through(g.convolutions, c)] + s;
      assert lengths[1..] == l && steps[1..] == s;
      MoreChunks(frames, g.chunkFrames, After(g.convolutions, c));
    }
  }

  lemma {:induction false} OneChunk(frames: int, c: Positive)
    requires 1 <= frames <= c
    ensures if frames == c then frames / c == 1 && frames % c == 0 else frames / c == 0 && frames % c == frames
  {
  }

  lemma {:induction false} MoreChunks(frames: int, c: Positive, steps: int)
    requires frames > c
    ensures frames % c == (frames - c) % c && (frames / c) * steps == (frames - c) / c * steps + steps
  {
    var q := (frames - c) / c;
    DivAtLeast(frames, c, q + 1);
    DivAtLeast(frames, c, q + 2);
    DivAtLeast(frames - c, c, q);
    DivAtLeast(frames - c, c, q + 1);
    assert frames / c == q + 1;
  }

  lemma {:induction false} LeastChunks(frames: int, c: Positive, chunks: int)
    ensures frames <= (frames + c - 1) / c * c
    ensures chunks * c >= frames ==> (frames + c - 1) / c * c <= chunks * c
  {
    var q := (frames + c - 1) / c;
    DivAtLeast(frames + c - 1, c, q + 1);
    DivAtLeast(frames + c - 1, c, chunks + 1);
    if q <= chunks {
      ProductOrder(q, chunks, c);
    }
  }

  /** The audio tokens fit the chunks' steps. Once a part of a chunk convolves to a positive
      length the windows are positive and bounded, and make up the tokens exactly when those
      are not negative, which they are when a single frame convolves to a positive length. */
  lemma {:induction false} PlanIsConsistent(g: QwenGeometry, frames: int, plan: QwenPlan)
    requires AdmittedGeometry(g) && PlanFor(g, frames, plan)
    ensures plan.tokens <= (plan.paddedFrames / g.chunkFrames) * After(g.convolutions, g.chunkFrames)
    ensures WindowSize(g, frames) > 0 ==>
              && (forall i :: 0 <= i < |plan.windows| ==> 0 < plan.windows[i] <= WindowSize(g, frames))
              && (Sum(plan.windows) == plan.tokens <==> plan.tokens >= 0)
    ensures WindowSize(g, frames) > 0 <==> After(g.convolutions, Min(frames, g.chunkFrames)) > 0
    ensures Through(g.convolutions, 1) > 0 ==> WindowSize(g, frames) > 0 && plan.tokens > 0
  {
    AttentionWindow(g, frames);
    DivAtLeast(g.inferenceFrames, g.chunkFrames, 1);
    if WindowSize(g, frames) > 0 {
      WindowsPartition(plan.tokens, WindowSize(g, frames));
    }
    TokensFit(g, frames);
    ChunkCount(frames, g.chunkFrames);
  }

  /** The last, partial chunk yields no more than a whole one. */
  lemma {:induction false} TokensFit(g: QwenGeometry, frames: int)
    requires frames >= 1
    ensures TokenCount(g, frames) <=
            ((frames + g.chunkFrames - 1) / g.chunkFrames) * After(g.convolutions, g.chunkFrames)
  {
    var c, steps := g.chunkFrames, After(g.convolutions, g.chunkFrames);
    var full, last := frames / c, frames % c;
    ChunkCount(frames, c);
    if last > 0 {
      ThroughMonotone(g.convolutions, last, c);
      assert (full + 1) * steps == full * steps + steps;
    }
  }

  /** The padded length holds one chunk for every full one and one for a remainder. */
  lemma {:induction false} ChunkCount(frames: nat, c: Positive)
    ensures (frames + c - 1) / c == frames / c + if frames % c > 0 then 1 else 0
    ensures ((frames + c - 1) / c * c) / c == (frames + c - 1) / c
  {
    var full, last := frames / c, frames % c;
    assert frames == full * c + last;
    var chunks := full + if last > 0 then 1 else 0;
    DivAtLeast(frames + c - 1, c, chunks);
    DivAtLeast(frames + c - 1, c, chunks + 1);
    DivAtLeast(chunks * c, c, chunks);
    DivAtLeast(chunks * c, c, chunks + 1);
  }

  // ------------------------------------------------------------- Whisper

  datatype WhisperGeometry = WhisperGeometry(sampleRate: Positive, hop: Positive, sourceSamples: Positive,
                                             encoderStride: Positive, encoderFrames: Positive)

  function MaximumSamples(g: WhisperGeometry): int {
    Min(g.sourceSamples, g.encoderFrames * g.encoderStride * g.hop)
  }

  /** The sample counts `prepare` does not refuse. */
  predicate Planned(g: WhisperGeometry, samples: int) {
    g.hop * g.encoderStride <= samples <= MaximumSamples(g)
  }

  /** Encoder frames the executor counts, always at stride two. */
  function ExecutorFrames(hop: Positive, samples: int): int
  {
    samples / hop / 2
  }

  /** The executor's frame checks against attention of `columns` frames. */
  predicate Executes(hop: Positive, samples: int, columns: int)
  {
    0 < ExecutorFrames(hop, samples) <= columns
  }

  lemma {:induction false} FramesAtLeast(hop: Positive, samples: int, k: int)
    ensures ExecutorFrames(hop, samples) >= k <==> samples >= 2 * k * hop
  {
    DivAtLeast(samples / hop, 2, k);
    DivAtLeast(samples, hop, 2 * k);
  }

  /** Every planned sample count passes the executor exactly when the plan is empty, or the
      encoder stride is at least two and the longest plan fits the attention. */
  lemma {:induction false} PlanImpliesExecution(g: WhisperGeometry)
    ensures (forall samples :: Planned(g, samples) ==> Executes(g.hop, samples, g.encoderFrames))
            <==> (MaximumSamples(g) < g.hop * g.encoderStride
                  || (g.encoderStride >= 2 && ExecutorFrames(g.hop, MaximumSamples(g)) <= g.encoderFrames))
  {
    var least, most := g.hop * g.encoderStride, MaximumSamples(g);
    if least <= most {
      if g.encoderStride >= 2 && ExecutorFrames(g.hop, most) <= g.encoderFrames {
        forall samples | Planned(g, samples) ensures Executes(g.hop, samples, g.encoderFrames) {
          LongestPlanCovers(g, samples);
        }
      } else {
        assert Planned(g, least) && Planned(g, most);
        StrideOneTooShort(g);
      }
    }
  }

  lemma {:induction false} LongestPlanCovers(g: WhisperGeometry, samples: int)
    requires g.encoderStride >= 2 && Planned(g, samples)
    requires ExecutorFrames(g.hop, MaximumSamples(g)) <= g.encoderFrames
    ensures Executes(g.hop, samples, g.encoderFrames)
  {
    ProductOrder(2, g.encoderStride, g.hop);
    FramesAtLeast(g.hop, samples, 1);
    FramesAtLeast(g.hop, samples, g.encoderFrames + 1);
    FramesAtLeast(g.hop, MaximumSamples(g), g.encoderFrames + 1);
  }

  lemma {:induction false} StrideOneTooShort(g: WhisperGeometry)
    ensures g.encoderStride == 1 ==> !Executes(g.hop, g.hop * g.encoderStride, g.encoderFrames)
  {
    FramesAtLeast(g.hop, g.hop, 1);
  }

  /** For the encoder stride two of Whisper, planning implies execution. */
  lemma {:induction false} StrideTwoExecutes(g: WhisperGeometry, samples: int)
    requires g.encoderStride == 2 && Planned(g, samples)
    ensures Executes(g.hop, samples, g.encoderFrames)
  {
    FramesAtLeast(g.hop, samples, 1);
    FramesAtLeast(g.hop, samples, g.encoderFrames + 1);
    assert g.encoderFrames * 2 * g.hop + 2 * g.hop == 2 * (g.encoderFrames + 1) * g.hop;
  }

  /** Token times of an alignment: zero for the prefix, then the frame index in seconds. */
  function TimedTokens(prefix: nat, indices: seq<int>, hop: Positive, rate: Positive): seq<real>
  {
    seq(prefix, _ => 0.0) + seq(|indices|, i requires 0 <= i < |indices| => Time(indices[i], hop, rate))
  }

  /** The time of one encoder frame. */
  function Time(index: int, hop: Positive, rate: Positive): real
  {
    index as real * (2 * hop) as real / rate as real
  }

  /** The row cover and frame bounds the executor checks before it writes times. */
  ghost predicate AdmittedIndices(rows: seq<int>, indices: seq<int>, labels: int, frames: int) {
    && |rows| == labels && (forall i :: 0 <= i < |rows| ==> rows[i] == i) && |indices| == |rows|
    && (forall i :: 0 <= i < |indices| ==> 0 <= indices[i] < frames)
    && (forall i :: 1 <= i < |indices| ==> indices[i - 1] <= indices[i])
  }

  /** `timed_tokens` for `labels` decoder labels after the prefix: the path's rows must be
      every label once, in order. */
  method TimeTokens(prefix: nat, labels: nat, rows: seq<int>, indices: seq<int>, hop: Positive, rate: Positive,
                    samples: int)
    returns (r: Option<seq<real>>)
    ensures r.Some? <==> AdmittedIndices(rows, indices, labels, ExecutorFrames(hop, samples))
    ensures r.Some? ==> ExactTimes(prefix, indices, hop, rate, r.value)
    ensures r.Some? ==> r.value == TimedTokens(prefix, indices, hop, rate)
  {
    var frames := ExecutorFrames(hop, samples);
    if |rows| != labels || |indices| != |rows| {
      return None;
    }
    for i := 0 to |rows|
      invariant forall j :: 0 <= j < i ==> rows[j] == j
    {
      if rows[i] != i {
        return None;
      }
    }
    for i := 0 to |indices|
      invariant forall j :: 0 <= j < i ==> 0 <= indices[j] < frames
      invariant forall j :: 1 <= j < i ==> indices[j - 1] <= indices[j]
    {
      if indices[i] < 0 || indices[i] >= frames || (i > 0 && indices[i] < indices[i - 1]) {
        return None;
      }
    }
    TimesAreExact(prefix, indices, hop, rate);
    return Some(TimedTokens(prefix, indices, hop, rate));
  }

  /** Zero seconds on the prefix; then each frame index times two hops, divided by the rate. */
  ghost predicate ExactTimes(prefix: nat, indices: seq<int>, hop: Positive, rate: Positive, times: seq<real>) {
    && |times| == prefix + |indices| && (forall k :: 0 <= k < prefix ==> times[k] == 0.0)
    && (forall i :: 0 <= i < |indices| ==> times[prefix + i] * rate as real == (indices[i] * 2 * hop) as real)
  }

  lemma {:induction false} TimesAreExact(prefix: nat, indices: seq<int>, hop: Positive, rate: Positive)
    ensures ExactTimes(prefix, indices, hop, rate, TimedTokens(prefix, indices, hop, rate))
  {
    var times := TimedTokens(prefix, indices, hop, rate);
    forall i | 0 <= i < |indices| ensures times[prefix + i] * rate as real == (indices[i] * 2 * hop) as real {
      TimeIsExact(indices[i], hop, rate);
    }
  }

  lemma {:induction false} TimeIsExact(index: int, hop: Positive, rate: Positive)
    ensures Time(index, hop, rate) * rate as real == (index * 2 * hop) as real
  {
    var width: int := 2 * hop;
    assert index as real * width as real == (index * width) as real;
    assert index * width == index * 2 * hop;
  }

  lemma DivOrder(a: real, b: real, c: real)
    requires a <= b && c > 0.0
    ensures a / c <= b / c
    ensures a < b ==> a / c < b / c
  {
  }

  /** A frame that the executor counts starts before the audio ends. */
  lemma {:induction false} TimeBefore(index: int, hop: Positive, rate: Positive, samples: int)
    requires 0 <= index < ExecutorFrames(hop, samples)
    ensures 0.0 <= Time(index, hop, rate) < samples as real / rate as real
  {
    FrameStartsBefore(index, hop, samples);
    DivOrder(index as real * (2 * hop) as real, samples as real, rate as real);
    TimeOrder(0, index, hop, rate);
  }

  lemma {:induction false} TimeOrder(i: int, j: int, hop: Positive, rate: Positive)
    requires i <= j
    ensures Time(i, hop, rate) <= Time(j, hop, rate)
  {
    var width := (2 * hop) as real;
    assert (j as real - i as real) * width >= 0.0;
    DivOrder(i as real * width, j as real * width, rate as real);
  }

  lemma {:induction false} FrameStartsBefore(index: int, hop: Positive, samples: int)
    requires 0 <= index < ExecutorFrames(hop, samples)
    ensures index as real * (2 * hop) as real < samples as real
  {
    FramesAtLeast(hop, samples, index + 1);
  }

  /** Every token time is zero on the prefix, nonnegative, before the end of the audio, and
      no earlier than the one before it. */
  lemma {:induction false} TimesInsideAudio(prefix: nat, rows: seq<int>, indices: seq<int>, labels: nat,
                                            hop: Positive, rate: Positive, samples: int, k: nat)
    requires samples > 0
    requires AdmittedIndices(rows, indices, labels, ExecutorFrames(hop, samples)) && k < prefix + labels
    ensures var times := TimedTokens(prefix, indices, hop, rate);
            && (k < prefix ==> times[k] == 0.0)
            && 0.0 <= times[k] < samples as real / rate as real
            && (k > 0 ==> times[k - 1] <= times[k])
  {
    if k < prefix {
      DivOrder(0.0, samples as real, rate as real);
    } else {
      TimeBefore(indices[k - prefix], hop, rate, samples);
      if k > prefix {
        TimeOrder(indices[k - prefix - 1], indices[k - prefix], hop, rate);
      }
    }
  }
}
