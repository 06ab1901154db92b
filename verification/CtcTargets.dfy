/** Label targets of the MMS aligner: building them from words, partitioning the
    native spans by word, and admitting an encoder shape that can hold them. */
module CtcTargets {
  import opened Outcomes
  import opened Sequences
  import opened CtcPaths

  datatype Alphabet = Alphabet(ids: map<char, int>, wildcard: int)

  const WILDCARD := '*'

  /** `MmsAlphabet.admit`. */
  method AdmitAlphabet(dictionary: map<char, int>) returns (r: Option<Alphabet>)
    ensures r.Some? <==> (forall c :: c in dictionary ==> dictionary[c] >= 0)
                         && WILDCARD in dictionary && dictionary[WILDCARD] > 0
    ensures r.Some? ==> ValidAlphabet(r.value) && r.value.ids == dictionary
  {
    if exists c | c in dictionary :: dictionary[c] < 0 {
      return None;
    }
    if WILDCARD !in dictionary || dictionary[WILDCARD] <= 0 {
      return None;
    }
    return Some(Alphabet(dictionary, dictionary[WILDCARD]));
  }

  predicate ValidAlphabet(a: Alphabet) {
    && (forall c :: c in a.ids ==> a.ids[c] >= 0)
    && WILDCARD in a.ids && a.wildcard == a.ids[WILDCARD] > 0
  }

  datatype WildcardSymbol = WildcardSymbol(word: nat, symbol: char)
  datatype TargetWord = TargetWord(source: string, ids: seq<int>)
  datatype Targets = Targets(words: seq<TargetWord>, wildcards: seq<WildcardSymbol>, blankOnly: seq<nat>)

  /** The label a symbol stands for: the dictionary's entry, or the wildcard's. */
  ghost predicate Stands(a: Alphabet, symbol: char, id: int) {
    id == if symbol in a.ids then a.ids[symbol] else a.wildcard
  }

  /** `ps` lists the symbols that are not skipped: all but those whose entry is 0. */
  ghost predicate Lettered(a: Alphabet, symbols: string, ps: seq<nat>) {
    && Increasing(ps)
    && (forall k: nat :: k in ps <==> k < |symbols| && !(symbols[k] in a.ids && a.ids[symbols[k]] == 0))
  }

  /** The labels stand for the listed symbols, one by one. */
  ghost predicate Spelled(a: Alphabet, symbols: string, ps: seq<nat>, ids: seq<int>) {
    && Lettered(a, symbols, ps) && |ids| == |ps|
    && (forall j :: 0 <= j < |ps| ==> ps[j] < |symbols| && Stands(a, symbols[ps[j]], ids[j]))
  }

  /** Every symbol has the entry 0. */
  ghost predicate AllBlank(a: Alphabet, symbols: string) {
    forall k :: 0 <= k < |symbols| ==> symbols[k] in a.ids && a.ids[symbols[k]] == 0
  }

  /** A word's labels: those of its symbols, or the wildcard alone if all are blank. */
  ghost predicate LabelsOf(a: Alphabet, symbols: string, ids: seq<int>) {
    if AllBlank(a, symbols) then ids == [a.wildcard] else exists ps :: Spelled(a, symbols, ps, ids)
  }

  /** A symbol of a word list: the word's position, and the symbol's in the word. */
  datatype Place = Place(word: nat, at: nat)

  ghost predicate Earlier(p: Place, q: Place) {
    p.word < q.word || (p.word == q.word && p.at < q.at)
  }

  ghost predicate InReadingOrder(places: seq<Place>) {
    forall i, j :: 0 <= i < j < |places| ==> Earlier(places[i], places[j])
  }

  /** `p` is a symbol of one of the words that the dictionary lacks. */
  ghost predicate Lacking(a: Alphabet, words: seq<string>, lower: string -> string, p: Place) {
    p.word < |words| && p.at < |lower(words[p.word])| && lower(words[p.word])[p.at] !in a.ids
  }

  /** The records name, in reading order, exactly the symbols the dictionary lacks, before
      symbol `limit` of the last word. */
  ghost predicate Recorded(a: Alphabet, words: seq<string>, lower: string -> string, limit: Place,
                           places: seq<Place>, records: seq<WildcardSymbol>) {
    && InReadingOrder(places) && |records| == |places|
    && (forall p :: p in places <==> Lacking(a, words, lower, p) && Earlier(p, limit))
    && (forall j :: 0 <= j < |places| ==>
          Lacking(a, words, lower, places[j])
          && records[j] == WildcardSymbol(places[j].word, lower(words[places[j].word])[places[j].at]))
  }

  /** The flat label sequence, `ids` of the source. */
  function Ids(words: seq<TargetWord>): seq<int> {
    if words == [] then [] else Ids(words[..|words| - 1]) + words[|words| - 1].ids
  }

  ghost predicate OwnsLabels(w: TargetWord) {
    w.ids != [] && forall i :: 0 <= i < |w.ids| ==> w.ids[i] > 0
  }

  lemma {:induction false} SpelledPositive(a: Alphabet, symbols: string, ps: seq<nat>, ids: seq<int>)
    requires ValidAlphabet(a) && Spelled(a, symbols, ps, ids)
    ensures forall j :: 0 <= j < |ids| ==> ids[j] > 0
    ensures ids == [] <==> AllBlank(a, symbols)
  {
    forall j | 0 <= j < |ids| ensures ids[j] > 0 {
      assert ps[j] in ps;
    }
    if ps != [] {
      assert ps[0] in ps;
    }
    if !AllBlank(a, symbols) {
      var k :| 0 <= k < |symbols| && !(symbols[k] in a.ids && a.ids[symbols[k]] == 0);
      assert k in ps;
    }
  }

  lemma {:induction false} IdsPositive(words: seq<TargetWord>)
    requires forall i :: 0 <= i < |words| ==> OwnsLabels(words[i])
    ensures forall i :: 0 <= i < |Ids(words)| ==> Ids(words)[i] > 0
    ensures |Ids(words)| >= |words|
  {
    if words != [] {
      IdsPositive(words[..|words| - 1]);
    }
  }

  lemma {:induction false} SpellNext(a: Alphabet, symbols: string, k: nat, ps: seq<nat>, ids: seq<int>, id: int)
    requires ValidAlphabet(a) && k < |symbols| && Spelled(a, symbols[..k], ps, ids) && Stands(a, symbols[k], id)
    ensures id == 0 ==> Spelled(a, symbols[..k + 1], ps, ids)
    ensures id != 0 ==> Spelled(a, symbols[..k + 1], ps + [k], ids + [id])
  {
    var before, more := symbols[..k], symbols[..k + 1];
    assert forall j :: 0 <= j < k ==> more[j] == before[j];
    assert forall j :: 0 <= j < |ps| ==> ps[j] in ps;
    AppendPosition(ps, k);
  }

  lemma {:induction false} RecordNext(a: Alphabet, words: seq<string>, lower: string -> string, n: nat, k: nat,
                                      places: seq<Place>, records: seq<WildcardSymbol>)
    requires n < |words| && k < |lower(words[n])| && Recorded(a, words, lower, Place(n, k), places, records)
    ensures var symbol := lower(words[n])[k];
            if symbol in a.ids then Recorded(a, words, lower, Place(n, k + 1), places, records)
            else Recorded(a, words, lower, Place(n, k + 1), places + [Place(n, k)],
                          records + [WildcardSymbol(n, symbol)])
  {
    var here, next := Place(n, k), Place(n, k + 1);
    forall p ensures Earlier(p, next) <==> Earlier(p, here) || p == here {
    }
    assert forall j :: 0 <= j < |places| ==> places[j] in places;
  }

  /** The end of one word is the start of the next. */
  lemma {:induction false} RecordWord(a: Alphabet, words: seq<string>, lower: string -> string, n: nat,
                                      places: seq<Place>, records: seq<WildcardSymbol>)
    requires n < |words| && Recorded(a, words, lower, Place(n, |lower(words[n])|), places, records)
    ensures Recorded(a, words, lower, Place(n + 1, 0), places, records)
  {
  }

  /** The symbol loop of word `n`, which goes on recording after `records`. */
  method LabelSymbols(a: Alphabet, words: seq<string>, lower: string -> string, n: nat, records: seq<WildcardSymbol>,
                      ghost places: seq<Place>)
    returns (ids: seq<int>, found: seq<WildcardSymbol>, ghost ps: seq<nat>, ghost more: seq<Place>)
    requires ValidAlphabet(a) && n < |words| && Recorded(a, words, lower, Place(n, 0), places, records)
    ensures Spelled(a, lower(words[n]), ps, ids)
    ensures Recorded(a, words, lower, Place(n + 1, 0), more, found)
  {
    var symbols := lower(words[n]);
    ids, found, ps, more := [], records, [], places;
    for k := 0 to |symbols|
      invariant Spelled(a, symbols[..k], ps, ids)
      invariant Recorded(a, words, lower, Place(n, k), more, found)
    {
      RecordNext(a, words, lower, n, k, more, found);
      var id;
      if symbols[k] in a.ids {
        id := a.ids[symbols[k]];
      } else {
        id := a.wildcard;
        found := found + [WildcardSymbol(n, symbols[k])];
        more := more + [Place(n, k)];
      }
      SpellNext(a, symbols, k, ps, ids, id);
      if id != BLANK {
        ids := ids + [id];
        ps := ps + [k];
      }
    }
    assert symbols[..|symbols|] == symbols;
    RecordWord(a, words, lower, n, more, found);
  }

  /** Target `i` is word `i` with its own nonempty, nonblank labels. */
  ghost predicate TargetsOf(a: Alphabet, words: seq<string>, lower: string -> string, targets: seq<TargetWord>) {
    |targets| == |words| && forall i :: 0 <= i < |words| ==> TargetOf(a, words[i], lower, targets[i])
  }

  ghost predicate TargetOf(a: Alphabet, word: string, lower: string -> string, target: TargetWord) {
    target.source == word && LabelsOf(a, lower(word), target.ids) && OwnsLabels(target)
  }

  /** The positions of the first `n` words whose every symbol is blank, in order. */
  ghost predicate BlankOnly(a: Alphabet, words: seq<string>, lower: string -> string, n: nat, blankOnly: seq<nat>) {
    && Increasing(blankOnly)
    && (forall i: nat :: i in blankOnly <==> i < n && i < |words| && AllBlank(a, lower(words[i])))
  }

  /** `MmsTargetSequence.from_words`; `lower` is the runtime's case folding. */
  method FromWords(words: seq<string>, a: Alphabet, lower: string -> string) returns (r: Option<Targets>)
    requires ValidAlphabet(a)
    ensures r.Some? <==> words != [] && "" !in words
    ensures r.Some? ==> TargetsOf(a, words, lower, r.value.words)
    ensures r.Some? ==> exists places :: Recorded(a, words, lower, Place(|words|, 0), places, r.value.wildcards)
    ensures r.Some? ==> BlankOnly(a, words, lower, |words|, r.value.blankOnly)
    ensures r.Some? ==> Labels(Ids(r.value.words)) && |Ids(r.value.words)| >= |words|
  {
    if words == [] || "" in words {
      return None;
    }
    var targets: seq<TargetWord>, wildcards: seq<WildcardSymbol>, blankOnly: seq<nat> := [], [], [];
    ghost var places: seq<Place> := [];
    for ordinal := 0 to |words|
      invariant TargetsOf(a, words[..ordinal], lower, targets)
      invariant Recorded(a, words, lower, Place(ordinal, 0), places, wildcards)
      invariant BlankOnly(a, words, lower, ordinal, blankOnly)
    {
      var ids;
      ghost var ps;
      ids, wildcards, ps, places := LabelSymbols(a, words, lower, ordinal, wildcards, places);
      SpelledPositive(a, lower(words[ordinal]), ps, ids);
      AppendPosition(blankOnly, ordinal);
      if ids == [] {
        ids := [a.wildcard];
        blankOnly := blankOnly + [ordinal];
      }
      OneMoreTarget(a, words, lower, targets, ordinal, ids);
      targets := targets + [TargetWord(words[ordinal], ids)];
    }
    assert words[..|words|] == words;
    IdsPositive(targets);
    return Some(Targets(targets, wildcards, blankOnly));
  }

  lemma {:induction false} OneMoreTarget(a: Alphabet, words: seq<string>, lower: string -> string,
                                         targets: seq<TargetWord>, n: nat, ids: seq<int>)
    requires n < |words| && TargetsOf(a, words[..n], lower, targets)
    requires TargetOf(a, words[n], lower, TargetWord(words[n], ids))
    ensures TargetsOf(a, words[..n + 1], lower, targets + [TargetWord(words[n], ids)])
  {
    var more, all := words[..n + 1], targets + [TargetWord(words[n], ids)];
    forall i | 0 <= i < |more| ensures TargetOf(a, more[i], lower, all[i]) {
      if i < n {
        assert more[i] == words[..n][i] && TargetOf(a, words[..n][i], lower, targets[i]);
      }
    }
  }

  // ------------------------------------------------------ span partition

  datatype AlignedWord<Span> = AlignedWord(source: string, spans: seq<Span>)

  function AllSpans<Span>(words: seq<AlignedWord<Span>>): seq<Span> {
    if words == [] then [] else AllSpans(words[..|words| - 1]) + words[|words| - 1].spans
  }

  /** Each word owns as many spans as it has labels, and together, in order, the
      words own every span exactly once. */
  ghost predicate PartitionedBy<Span>(targets: seq<TargetWord>, spans: seq<Span>, words: seq<AlignedWord<Span>>) {
    && |words| == |targets|
    && (forall i :: 0 <= i < |words| ==> words[i].source == targets[i].source && |words[i].spans| == |targets[i].ids|)
    && AllSpans(words) == spans
  }

  function LabelLists(words: seq<TargetWord>): (r: seq<seq<int>>)
    ensures |r| == |words| && forall i :: 0 <= i < |r| ==> r[i] == words[i].ids
  {
    seq(|words|, i requires 0 <= i < |words| => words[i].ids)
  }

  /** The flat labels are the words' labels, one word after the other. */
  lemma {:induction false} IdsInOrder(words: seq<TargetWord>) returns (cuts: seq<nat>)
    ensures LaidOut(Ids(words), LabelLists(words), cuts)
  {
    if words == [] {
      cuts := [0];
    } else {
      var n := |words| - 1;
      var before := IdsInOrder(words[..n]);
      cuts := before + [|Ids(words)|];
      LayNext(Ids(words[..n]), LabelLists(words[..n]), before, words[n].ids);
      assert LabelLists(words) == LabelLists(words[..n]) + [words[n].ids];
    }
  }

  function SpanLists<Span>(words: seq<AlignedWord<Span>>): (r: seq<seq<Span>>)
    ensures |r| == |words| && forall i :: 0 <= i < |r| ==> r[i] == words[i].spans
  {
    seq(|words|, i requires 0 <= i < |words| => words[i].spans)
  }

  /** The words own the spans one word after the other. */
  lemma {:induction false} SpansInOrder<Span>(words: seq<AlignedWord<Span>>) returns (cuts: seq<nat>)
    ensures LaidOut(AllSpans(words), SpanLists(words), cuts)
  {
    if words == [] {
      cuts := [0];
    } else {
      var n := |words| - 1;
      var before := SpansInOrder(words[..n]);
      cuts := before + [|AllSpans(words)|];
      LayNext(AllSpans(words[..n]), SpanLists(words[..n]), before, words[n].spans);
      assert SpanLists(words) == SpanLists(words[..n]) + [words[n].spans];
    }
  }

  /** `MmsAlignedWords._admit`. */
  method BindSpans<Span>(targets: seq<TargetWord>, spans: seq<Span>) returns (r: Option<seq<AlignedWord<Span>>>)
    ensures r.Some? <==> |spans| == |Ids(targets)|
    ensures r.Some? ==> PartitionedBy(targets, spans, r.value)
    ensures r.Some? ==> exists cuts :: LaidOut(spans, SpanLists(r.value), cuts)
  {
    if |spans| != |Ids(targets)| {
      return None;
    }
    var words: seq<AlignedWord<Span>> := [];
    var start := 0;
    for i := 0 to |targets|
      invariant start == |Ids(targets[..i])| <= |spans|
      invariant PartitionedBy(targets[..i], spans[..start], words)
    {
      var end := start + |targets[i].ids|;
      assert targets[..i + 1][..i] == targets[..i];
      IdsPrefix(targets, i + 1);
      assert spans[..end] == spans[..start] + spans[start..end];
      var next := AlignedWord(targets[i].source, spans[start..end]);
      assert (words + [next])[..i] == words;
      words := words + [next];
      start := end;
    }
    assert targets[..|targets|] == targets && spans[..start] == spans;
    ghost var cuts := SpansInOrder(words);
    return Some(words);
  }

  lemma {:induction false} IdsPrefix(targets: seq<TargetWord>, k: nat)
    requires k <= |targets|
    ensures |Ids(targets[..k])| <= |Ids(targets)|
    decreases |targets|
  {
    if k < |targets| {
      assert targets[..|targets| - 1][..k] == targets[..k];
      IdsPrefix(targets[..|targets| - 1], k);
    } else {
      assert targets[..k] == targets;
    }
  }

  /** The partition is the only one: any division into the targets' word lengths is it. */
  lemma {:induction false} PartitionUnique<Span>(targets: seq<TargetWord>, spans: seq<Span>,
                                                  p: seq<AlignedWord<Span>>, q: seq<AlignedWord<Span>>)
    requires PartitionedBy(targets, spans, p) && PartitionedBy(targets, spans, q)
    ensures p == q
    decreases |targets|
  {
    if targets != [] {
      var n := |targets| - 1;
      var cut := |spans| - |targets[n].ids|;
      assert AllSpans(p[..n]) == spans[..cut] && p[n].spans == spans[cut..];
      assert AllSpans(q[..n]) == spans[..cut] && q[n].spans == spans[cut..];
      PartitionUnique(targets[..n], spans[..cut], p[..n], q[..n]);
      assert p == p[..n] + [p[n]] && q == q[..n] + [q[n]];
    }
  }

  // ---------------------------------------------------- shape admission

  datatype ShapeFailure = BadDimensions | BadScalar | LabelOutsideVocabulary | FrameCapacity

  predicate Within(ids: seq<int>, classes: int) {
    forall i :: 0 <= i < |ids| ==> ids[i] < classes
  }

  /** Some path of `frames` frames over the encoder's classes spells the labels. */
  ghost predicate PathExists(ids: seq<int>, frames: int, classes: int) {
    exists path: seq<int> :: |path| == frames && Spells(path, |path|, ids)
                             && forall i :: 0 <= i < |path| ==> 0 <= path[i] < classes
  }

  /** `AdmittedCtcShape.admit`: beyond the scalar width, a shape is admitted exactly
      when the encoder's frames and classes can carry the labels at all. */
  method AdmitShape(words: seq<TargetWord>, frames: int, classes: int, scalarBytes: int)
    returns (r: Result<(), ShapeFailure>)
    requires forall i :: 0 <= i < |words| ==> OwnsLabels(words[i])
    ensures r.Ok? <==> frames > 0 && classes > 0 && scalarBytes in {2, 4, 8} && PathExists(Ids(words), frames, classes)
    ensures r == Err(BadDimensions) <==> frames <= 0 || classes <= 0
    ensures r == Err(LabelOutsideVocabulary) <==>
            frames > 0 && classes > 0 && scalarBytes in {2, 4, 8} && !Within(Ids(words), classes)
    ensures r == Err(FrameCapacity) <==>
            && frames > 0 && classes > 0 && scalarBytes in {2, 4, 8} && Within(Ids(words), classes)
            && !exists path :: Spells(path, frames, Ids(words))
  {
    if frames <= 0 || classes <= 0 {
      return Err(BadDimensions);
    }
    if scalarBytes !in {2, 4, 8} {
      return Err(BadScalar);
    }
    IdsPositive(words);
    var ids := Ids(words);
    if !Within(ids, classes) {
      OutsideVocabulary(ids, frames, classes);
      return Err(LabelOutsideVocabulary);
    }
    FitsIffEnoughFrames(ids, frames);
    if frames < MinimumFrames(ids) {
      return Err(FrameCapacity);
    }
    ghost var path := FittingPath(ids, frames, classes);
    return Ok(());
  }

  lemma {:induction false} OutsideVocabulary(ids: seq<int>, frames: nat, classes: int)
    requires !Within(ids, classes)
    ensures !PathExists(ids, frames, classes)
  {
    var i :| 0 <= i < |ids| && ids[i] >= classes;
    forall path: seq<int> | Spells(path, |path|, ids) ensures exists k :: 0 <= k < |path| && path[k] >= classes {
      assert ids[i] in Collapse(path);
      SpelledOccurs(path, ids[i]);
    }
  }
}
