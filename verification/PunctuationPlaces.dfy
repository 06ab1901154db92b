/** Punctuated words by their places in the text: where each word stands, and which characters
    after it are its marks. */
module PunctuationPlaces {
  import opened Outcomes
  import opened Sequences
  import opened WindowTiming
  import opened Punctuation

  lemma {:induction false} KeepPicks(s: string, test: char -> bool) returns (ps: seq<nat>)
    ensures Passing(s, test, ps) && Picked(s, ps, Keep(s, test))
  {
    if s == [] {
      ps := [];
    } else {
      var n := |s| - 1;
      ps := KeepPicks(s[..n], test);
      assert s == s[..n] + [s[n]];
      PassingNext(s[..n], s[n], test, ps);
      PickedNext(s[..n], s[n], ps, Keep(s[..n], test));
      if test(s[n]) {
        ps := ps + [n];
      }
    }
  }

  /** The two texts have the same lexical characters, in order. */
  ghost predicate SameLetters(a: string, b: string, lexical: char -> bool) {
    exists ps, qs, letters :: Passing(a, lexical, ps) && Passing(b, lexical, qs)
                              && Picked(a, ps, letters) && Picked(b, qs, letters)
  }

  /** The suffix is the gap's marks, by their positions. */
  ghost predicate MarksOf(gap: string, suffix: string) {
    exists ps :: Picked(gap, ps, suffix) && Increasing(ps)
                 && forall k: nat :: k in ps <==>
                      k < |gap| && gap[k] in ['\U{3002}', '\U{FF01}', '\U{FF1F}', '.', '!', '?', '\U{FF0C}', ',',
                                              '\U{FF1B}', ';', '\U{FF1A}', ':']
  }

  lemma {:induction false} MarksArePicked(gap: string)
    ensures MarksOf(gap, Marks(gap))
  {
    var ps := KeepPicks(gap, ClauseMark);
    assert CLAUSE_MARKS == ['\U{3002}', '\U{FF01}', '\U{FF1F}', '.', '!', '?', '\U{FF0C}', ',',
                            '\U{FF1B}', ';', '\U{FF1A}', ':'];
  }

  /** A word is written as `body`, and `out` is the word with the marks of the gap after it. */
  ghost predicate Written(word: string, body: string, gap: string, lexical: char -> bool, out: string) {
    && body != [] && lexical(body[0]) && lexical(body[|body| - 1]) && SameLetters(body, word, lexical)
    && (forall k :: 0 <= k < |gap| ==> !lexical(gap[k]))
    && (exists suffix :: MarksOf(gap, suffix) && out == word + suffix)
  }

  /** A word stands from `start` to `end`, and the gap after it goes up to `next`. */
  ghost predicate WordAt(text: string, word: string, lexical: char -> bool, start: nat, end: nat, next: nat,
                         out: string) {
    start <= end <= next <= |text| && Written(word, text[start..end], text[end..next], lexical, out)
  }

  /** The words stand one after the other in the text, nothing lexical stands elsewhere, and
      each output is its word followed by the marks before the next word. */
  ghost predicate StandsIn(text: string, words: seq<string>, lexical: char -> bool, starts: seq<nat>, ends: seq<nat>,
                           out: seq<string>) {
    && |starts| == |words| + 1 && |ends| == |words| == |out| && starts[|words|] == |text|
    && (forall k :: 0 <= k < starts[0] && k < |text| ==> !lexical(text[k]))
    && (forall i :: 0 <= i < |words| ==> WordAt(text, words[i], lexical, starts[i], ends[i], starts[i + 1], out[i]))
  }

  lemma {:induction false} LettersAgree(a: string, b: string, lexical: char -> bool)
    requires Keep(a, lexical) == Keep(b, lexical)
    ensures SameLetters(a, b, lexical)
  {
    var ps := KeepPicks(a, lexical);
    var qs := KeepPicks(b, lexical);
  }

  /** A longer text leaves an earlier word where it stands. */
  lemma {:induction false} WordStays(text: string, whole: string, word: string, lexical: char -> bool,
                                     start: nat, end: nat, next: nat, out: string)
    requires WordAt(text, word, lexical, start, end, next, out) && text <= whole
    ensures WordAt(whole, word, lexical, start, end, next, out)
  {
    assert whole[start..end] == text[start..end] && whole[end..next] == text[end..next];
  }

  lemma {:induction false} WordWritten(word: string, body: string, gap: string, lexical: char -> bool)
    requires body != [] && lexical(body[0]) && lexical(body[|body| - 1])
    requires Keep(body, lexical) == Keep(word, lexical) && Plain(gap, lexical)
    ensures Written(word, body, gap, lexical, word + Marks(gap))
  {
    LettersAgree(body, word, lexical);
    MarksArePicked(gap);
  }

  lemma {:induction false} Pieces(front: string, body: string, gap: string)
    ensures var text, end := front + (body + gap), |front| + |body|;
            |text| == end + |gap| && text[|front|..end] == body && text[end..end + |gap|] == gap
  {
  }

  lemma {:induction false} StandsNext(text: string, whole: string, words: seq<string>, word: string,
                                      lexical: char -> bool,
                                      starts: seq<nat>, ends: seq<nat>, out: seq<string>, end: nat, last: string)
    requires StandsIn(text, words, lexical, starts, ends, out) && text <= whole
    requires WordAt(whole, word, lexical, |text|, end, |whole|, last)
    ensures StandsIn(whole, words + [word], lexical, starts + [|whole|], ends + [end], out + [last])
  {
    var n, all := |words|, words + [word];
    var s, e, o := starts + [|whole|], ends + [end], out + [last];
    forall i | 0 <= i <= n ensures WordAt(whole, all[i], lexical, s[i], e[i], s[i + 1], o[i]) {
      if i < n {
        WordStays(text, whole, words[i], lexical, starts[i], ends[i], starts[i + 1], out[i]);
      }
    }
    assert n > 0 ==> WordAt(text, words[0], lexical, starts[0], ends[0], starts[1], out[0]);
    forall k | 0 <= k < s[0] && k < |whole| ensures !lexical(whole[k]) {
      assert whole[k] == text[k];
    }
  }

  lemma {:induction false} WordPlaced(text: string, word: string, body: string, gap: string, lexical: char -> bool,
                                      out: string)
    returns (all: string, end: nat)
    requires Written(word, body, gap, lexical, out)
    ensures all == text + (body + gap) && WordAt(all, word, lexical, |text|, end, |all|, out)
  {
    all, end := text + (body + gap), |text| + |body|;
    Pieces(text, body, gap);
    WordFits(all, word, body, gap, lexical, |text|, end, out);
  }

  lemma {:induction false} WordFits(all: string, word: string, body: string, gap: string, lexical: char -> bool,
                                    start: nat, end: nat, out: string)
    requires start <= end <= |all| && all[start..end] == body && all[end..|all|] == gap
    requires Written(word, body, gap, lexical, out)
    ensures WordAt(all, word, lexical, start, end, |all|, out)
  {
  }

  lemma {:induction false} ReadingStands(reading: Reading, lexical: char -> bool)
    returns (starts: seq<nat>, ends: seq<nat>)
    requires Faithful(reading, lexical)
    ensures StandsIn(TextOf(reading), WordsOf(reading), lexical, starts, ends, Punctuated(reading))
    decreases reading
  {
    match reading
    case Lead(text) =>
      starts, ends := [|text|], [];
    case Next(before, word, body, gap) =>
      var s, e := ReadingStands(before, lexical);
      var out := word + Marks(gap);
      WordWritten(word, body, gap, lexical);
      var text, end := WordPlaced(TextOf(before), word, body, gap, lexical, out);
      StandsNext(TextOf(before), text, WordsOf(before), word, lexical, s, e, Punctuated(before), end, out);
      assert TextOf(reading) == text;
      starts, ends := s + [|text|], e + [end];
  }

  /** What punctuation makes of text and words, without the reading: the places of the words
      in the text, and each word's marks. */
  lemma {:induction false} PunctuationStands(text: string, words: seq<AlignedWord>, lexical: char -> bool,
                                             r: seq<AlignedWord>)
    returns (starts: seq<nat>, ends: seq<nat>)
    requires PunctuationOf(text, words, lexical, r)
    ensures StandsIn(text, Texts(words), lexical, starts, ends, Texts(r))
  {
    var reading :| Reads(reading, text, Texts(words), lexical) && Texts(r) == Punctuated(reading);
    starts, ends := ReadingStands(reading, lexical);
  }
}
