/** Carrying the recogniser's clause punctuation over to aligned words.

    `lexical` is the runtime's character test (letters, numbers, marks, apostrophe). */
module Punctuation {
  import opened Outcomes
  import opened WindowTiming

  /** The marks that are carried over. */
  const CLAUSE_MARKS: string := "\U{3002}\U{FF01}\U{FF1F}.!?\U{FF0C},\U{FF1B};\U{FF1A}:"

  function Keep(s: string, test: char -> bool): string {
    if s == [] then []
    else
      var n := |s| - 1;
      if test(s[n]) then Keep(s[..n], test) + [s[n]] else Keep(s[..n], test)
  }

  /** No character of `s` passes the test. */
  predicate Plain(s: string, test: char -> bool) {
    forall i :: 0 <= i < |s| ==> !test(s[i])
  }

  lemma {:induction false} PlainKeepsNothing(s: string, test: char -> bool)
    ensures Plain(s, test) <==> Keep(s, test) == []
  {
    if s != [] {
      PlainKeepsNothing(s[..|s| - 1], test);
    }
  }

  predicate ClauseMark(c: char) {
    c in CLAUSE_MARKS
  }

  function Marks(s: string): string {
    Keep(s, ClauseMark)
  }

  lemma {:induction false} KeepConcat(a: string, b: string, test: char -> bool)
    ensures Keep(a + b, test) == Keep(a, test) + Keep(b, test)
    decreases |b|
  {
    if b == [] {
      assert a + b == a;
    } else {
      var n := |b| - 1;
      assert (a + b)[..|a| + n] == a + b[..n];
      KeepConcat(a, b[..n], test);
    }
  }

  /** The words' lexical characters, in order. */
  function Spelling(words: seq<string>, lexical: char -> bool): string {
    if words == [] then []
    else Spelling(words[..|words| - 1], lexical) + Keep(words[|words| - 1], lexical)
  }

  /** Position `p` holds the `k`-th lexical character of `text`. */
  ghost predicate LocatedAt(text: string, lexical: char -> bool, p: nat, k: nat) {
    && p < |text| && lexical(text[p]) && k < |Keep(text, lexical)|
    && Keep(text[..p], lexical) == Keep(text, lexical)[..k]
    && Keep(text[..p + 1], lexical) == Keep(text, lexical)[..k + 1]
  }

  /** `source` lists the positions of the lexical characters of `text`. */
  ghost predicate Located(text: string, lexical: char -> bool, source: seq<nat>) {
    && |source| == |Keep(text, lexical)|
    && (forall k {:trigger LocatedAt(text, lexical, source[k], k)} ::
          0 <= k < |source| ==> LocatedAt(text, lexical, source[k], k))
    && (forall j, k :: 0 <= j < k < |source| ==> source[j] < source[k])
  }

  /** The text read word by word: what stands before the first word, and for each word
      its own stretch of the text and what separates it from the next. */
  datatype Reading = Lead(text: string) | Next(before: Reading, word: string, body: string, gap: string)

  function TextOf(reading: Reading): string {
    match reading
    case Lead(text) => text
    case Next(before, _, body, gap) => TextOf(before) + body + gap
  }

  function WordsOf(reading: Reading): seq<string> {
    match reading
    case Lead(_) => []
    case Next(before, word, _, _) => WordsOf(before) + [word]
  }

  /** The output: each word unchanged but for the clause marks of its own gap. */
  function Punctuated(reading: Reading): seq<string> {
    match reading
    case Lead(_) => []
    case Next(before, word, _, gap) => Punctuated(before) + [word + Marks(gap)]
  }

  /** A word's stretch begins and ends on lexical characters and spells the word;
      nothing lexical stands outside the stretches. */
  ghost predicate Faithful(reading: Reading, lexical: char -> bool) {
    match reading
    case Lead(text) => Plain(text, lexical)
    case Next(before, word, body, gap) =>
      && Faithful(before, lexical)
      && body != [] && lexical(body[0]) && lexical(body[|body| - 1])
      && Keep(body, lexical) == Keep(word, lexical)
      && Plain(gap, lexical)
  }

  ghost predicate Reads(reading: Reading, text: string, words: seq<string>, lexical: char -> bool) {
    Faithful(reading, lexical) && TextOf(reading) == text && WordsOf(reading) == words
  }

  /** The positions of the lexical characters of the first `i` characters. */
  function Positions(text: string, lexical: char -> bool, i: nat): seq<nat>
    requires i <= |text|
  {
    if i == 0 then []
    else if lexical(text[i - 1]) then Positions(text, lexical, i - 1) + [i - 1]
    else Positions(text, lexical, i - 1)
  }

  lemma {:induction false} PositionsLocated(text: string, lexical: char -> bool, i: nat)
    requires i <= |text|
    ensures Located(text[..i], lexical, Positions(text, lexical, i))
    decreases i
  {
    if i > 0 {
      PositionsLocated(text, lexical, i - 1);
      LocatedSnoc(text[..i - 1], text[i - 1], lexical, Positions(text, lexical, i - 1));
      assert text[..i] == text[..i - 1] + [text[i - 1]];
    }
  }

  method FindPositions(text: string, lexical: char -> bool) returns (source: seq<nat>)
    ensures Located(text, lexical, source)
  {
    source := Positions(text, lexical, |text|);
    PositionsLocated(text, lexical, |text|);
    assert text[..|text|] == text;
  }

  lemma {:induction false} KeepSnoc(text: string, c: char, lexical: char -> bool)
    ensures Keep(text + [c], lexical) == if lexical(c) then Keep(text, lexical) + [c] else Keep(text, lexical)
  {
    var more := text + [c];
    assert more[..|more| - 1] == text;
  }

  /** A further character moves no lexical character. */
  lemma {:induction false} LocatedStays(text: string, c: char, lexical: char -> bool, p: nat, k: nat)
    requires LocatedAt(text, lexical, p, k)
    ensures LocatedAt(text + [c], lexical, p, k)
  {
    var more := text + [c];
    KeepSnoc(text, c, lexical);
    assert more[..p] == text[..p] && more[..p + 1] == text[..p + 1];
    var kept, all := Keep(text, lexical), Keep(more, lexical);
    assert all[..k] == kept[..k] && all[..k + 1] == kept[..k + 1];
  }

  lemma {:induction false} LocatedLast(text: string, c: char, lexical: char -> bool)
    requires lexical(c)
    ensures LocatedAt(text + [c], lexical, |text|, |Keep(text, lexical)|)
  {
    var more, kept := text + [c], Keep(text, lexical);
    KeepSnoc(text, c, lexical);
    assert more[..|text|] == text && more[..|text| + 1] == more;
    assert (kept + [c])[..|kept|] == kept && (kept + [c])[..|kept| + 1] == kept + [c];
  }

  lemma {:induction false} LocatedSnoc(text: string, c: char, lexical: char -> bool, source: seq<nat>)
    requires Located(text, lexical, source)
    ensures Located(text + [c], lexical, if lexical(c) then source + [|text|] else source)
  {
    KeepSnoc(text, c, lexical);
    forall k | 0 <= k < |source| ensures LocatedAt(text + [c], lexical, source[k], k) && source[k] < |text| {
      assert LocatedAt(text, lexical, source[k], k);
      LocatedStays(text, c, lexical, source[k], k);
    }
    if lexical(c) {
      LocatedLast(text, c, lexical);
    }
  }

  /** The texts of the punctuated words. */
  method PunctuateTexts(text: string, words: seq<string>, lexical: char -> bool) returns (r: Option<seq<string>>)
    ensures r.Some? <==> Spelling(words, lexical) == Keep(text, lexical)
                         && forall i :: 0 <= i < |words| ==> Keep(words[i], lexical) != []
    ensures r.Some? ==> exists reading :: Reads(reading, text, words, lexical) && r.value == Punctuated(reading)
  {
    var source := FindPositions(text, lexical);
    if Spelling(words, lexical) != Keep(text, lexical) {
      return None;
    }
    ghost var reading: Reading;
    r, reading := AttachMarks(text, words, lexical, source);
  }

  /** The word loop, once text and words spell the same characters. */
  method AttachMarks(text: string, words: seq<string>, lexical: char -> bool, source: seq<nat>)
    returns (r: Option<seq<string>>, ghost reading: Reading)
    requires Located(text, lexical, source) && Spelling(words, lexical) == Keep(text, lexical)
    ensures r.None? ==> exists i :: 0 <= i < |words| && Keep(words[i], lexical) == []
    ensures r.Some? ==> Reads(reading, text, words, lexical) && r.value == Punctuated(reading)
    ensures r.Some? ==> forall i :: 0 <= i < |words| ==> Keep(words[i], lexical) != []
  {
    var result: seq<string> := [];
    var offset: nat := 0;
    reading := ReadLead(text, words, lexical, source);
    for i := 0 to |words|
      invariant ReadSoFar(text, words, lexical, source, i, offset, reading)
      invariant result == Punctuated(reading)
    {
      if |Keep(words[i], lexical)| == 0 {
        return None, reading;
      }
      var punctuated;
      punctuated, offset, reading := AttachToWord(text, words, lexical, source, i, offset, reading);
      result := result + [punctuated];
    }
    assert words[..|words|] == words && text[..|text|] == text;
    EveryWordLexical(reading, lexical);
    r := Some(result);
  }

  /** The body of the word loop. */
  method AttachToWord(text: string, words: seq<string>, lexical: char -> bool, source: seq<nat>,
                      i: nat, before: nat, ghost reading: Reading)
    returns (punctuated: string, offset: nat, ghost more: Reading)
    requires i < |words| && Spelling(words, lexical) == Keep(text, lexical) && Keep(words[i], lexical) != []
    requires Located(text, lexical, source) && ReadSoFar(text, words, lexical, source, i, before, reading)
    ensures ReadSoFar(text, words, lexical, source, i + 1, offset, more)
    ensures Punctuated(more) == Punctuated(reading) + [punctuated]
  {
    var count := |Keep(words[i], lexical)|;
    ghost var stop, next;
    more, stop, next := ReadOneMore(text, words, lexical, source, i, before, count, reading);
    offset := before + count;
    var end := source[offset - 1] + 1;
    var nextStart := if offset < |source| then source[offset] else |text|;
    assert end == stop && nextStart == next;
    punctuated := words[i] + Marks(text[end..nextStart]);
  }

  /** The first `i` words, with `offset` lexical characters, have been read. */
  ghost predicate ReadSoFar(text: string, words: seq<string>, lexical: char -> bool, source: seq<nat>,
                            i: nat, offset: nat, reading: Reading) {
    && i <= |words| && offset <= |source| && offset == |Spelling(words[..i], lexical)|
    && GapEnd(text, source, offset) <= |text|
    && Reads(reading, text[..GapEnd(text, source, offset)], words[..i], lexical)
  }

  lemma {:induction false} ReadLead(text: string, words: seq<string>, lexical: char -> bool, source: seq<nat>)
    returns (reading: Reading)
    requires Located(text, lexical, source)
    ensures ReadSoFar(text, words, lexical, source, 0, 0, reading) && Punctuated(reading) == []
  {
    if source == [] {
      assert text[..|text|] == text;
    } else {
      assert LocatedAt(text, lexical, source[0], 0);
    }
    PlainKeepsNothing(text[..GapEnd(text, source, 0)], lexical);
    reading := Lead(text[..GapEnd(text, source, 0)]);
  }

  lemma {:induction false} EveryWordLexical(reading: Reading, lexical: char -> bool)
    requires Faithful(reading, lexical)
    ensures forall i :: 0 <= i < |WordsOf(reading)| ==> Keep(WordsOf(reading)[i], lexical) != []
  {
    match reading
    case Lead(_) =>
    case Next(before, word, body, _) =>
      EveryWordLexical(before, lexical);
      PlainKeepsNothing(body, lexical);
  }

  /** Reading the next word, whose `count` lexical characters follow the first `offset` ones. */
  lemma {:induction false} ReadOneMore(text: string, words: seq<string>, lexical: char -> bool, source: seq<nat>,
                                       i: nat, offset: nat, count: nat, reading: Reading)
    returns (more: Reading, end: nat, next: nat)
    requires i < |words| && Spelling(words, lexical) == Keep(text, lexical)
    requires count == |Keep(words[i], lexical)| > 0
    requires Located(text, lexical, source) && ReadSoFar(text, words, lexical, source, i, offset, reading)
    ensures offset + count <= |source| && end == source[offset + count - 1] + 1 <= next <= |text|
    ensures next == GapEnd(text, source, offset + count)
    ensures ReadSoFar(text, words, lexical, source, i + 1, offset + count, more)
    ensures Punctuated(more) == Punctuated(reading) + [words[i] + Marks(text[end..next])]
  {
    var start;
    start, end := BodySpells(text, words, lexical, source, i, offset, count);
    next := GapAfter(text, lexical, source, offset + count, end);
    more := ReadStep(text, words, lexical, source, i, offset, count, reading, start, end, next);
  }

  /** The reading grows by the word's body and the gap after it. */
  lemma {:induction false} ReadStep(text: string, words: seq<string>, lexical: char -> bool, source: seq<nat>,
                                    i: nat, offset: nat, count: nat, reading: Reading,
                                    start: nat, end: nat, next: nat)
    returns (more: Reading)
    requires i < |words| && ReadSoFar(text, words, lexical, source, i, offset, reading)
    requires offset + count <= |source| && |Spelling(words[..i + 1], lexical)| == offset + count
    requires start == GapEnd(text, source, offset) && next == GapEnd(text, source, offset + count)
    requires start < end <= next <= |text| && lexical(text[start]) && lexical(text[end - 1])
    requires Keep(text[start..end], lexical) == Keep(words[i], lexical) && Plain(text[end..next], lexical)
    ensures ReadSoFar(text, words, lexical, source, i + 1, offset + count, more)
    ensures Punctuated(more) == Punctuated(reading) + [words[i] + Marks(text[end..next])]
  {
    more := Next(reading, words[i], text[start..end], text[end..next]);
    assert text[..next] == text[..start] + text[start..end] + text[end..next];
    assert words[..i + 1] == words[..i] + [words[i]];
  }

  /** The next word stands on the next lexical characters of the text. */
  lemma {:induction false} BodySpells(text: string, words: seq<string>, lexical: char -> bool, source: seq<nat>,
                                      i: nat, offset: nat, count: nat)
    returns (start: nat, end: nat)
    requires i < |words| && Spelling(words, lexical) == Keep(text, lexical)
    requires count == |Keep(words[i], lexical)| > 0
    requires Located(text, lexical, source) && offset == |Spelling(words[..i], lexical)|
    ensures offset + count <= |source| && |Spelling(words[..i + 1], lexical)| == offset + count
    ensures start == source[offset] < end == source[offset + count - 1] + 1 <= |text|
    ensures lexical(text[start]) && lexical(text[end - 1])
    ensures Keep(text[start..end], lexical) == Keep(words[i], lexical)
  {
    NextSpelling(text, words, lexical, i, offset);
    StretchOf(text, lexical, source, offset, count);
    start, end := source[offset], source[offset + count - 1] + 1;
  }

  /** The next word's characters are the next lexical characters of the text. */
  lemma {:induction false} NextSpelling(text: string, words: seq<string>, lexical: char -> bool, i: nat, offset: nat)
    requires i < |words| && Spelling(words, lexical) == Keep(text, lexical)
    requires offset == |Spelling(words[..i], lexical)|
    ensures var count := |Keep(words[i], lexical)|;
            && offset + count <= |Keep(text, lexical)|
            && Keep(text, lexical)[offset..offset + count] == Keep(words[i], lexical)
            && |Spelling(words[..i + 1], lexical)| == offset + count
  {
    SpellingStep(words, i, lexical);
    var all, longer := Keep(text, lexical), Spelling(words[..i + 1], lexical);
    assert longer == all[..|longer|];
    assert longer[offset..] == Keep(words[i], lexical);
  }

  lemma {:induction false} SpellingStep(words: seq<string>, i: nat, lexical: char -> bool)
    requires i < |words|
    ensures Spelling(words[..i + 1], lexical) == Spelling(words[..i], lexical) + Keep(words[i], lexical)
    ensures Spelling(words[..i + 1], lexical) <= Spelling(words, lexical)
    decreases |words|
  {
    assert words[..i + 1][..i] == words[..i];
    if i + 1 < |words| {
      var n := |words| - 1;
      assert words[..n][..i + 1] == words[..i + 1] && words[..n][..i] == words[..i];
      SpellingStep(words[..n], i, lexical);
    } else {
      assert words[..i + 1] == words;
    }
  }

  /** The end of the gap that follows the first `k` lexical characters. */
  function GapEnd(text: string, source: seq<nat>, k: nat): nat {
    if k < |source| then source[k] else |text|
  }

  /** Where the next `count` lexical characters after the first `offset` stand. */
  lemma {:induction false} StretchOf(text: string, lexical: char -> bool, source: seq<nat>, offset: nat, count: nat)
    requires count > 0 && Located(text, lexical, source) && offset + count <= |source|
    ensures source[offset] < source[offset + count - 1] + 1 <= |text|
    ensures lexical(text[source[offset]]) && lexical(text[source[offset + count - 1]])
    ensures Keep(text[source[offset]..source[offset + count - 1] + 1], lexical) ==
            Keep(text, lexical)[offset..offset + count]
  {
    assert LocatedAt(text, lexical, source[offset], offset);
    assert LocatedAt(text, lexical, source[offset + count - 1], offset + count - 1);
    SliceSpells(text, lexical, source[offset], source[offset + count - 1] + 1, offset, offset + count);
  }

  lemma {:induction false} SliceSpells(text: string, lexical: char -> bool, start: nat, end: nat, a: nat, b: nat)
    requires start <= end <= |text| && a <= b <= |Keep(text, lexical)|
    requires Keep(text[..start], lexical) == Keep(text, lexical)[..a]
    requires Keep(text[..end], lexical) == Keep(text, lexical)[..b]
    ensures Keep(text[start..end], lexical) == Keep(text, lexical)[a..b]
  {
    assert text[..end] == text[..start] + text[start..end];
    KeepConcat(text[..start], text[start..end], lexical);
    var all, mid := Keep(text, lexical), Keep(text[start..end], lexical);
    assert all[..b] == all[..a] + mid;
    assert mid == all[..b][a..];
  }

  /** From the end of the `k`-th lexical character to the next one nothing is lexical. */
  lemma {:induction false} GapAfter(text: string, lexical: char -> bool, source: seq<nat>, k: nat, end: nat)
    returns (next: nat)
    requires Located(text, lexical, source) && 0 < k <= |source| && end == source[k - 1] + 1
    ensures end <= next == GapEnd(text, source, k) <= |text| && Plain(text[end..next], lexical)
  {
    next := GapEnd(text, source, k);
    assert LocatedAt(text, lexical, source[k - 1], k - 1);
    if k < |source| {
      assert LocatedAt(text, lexical, source[k], k);
    } else {
      assert text[..|text|] == text;
    }
    SliceSpells(text, lexical, end, next, k, k);
    PlainKeepsNothing(text[end..next], lexical);
  }

  // --------------------------------------------------------- consequences

  /** Attached marks are never lexical, so the output spells what the text spells. */
  lemma {:induction false} OutputSpellsText(reading: Reading, lexical: char -> bool)
    requires Faithful(reading, lexical)
    ensures Spelling(Punctuated(reading), lexical) == Spelling(WordsOf(reading), lexical) ==
            Keep(TextOf(reading), lexical)
  {
    match reading
    case Lead(text) =>
      PlainKeepsNothing(text, lexical);
    case Next(before, word, body, gap) =>
      OutputSpellsText(before, lexical);
      PlainKeepsNothing(gap, lexical);
      PlainKeepsNothing(Marks(gap), lexical);
      KeepConcat(TextOf(before) + body, gap, lexical);
      KeepConcat(TextOf(before), body, lexical);
      KeepConcat(word, Marks(gap), lexical);
      PlainKept(gap, lexical, ClauseMark);
  }

  /** Keeping some characters of a text without lexical characters adds none. */
  lemma {:induction false} PlainKept(s: string, lexical: char -> bool, test: char -> bool)
    requires Plain(s, lexical)
    ensures Plain(Keep(s, test), lexical)
  {
    if s != [] {
      PlainKept(s[..|s| - 1], lexical, test);
    }
  }

  lemma {:induction false} PunctuatedCount(reading: Reading)
    ensures |Punctuated(reading)| == |WordsOf(reading)|
  {
    if reading.Next? {
      PunctuatedCount(reading.before);
    }
  }

  // ------------------------------------------------------ aligned words

  /** A text ending in a gap after a lexical character ends in that gap only. */
  lemma {:induction false} GapUnique(a: string, b: string, gap: string, other: string, lexical: char -> bool)
    requires a != [] && lexical(a[|a| - 1]) && Plain(gap, lexical)
    requires b != [] && lexical(b[|b| - 1]) && Plain(other, lexical)
    requires a + gap == b + other
    ensures a == b && gap == other
  {
    var text := a + gap;
    assert lexical(text[|a| - 1]) && lexical(text[|b| - 1]);
    assert forall k :: |a| <= k < |text| ==> text[k] == gap[k - |a|];
    assert forall k :: |b| <= k < |text| ==> text[k] == other[k - |b|];
    assert |b| - 1 < |a| && |a| - 1 < |b|;
    assert a == text[..|a|] && b == text[..|b|];
    assert gap == text[|a|..] && other == text[|b|..];
  }

  /** A stretch that starts on a lexical character is fixed by how many it holds. */
  lemma {:induction false} BodyUnique(a: string, b: string, body: string, other: string, lexical: char -> bool)
    requires body != [] && lexical(body[0]) && other != [] && lexical(other[0])
    requires |Keep(body, lexical)| == |Keep(other, lexical)| && a + body == b + other
    ensures a == b && body == other
  {
    if |body| < |other| {
      LongerBody(a, body, other, lexical);
    } else if |other| < |body| {
      LongerBody(b, other, body, lexical);
    }
    var text := a + body;
    assert a == text[..|a|] && b == text[..|b|];
    assert body == text[|a|..] && other == text[|b|..];
  }

  lemma {:induction false} LongerBody(a: string, body: string, other: string, lexical: char -> bool)
    requires |body| < |other| && lexical(other[0])
    requires exists b :: a + body == b + other
    ensures |Keep(body, lexical)| < |Keep(other, lexical)|
  {
    var b :| a + body == b + other;
    var extra := |other| - |body|;
    var front := other[..extra];
    assert other[extra..] == body by {
      var text := a + body;
      assert body == text[|a|..] && other == text[|b|..];
    }
    assert other == front + body;
    KeepConcat(front, body, lexical);
    PlainKeepsNothing(front, lexical);
    assert front[0] == other[0];
  }

  /** A text and its words have one reading, so the punctuated words are a function of
      them. */
  lemma {:induction false} ReadingUnique(a: Reading, b: Reading, lexical: char -> bool)
    requires Faithful(a, lexical) && Faithful(b, lexical)
    requires TextOf(a) == TextOf(b) && WordsOf(a) == WordsOf(b)
    ensures a == b
    decreases a
  {
    if a.Next? {
      assert b.Next?;
      var x, y := TextOf(a.before) + a.body, TextOf(b.before) + b.body;
      assert x[|x| - 1] == a.body[|a.body| - 1] && y[|y| - 1] == b.body[|b.body| - 1];
      GapUnique(x, y, a.gap, b.gap, lexical);
      var words := WordsOf(a);
      assert a.word == words[|words| - 1] == b.word;
      BodyUnique(TextOf(a.before), TextOf(b.before), a.body, b.body, lexical);
      assert WordsOf(a.before) == words[..|words| - 1] == WordsOf(b.before);
      ReadingUnique(a.before, b.before, lexical);
    }
  }

  function Texts(words: seq<AlignedWord>): seq<string> {
    seq(|words|, i requires 0 <= i < |words| => words[i].text)
  }

  /** `r` is `words` with each text extended by the clause marks that `text` has between
      that word and the next; timings are untouched. */
  ghost predicate PunctuationOf(text: string, words: seq<AlignedWord>, lexical: char -> bool, r: seq<AlignedWord>) {
    && |r| == |words|
    && (forall i :: 0 <= i < |words| ==> r[i].timing == words[i].timing)
    && exists reading :: Reads(reading, text, Texts(words), lexical) && Texts(r) == Punctuated(reading)
  }

  lemma {:induction false} PunctuationUnique(text: string, words: seq<AlignedWord>, lexical: char -> bool,
                                             r: seq<AlignedWord>, q: seq<AlignedWord>)
    requires PunctuationOf(text, words, lexical, r) && PunctuationOf(text, words, lexical, q)
    ensures r == q
  {
    var a :| Reads(a, text, Texts(words), lexical) && Texts(r) == Punctuated(a);
    var b :| Reads(b, text, Texts(words), lexical) && Texts(q) == Punctuated(b);
    ReadingUnique(a, b, lexical);
    forall i | 0 <= i < |r| ensures r[i] == q[i] {
      assert Texts(r)[i] == Texts(q)[i];
    }
  }

  /** `PunctuatedAlignment.__init__`: refused exactly when the text and the words spell
      different lexical characters, or a word has none. */
  method Punctuate(text: string, words: seq<AlignedWord>, lexical: char -> bool) returns (r: Option<seq<AlignedWord>>)
    ensures r.Some? <==> Spelling(Texts(words), lexical) == Keep(text, lexical)
                         && forall i :: 0 <= i < |words| ==> Keep(words[i].text, lexical) != []
    ensures r.Some? ==> PunctuationOf(text, words, lexical, r.value)
  {
    var texts := PunctuateTexts(text, Texts(words), lexical);
    if texts.None? {
      assert forall i :: 0 <= i < |words| ==> Texts(words)[i] == words[i].text;
      return None;
    }
    ghost var reading :| Reads(reading, text, Texts(words), lexical) && texts.value == Punctuated(reading);
    PunctuatedCount(reading);
    var out := seq(|words|, i requires 0 <= i < |words| => words[i].(text := texts.value[i]));
    assert Texts(out) == texts.value;
    assert forall i :: 0 <= i < |words| ==> Texts(words)[i] == words[i].text;
    return Some(out);
  }

  /** The output spells exactly the lexical characters of the text. */
  lemma {:induction false} PunctuationSpells(text: string, words: seq<AlignedWord>, lexical: char -> bool,
                                             r: seq<AlignedWord>)
    requires PunctuationOf(text, words, lexical, r)
    ensures Spelling(Texts(r), lexical) == Keep(text, lexical)
  {
    var reading :| Reads(reading, text, Texts(words), lexical) && Texts(r) == Punctuated(reading);
    OutputSpellsText(reading, lexical);
  }

  /** Punctuation moves no timing, so the words stay in their window and in order. */
  lemma {:induction false} PunctuationInWindow(text: string, words: seq<AlignedWord>, lexical: char -> bool,
                                               r: seq<AlignedWord>, duration: real)
    requires PunctuationOf(text, words, lexical, r) && InWindow(words, duration)
    ensures InWindow(r, duration)
  {
    assert forall i :: 0 <= i < |words| ==> r[i].timing == words[i].timing;
  }
}
