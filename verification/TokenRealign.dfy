/** Re-binding realigned tokens to the tokenizer's own tokens. */
module TokenRealign {
  import opened Outcomes
  import opened Sequences

  datatype Hint = Expand(flag: bool) | Components(parts: seq<string>)

  /** A token is plain text, or text with the tokenizer's multiword hint. */
  datatype Token = Plain(text: string) | Hinted(text: string, hint: Hint)

  // ----------------------------------------------------------- flattening

  /** Splitting at every single space. */
  function SplitSpaces(text: string): (parts: seq<string>)
    ensures |parts| >= 1
  {
    if text == [] then [[]]
    else
      var n := |text| - 1;
      var before := SplitSpaces(text[..n]);
      if text[n] == ' ' then before + [[]]
      else before[|before| - 1 := before[|before| - 1] + [text[n]]]
  }

  function Plains(parts: seq<string>): seq<Token> {
    seq(|parts|, i requires 0 <= i < |parts| => Plain(parts[i]))
  }

  /** A token with spaces becomes its plain parts; any other stays as it is. */
  function Pieces(token: Token): seq<Token> {
    var parts := SplitSpaces(token.text);
    if |parts| > 1 then Plains(parts) else [token]
  }

  function Flattened(tokens: seq<Token>): seq<Token> {
    if tokens == [] then [] else Flattened(tokens[..|tokens| - 1]) + Pieces(tokens[|tokens| - 1])
  }

  method Flatten(tokens: seq<Token>) returns (flat: seq<Token>)
    ensures flat == Flattened(tokens) && FlatOf(tokens, flat)
  {
    flat := [];
    for i := 0 to |tokens|
      invariant flat == Flattened(tokens[..i])
    {
      assert tokens[..i + 1][..i] == tokens[..i];
      var parts := SplitSpaces(tokens[i].text);
      flat := flat + (if |parts| > 1 then Plains(parts) else [tokens[i]]);
    }
    assert tokens[..|tokens|] == tokens;
    FlattenedIsFlat(tokens);
  }

  lemma {:induction false} SplitHasNoSpaces(text: string)
    ensures forall i :: 0 <= i < |SplitSpaces(text)| ==> ' ' !in SplitSpaces(text)[i]
    ensures |SplitSpaces(text)| == 1 ==> SplitSpaces(text) == [text]
  {
    if text != [] {
      SplitHasNoSpaces(text[..|text| - 1]);
      assert text == text[..|text| - 1] + [text[|text| - 1]];
    }
  }

  /** The parts joined by spaces are the text again; as no part has a space, they are its
      only division. */
  lemma {:induction false} SplitJoins(text: string)
    ensures JoinWith(' ', SplitSpaces(text)) == text
  {
    if text != [] {
      var n := |text| - 1;
      var before, parts := SplitSpaces(text[..n]), SplitSpaces(text);
      SplitJoins(text[..n]);
      assert text == text[..n] + [text[n]];
      if text[n] == ' ' {
        assert parts[..|parts| - 1] == before;
      } else {
        JoinGrows(' ', before, text[n]);
      }
    }
  }

  lemma {:induction false} JoinGrows(separator: char, parts: seq<string>, c: char)
    requires parts != []
    ensures var m := |parts| - 1;
            JoinWith(separator, parts[m := parts[m] + [c]]) == JoinWith(separator, parts) + [c]
  {
    var m := |parts| - 1;
    var grown := parts[m := parts[m] + [c]];
    assert grown[..m] == parts[..m];
    if m > 0 {
      var front := JoinWith(separator, parts[..m]) + [separator];
      assert front + (parts[m] + [c]) == front + parts[m] + [c];
    }
  }

  /** What a token becomes: itself if its text has no space, else plain tokens whose texts
      have none and give the text when joined by spaces. */
  ghost predicate Divided(token: Token, pieces: seq<Token>) {
    if ' ' !in token.text then pieces == [token]
    else exists parts :: (forall k :: 0 <= k < |parts| ==> ' ' !in parts[k])
                         && JoinWith(' ', parts) == token.text && |pieces| == |parts|
                         && forall k :: 0 <= k < |parts| ==> pieces[k] == Plain(parts[k])
  }

  lemma {:induction false} PiecesDivide(token: Token)
    ensures Divided(token, Pieces(token))
  {
    var parts := SplitSpaces(token.text);
    SplitHasNoSpaces(token.text);
    SplitJoins(token.text);
    if ' ' !in token.text && |parts| > 1 {
      JoinHasSpace(parts);
    }
  }

  lemma {:induction false} JoinHasSpace(parts: seq<string>)
    requires |parts| > 1
    ensures ' ' in JoinWith(' ', parts)
  {
    var n := |parts| - 1;
    var front := JoinWith(' ', parts[..n]);
    assert JoinWith(' ', parts)[|front|] == ' ';
  }

  function PieceLists(tokens: seq<Token>): (r: seq<seq<Token>>)
    ensures |r| == |tokens| && forall i :: 0 <= i < |r| ==> r[i] == Pieces(tokens[i])
  {
    seq(|tokens|, i requires 0 <= i < |tokens| => Pieces(tokens[i]))
  }

  /** The tokens' pieces, one token after the other. */
  ghost predicate FlatOf(tokens: seq<Token>, flat: seq<Token>) {
    exists pieces, cuts :: LaidOut(flat, pieces, cuts) && |pieces| == |tokens|
                           && forall i :: 0 <= i < |tokens| ==> Divided(tokens[i], pieces[i])
  }

  lemma {:induction false} PieceListsNext(tokens: seq<Token>)
    requires tokens != []
    ensures PieceLists(tokens) == PieceLists(tokens[..|tokens| - 1]) + [Pieces(tokens[|tokens| - 1])]
  {
  }

  lemma {:induction false} FlattenedLaid(tokens: seq<Token>)
    returns (flat: seq<Token>, pieces: seq<seq<Token>>, cuts: seq<nat>)
    ensures flat == Flattened(tokens) && pieces == PieceLists(tokens)
    ensures LaidOut(flat, pieces, cuts)
  {
    if tokens == [] {
      flat, pieces, cuts := [], [], [0];
    } else {
      var n := |tokens| - 1;
      var before, lists, ends := FlattenedLaid(tokens[..n]);
      LayNext(before, lists, ends, Pieces(tokens[n]));
      PieceListsNext(tokens);
      flat, pieces := before + Pieces(tokens[n]), lists + [Pieces(tokens[n])];
      cuts := ends + [|before| + |Pieces(tokens[n])|];
    }
  }

  lemma {:induction false} FlattenedIsFlat(tokens: seq<Token>)
    ensures FlatOf(tokens, Flattened(tokens))
  {
    var flat, pieces, cuts := FlattenedLaid(tokens);
    forall i | 0 <= i < |tokens| ensures Divided(tokens[i], pieces[i]) {
      PiecesDivide(tokens[i]);
    }
  }

  /** After flattening no token contains a space. */
  lemma {:induction false} FlattenedHasNoSpaces(tokens: seq<Token>)
    ensures forall i :: 0 <= i < |Flattened(tokens)| ==> ' ' !in Flattened(tokens)[i].text
  {
    if tokens != [] {
      var n := |tokens| - 1;
      FlattenedHasNoSpaces(tokens[..n]);
      SplitHasNoSpaces(tokens[n].text);
      var before, pieces := Flattened(tokens[..n]), Pieces(tokens[n]);
      forall i | 0 <= i < |pieces| ensures ' ' !in pieces[i].text {
        if |SplitSpaces(tokens[n].text)| > 1 {
          assert pieces[i].text == SplitSpaces(tokens[n].text)[i];
        } else {
          assert SplitSpaces(tokens[n].text)[0] == tokens[n].text;
        }
      }
      assert Flattened(tokens) == before + pieces;
    }
  }

  // ------------------------------------------------------------- grouping

  /** The text of tokens `from` to `to`. */
  function Spelled(flat: seq<Token>, from: nat, to: nat): string
    requires from <= to <= |flat|
  {
    if from == to then "" else Spelled(flat, from, to - 1) + flat[to - 1].text
  }

  /** `cuts` groups the tokens so that group `i` spells the text of `merged[i]` and ends, if
      it has any token at all, in a token that is not empty. */
  ghost predicate Groups(flat: seq<Token>, merged: seq<Token>, cuts: seq<nat>) {
    && |cuts| == |merged| + 1 && cuts[0] == 0
    && (forall i :: 0 <= i < |cuts| ==> cuts[i] <= |flat|)
    && (forall i :: 0 <= i < |merged| ==> IsGroup(flat, cuts[i], cuts[i + 1], merged[i].text))
  }

  ghost predicate IsGroup(flat: seq<Token>, from: nat, to: nat, text: string) {
    from <= to <= |flat| && Spelled(flat, from, to) == text && (from < to ==> flat[to - 1].text != "")
  }

  /** A grouping that leaves no token over. */
  ghost predicate Covers(flat: seq<Token>, merged: seq<Token>, cuts: seq<nat>) {
    Groups(flat, merged, cuts) && cuts[|merged|] == |flat|
  }

  lemma {:induction false} SpelledSplit(flat: seq<Token>, from: nat, mid: nat, end: nat)
    requires from <= mid <= end <= |flat|
    ensures Spelled(flat, from, end) == Spelled(flat, from, mid) + Spelled(flat, mid, end)
    decreases end
  {
    if mid < end {
      SpelledSplit(flat, from, mid, end - 1);
    }
  }

  lemma {:induction false} SpelledLength(flat: seq<Token>, from: nat, mid: nat, end: nat)
    requires from <= mid <= end <= |flat|
    ensures |Spelled(flat, from, mid)| <= |Spelled(flat, from, end)|
    ensures mid < end && flat[end - 1].text != "" ==> |Spelled(flat, from, mid)| < |Spelled(flat, from, end)|
    decreases end
  {
    if mid < end {
      SpelledLength(flat, from, mid, end - 1);
    }
  }

  /** From a given start at most one group spells a given text. */
  lemma {:induction false} GroupUnique(flat: seq<Token>, from: nat, a: nat, b: nat, text: string)
    requires IsGroup(flat, from, a, text) && IsGroup(flat, from, b, text)
    ensures a == b
  {
    if a < b {
      SpelledLength(flat, from, a, b);
    } else if b < a {
      SpelledLength(flat, from, b, a);
    }
  }

  /** The grouping is unique. */
  lemma {:induction false} GroupsUnique(flat: seq<Token>, merged: seq<Token>, a: seq<nat>, b: seq<nat>, i: nat)
    requires Groups(flat, merged, a) && Groups(flat, merged, b) && i <= |merged|
    ensures a[i] == b[i]
    decreases i
  {
    if i > 0 {
      GroupsUnique(flat, merged, a, b, i - 1);
      assert IsGroup(flat, a[i - 1], a[i], merged[i - 1].text);
      assert IsGroup(flat, b[i - 1], b[i], merged[i - 1].text);
      GroupUnique(flat, a[i - 1], a[i], b[i], merged[i - 1].text);
    }
  }

  /** The inner loop: append tokens until the text is spelled, as long as it is shorter. */
  method Consume(flat: seq<Token>, from: nat, target: string) returns (to: nat, ok: bool)
    requires from <= |flat|
    ensures from <= to <= |flat|
    ensures ok ==> IsGroup(flat, from, to, target)
    ensures !ok ==> forall end: nat :: !IsGroup(flat, from, end, target)
  {
    var buf := "";
    to := from;
    while to < |flat| && |buf| < |target|
      invariant from <= to <= |flat| && buf == Spelled(flat, from, to)
      invariant from < to ==> |Spelled(flat, from, to - 1)| < |target| && buf != target
    {
      buf := buf + flat[to].text;
      to := to + 1;
      if buf == target {
        break;
      }
    }
    ok := buf == target;
    if ok {
    } else {
      forall end: nat ensures !IsGroup(flat, from, end, target) {
        NotConsumed(flat, from, to, target, end);
      }
    }
  }

  lemma {:induction false} NotConsumed(flat: seq<Token>, from: nat, to: nat, target: string, end: nat)
    requires from <= to <= |flat| && Spelled(flat, from, to) != target
    requires to == |flat| || |Spelled(flat, from, to)| >= |target|
    requires from < to ==> |Spelled(flat, from, to - 1)| < |target|
    ensures !IsGroup(flat, from, end, target)
  {
    if IsGroup(flat, from, end, target) {
      if end < to {
        SpelledLength(flat, from, end, to - 1);
      } else if end > to {
        SpelledLength(flat, from, to, end);
      }
    }
  }

  // --------------------------------------------------------- re-binding

  /** The token written for `merged` bound to tokens `from` to `to`: a plain token that is
      one hinted tokenizer token gets that token back. */
  function Restored(flat: seq<Token>, from: nat, to: nat, merged: Token): Token
    requires from <= to <= |flat|
  {
    if merged.Plain? && to - from == 1 && flat[from].Hinted? && flat[from].text == merged.text
    then flat[from] else merged
  }

  datatype RealignFailure = LostBinding | OmittedTokens

  ghost predicate RestoredBy(flat: seq<Token>, merged: seq<Token>, cuts: seq<nat>, r: seq<Token>) {
    && Groups(flat, merged, cuts) && |r| == |merged|
    && (forall i :: 0 <= i < |merged| ==>
          cuts[i] <= cuts[i + 1] && r[i] == Restored(flat, cuts[i], cuts[i + 1], merged[i]))
  }

  /** The re-binding loop: it completes exactly when the merged texts can be grouped, it
      recovers that grouping, and it restores hints by it. */
  method Rebind(flat: seq<Token>, merged: seq<Token>)
    returns (r: Result<seq<Token>, RealignFailure>, ghost cuts: seq<nat>)
    ensures r.Ok? <==> exists c: seq<nat> :: Covers(flat, merged, c)
    ensures r.Ok? ==> Covers(flat, merged, cuts) && RestoredBy(flat, merged, cuts, r.value)
    ensures r == Err(LostBinding) <==> !exists c: seq<nat> :: Groups(flat, merged, c)
  {
    var restored: seq<Token> := [];
    var at: nat := 0;
    cuts := [0];
    for i := 0 to |merged|
      invariant RestoredBy(flat, merged[..i], cuts, restored) && cuts[i] == at
    {
      var start := at;
      var ok;
      at, ok := Consume(flat, at, merged[i].text);
      if !ok {
        forall c: seq<nat> ensures !Groups(flat, merged, c) {
          if Groups(flat, merged, c) {
            NextGroup(flat, merged, i, cuts, c);
          }
        }
        return Err(LostBinding), cuts;
      }
      var token := merged[i];
      if merged[i].Plain? && at - start == 1 && flat[start].Hinted? && flat[start].text == merged[i].text {
        token := flat[start];
      }
      OneMoreGroup(flat, merged, i, cuts, restored, at);
      cuts := cuts + [at];
      restored := restored + [token];
    }
    assert merged[..|merged|] == merged;
    if at != |flat| {
      forall c: seq<nat> | Groups(flat, merged, c) ensures c[|merged|] == at {
        GroupsUnique(flat, merged, c, cuts, |merged|);
      }
      return Err(OmittedTokens), cuts;
    }
    assert Covers(flat, merged, cuts);
    return Ok(restored), cuts;
  }

  /** Any grouping of all merged texts continues the groups found so far. */
  lemma {:induction false} NextGroup(flat: seq<Token>, merged: seq<Token>, i: nat, cuts: seq<nat>, c: seq<nat>)
    requires i < |merged| && Groups(flat, merged[..i], cuts) && Groups(flat, merged, c)
    ensures IsGroup(flat, cuts[i], c[i + 1], merged[i].text)
  {
    GroupsUnique(flat, merged[..i], cuts, c[..i + 1], i);
    assert IsGroup(flat, c[i], c[i + 1], merged[i].text);
  }

  lemma {:induction false} OneMoreGroup(flat: seq<Token>, merged: seq<Token>, i: nat, cuts: seq<nat>, r: seq<Token>,
                                        to: nat)
    requires i < |merged| && RestoredBy(flat, merged[..i], cuts, r) && IsGroup(flat, cuts[i], to, merged[i].text)
    ensures RestoredBy(flat, merged[..i + 1], cuts + [to], r + [Restored(flat, cuts[i], to, merged[i])])
  {
    var m1, c1 := merged[..i + 1], cuts + [to];
    forall k | 0 <= k < |m1| ensures IsGroup(flat, c1[k], c1[k + 1], m1[k].text) {
      if k < i {
        assert IsGroup(flat, cuts[k], cuts[k + 1], merged[..i][k].text);
      }
    }
    var r1 := r + [Restored(flat, cuts[i], to, merged[i])];
    forall k | 0 <= k < |m1| ensures c1[k] <= c1[k + 1] && r1[k] == Restored(flat, c1[k], c1[k + 1], m1[k]) {
      if k < i {
        assert r[k] == Restored(flat, cuts[k], cuts[k + 1], merged[..i][k]);
      }
    }
  }

  /** Restoring hints changes no text; a hint changes exactly at a plain token bound to one
      hinted token. */
  lemma {:induction false} RestoringKeepsTexts(flat: seq<Token>, merged: seq<Token>, cuts: seq<nat>, r: seq<Token>,
                                               i: nat)
    requires RestoredBy(flat, merged, cuts, r) && i < |merged|
    ensures r[i].text == merged[i].text
    ensures r[i] != merged[i] <==> merged[i].Plain? && cuts[i + 1] == cuts[i] + 1 && flat[cuts[i]].Hinted?
    ensures r[i] != merged[i] ==> r[i] == flat[cuts[i]]
  {
    assert IsGroup(flat, cuts[i], cuts[i + 1], merged[i].text);
    if cuts[i + 1] == cuts[i] + 1 {
      assert Spelled(flat, cuts[i], cuts[i + 1]) == "" + flat[cuts[i]].text;
    }
  }

  // ------------------------------------------- when re-binding completes

  /** The texts are concatenations of consecutive tokens that leave no token over; unlike
      `Covers`, a group may end in empty tokens. */
  ghost predicate LooseGroups(flat: seq<Token>, merged: seq<Token>, cuts: seq<nat>) {
    && |cuts| == |merged| + 1 && cuts[0] == 0 && cuts[|merged|] == |flat|
    && (forall i :: 0 <= i < |cuts| ==> cuts[i] <= |flat|)
    && (forall i :: 0 <= i < |merged| ==> LooseGroup(flat, cuts[i], cuts[i + 1], merged[i].text))
  }

  ghost predicate LooseGroup(flat: seq<Token>, from: nat, to: nat, text: string) {
    from <= to <= |flat| && Spelled(flat, from, to) == text
  }

  /** There is no token, or the last one is not empty. */
  predicate EndsInText(flat: seq<Token>) {
    flat == [] || flat[|flat| - 1].text != ""
  }

  /** `at` moved back over the empty tokens before it. */
  function Trim(flat: seq<Token>, at: nat): (r: nat)
    requires at <= |flat|
    ensures r <= at && (r > 0 ==> flat[r - 1].text != "")
  {
    if at == 0 || flat[at - 1].text != "" then at else Trim(flat, at - 1)
  }

  lemma {:induction false} TrimSkipsNothing(flat: seq<Token>, at: nat)
    requires at <= |flat|
    ensures Spelled(flat, Trim(flat, at), at) == ""
  {
    if at > 0 && flat[at - 1].text == "" {
      TrimSkipsNothing(flat, at - 1);
    }
  }

  lemma {:induction false} TrimMonotone(flat: seq<Token>, a: nat, b: nat)
    requires a <= b <= |flat|
    ensures Trim(flat, a) <= Trim(flat, b)
    decreases b
  {
    if a < b && flat[b - 1].text == "" {
      TrimMonotone(flat, a, b - 1);
    }
  }

  /** Empty tokens at the end of a group move into the next one without changing a text. */
  lemma {:induction false} TrimmedGroup(flat: seq<Token>, from: nat, to: nat, text: string)
    requires LooseGroup(flat, from, to, text)
    ensures IsGroup(flat, Trim(flat, from), Trim(flat, to), text)
  {
    var a, b := Trim(flat, from), Trim(flat, to);
    TrimMonotone(flat, from, to);
    TrimSkipsNothing(flat, from);
    TrimSkipsNothing(flat, to);
    SpelledSplit(flat, a, from, to);
    SpelledSplit(flat, a, b, to);
    assert Spelled(flat, a, b) + "" == Spelled(flat, a, b);
    assert "" + text == text;
  }

  function Trimmed(flat: seq<Token>, cuts: seq<nat>): (r: seq<nat>)
    requires forall i :: 0 <= i < |cuts| ==> cuts[i] <= |flat|
    ensures |r| == |cuts| && forall i :: 0 <= i < |cuts| ==> r[i] == Trim(flat, cuts[i])
  {
    seq(|cuts|, i requires 0 <= i < |cuts| => Trim(flat, cuts[i]))
  }

  /** Every loose grouping has a tight one, so only the tokens after its last cut can be
      left over. */
  lemma {:induction false} LooseHasGroups(flat: seq<Token>, merged: seq<Token>, cuts: seq<nat>)
    requires LooseGroups(flat, merged, cuts)
    ensures Groups(flat, merged, Trimmed(flat, cuts))
    ensures Trimmed(flat, cuts)[|merged|] == Trim(flat, |flat|)
  {
    var tight := Trimmed(flat, cuts);
    forall i | 0 <= i < |merged| ensures IsGroup(flat, tight[i], tight[i + 1], merged[i].text) {
      assert LooseGroup(flat, cuts[i], cuts[i + 1], merged[i].text);
      TrimmedGroup(flat, cuts[i], cuts[i + 1], merged[i].text);
    }
  }

  /** The texts can be re-bound exactly when they are concatenations of consecutive groups
      covering all tokens and the last token is not empty. Empty tokens elsewhere do no harm. */
  lemma {:induction false} CoversIff(flat: seq<Token>, merged: seq<Token>)
    ensures (exists c: seq<nat> :: Covers(flat, merged, c))
            <==> (exists c: seq<nat> :: LooseGroups(flat, merged, c)) && EndsInText(flat)
  {
    forall c: seq<nat> | LooseGroups(flat, merged, c)
      ensures Groups(flat, merged, Trimmed(flat, c)) && Trimmed(flat, c)[|merged|] == Trim(flat, |flat|)
    {
      LooseHasGroups(flat, merged, c);
    }
    forall c: seq<nat> | Covers(flat, merged, c) ensures LooseGroups(flat, merged, c) && EndsInText(flat) {
      GroupsUnique(flat, merged, c, Trimmed(flat, c), |merged|);
    }
    if (exists c: seq<nat> :: LooseGroups(flat, merged, c)) && EndsInText(flat) {
      var c: seq<nat> :| LooseGroups(flat, merged, c);
      assert Covers(flat, merged, Trimmed(flat, c));
    }
  }

  /** With no empty token every grouping into concatenations is the one recovered. */
  lemma {:induction false} NonemptyTokensGroup(flat: seq<Token>, merged: seq<Token>, cuts: seq<nat>)
    requires forall i :: 0 <= i < |flat| ==> flat[i].text != ""
    ensures LooseGroups(flat, merged, cuts) <==> Covers(flat, merged, cuts)
  {
    if LooseGroups(flat, merged, cuts) {
      LooseHasGroups(flat, merged, cuts);
      assert Trimmed(flat, cuts) == cuts;
    }
  }

  /** An empty token at the end of the sentence is never consumed, although grouping it
      with the last word would spell every text; one before it is. */
  lemma {:induction false} LastEmptyTokenIsOmitted(cuts: seq<nat>)
    ensures var merged := [Plain("a")];
            && LooseGroups([Plain("a"), Plain("")], merged, [0, 2])
            && !Covers([Plain("a"), Plain("")], merged, cuts)
            && Covers([Plain(""), Plain("a")], merged, [0, 2])
  {
    var last, first, merged := [Plain("a"), Plain("")], [Plain(""), Plain("a")], [Plain("a")];
    assert Spelled(last, 0, 2) == Spelled(last, 0, 1) + "" && Spelled(last, 0, 1) == Spelled(last, 0, 0) + "a";
    assert Spelled(first, 0, 2) == Spelled(first, 0, 1) + "a" && Spelled(first, 0, 1) == Spelled(first, 0, 0) + "";
    assert LooseGroups(last, merged, [0, 2]);
    CoversIff(last, merged);
  }

  // ------------------------------------------------- the whole sentence

  /** There is no token, or the last one's text is not empty and does not end in a space. */
  predicate EndsSolid(tokens: seq<Token>) {
    tokens == [] ||
    var text := tokens[|tokens| - 1].text;
    text != "" && text[|text| - 1] != ' '
  }

  /** Whether the flattened tokens end in text can be read off the last token. */
  lemma {:induction false} FlattenedEnd(tokens: seq<Token>)
    ensures EndsInText(Flattened(tokens)) <==> EndsSolid(tokens)
  {
    if tokens != [] {
      var last := tokens[|tokens| - 1];
      var parts, pieces, flat := SplitSpaces(last.text), Pieces(last), Flattened(tokens);
      SplitHasNoSpaces(last.text);
      assert pieces[|pieces| - 1].text == parts[|parts| - 1];
      assert flat[|flat| - 1] == pieces[|pieces| - 1];
    }
  }

  function TextsOf(flat: seq<Token>): seq<string> {
    seq(|flat|, i requires 0 <= i < |flat| => flat[i].text)
  }

  /** `_realign_sentence`: `align` stands for the foreign grouping of the flattened texts. It
      completes exactly when the merged texts are concatenations of consecutive groups
      covering the flattened tokens and the last token ends in text; when only the latter
      fails, tokens are reported omitted. */
  method RealignSentence(tokens: seq<Token>, align: seq<string> -> seq<Token>)
    returns (r: Result<seq<Token>, RealignFailure>)
    ensures var flat := Flattened(tokens);
            var merged := align(TextsOf(flat));
            && FlatOf(tokens, flat)
            && (r.Ok? <==> (exists c: seq<nat> :: LooseGroups(flat, merged, c)) && EndsSolid(tokens))
            && (r.Ok? ==> exists c: seq<nat> :: Covers(flat, merged, c) && RestoredBy(flat, merged, c, r.value))
            && ((exists c: seq<nat> :: LooseGroups(flat, merged, c)) && !EndsSolid(tokens) ==> r == Err(OmittedTokens))
  {
    var flat := Flatten(tokens);
    var merged := align(TextsOf(flat));
    FlattenedEnd(tokens);
    CoversIff(flat, merged);
    ghost var cuts;
    r, cuts := Rebind(flat, merged);
    if exists c: seq<nat> :: LooseGroups(flat, merged, c) {
      ghost var c: seq<nat> :| LooseGroups(flat, merged, c);
      LooseHasGroups(flat, merged, c);
      assert r.Err? ==> r.error.OmittedTokens?;
    }
  }
}
