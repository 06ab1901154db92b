/** From carved phrases to utterance ids: labelling words, filling gaps, grouping
    runs, and merging the groups that are too small to stand alone. */
module UtteranceGroups {
  import opened Outcomes
  import opened Sequences
  import opened PhraseRanges
  import opened ClausePaths
  import opened Sets

  const UNASSIGNED := -1
  const SMALLEST_UTTERANCE := 3

  // ----------------------------------------------------------- labelling

  /** The phrases that label words: more than one index each, pairwise disjoint. */
  ghost predicate Phrases(phrases: seq<set<int>>) {
    && (forall p :: 0 <= p < |phrases| ==> |phrases[p]| > 1)
    && (forall p, q :: 0 <= p < q < |phrases| ==> phrases[p] !! phrases[q])
  }

  function LongerThanOne(kept: seq<set<int>>): seq<set<int>> {
    if kept == [] then []
    else if |kept[0]| > 1 then [kept[0]] + LongerThanOne(kept[1..])
    else LongerThanOne(kept[1..])
  }

  lemma {:induction false} LongerThanOneMembers(kept: seq<set<int>>, s: set<int>)
    ensures s in LongerThanOne(kept) <==> s in kept && |s| > 1
  {
    if kept != [] {
      LongerThanOneMembers(kept[1..], s);
      assert kept == [kept[0]] + kept[1..];
    }
  }

  lemma {:induction false} LongerThanOnePhrases(kept: seq<set<int>>)
    requires forall i, j :: 0 <= i < j < |kept| ==> kept[i] !! kept[j]
    ensures Phrases(LongerThanOne(kept))
  {
    if kept != [] {
      var first, rest := kept[0], LongerThanOne(kept[1..]);
      LongerThanOnePhrases(kept[1..]);
      if |first| > 1 {
        forall q | 0 <= q < |rest| ensures first !! rest[q] {
          LongerThanOneMembers(kept[1..], rest[q]);
          var j :| 0 <= j < |kept[1..]| && kept[1..][j] == rest[q];
          assert kept[j + 1] == rest[q];
        }
      }
    }
  }

  /** Word `i` carries the number of the phrase that holds it, or none. */
  ghost predicate LabelledBy(phrases: seq<set<int>>, n: nat, ids: seq<int>) {
    && |ids| == n
    && (forall i :: 0 <= i < n ==> UNASSIGNED <= ids[i] < |phrases|)
    && (forall i, p :: 0 <= i < n && 0 <= p < |phrases| ==> (ids[i] == p <==> i in phrases[p]))
  }

  /** Write phrase `p` over its indices that are words. */
  method LabelPhrase(phrase: set<int>, p: int, ids: seq<int>) returns (r: seq<int>)
    ensures |r| == |ids|
    ensures forall i :: 0 <= i < |ids| ==> r[i] == if i in phrase then p else ids[i]
  {
    r := ids;
    var todo := phrase;
    while todo != {}
      invariant todo <= phrase && |r| == |ids|
      invariant forall i :: 0 <= i < |ids| ==> r[i] == if i in phrase && i !in todo then p else ids[i]
      decreases todo
    {
      ghost var any := Pick(todo);
      var i :| i in todo;
      if 0 <= i < |r| {
        r := r[i := p];
      }
      todo := todo - {i};
    }
  }

  method LabelWords(phrases: seq<set<int>>, n: nat) returns (ids: seq<int>)
    requires Phrases(phrases)
    ensures LabelledBy(phrases, n, ids)
  {
    ids := seq(n, _ => UNASSIGNED);
    for p := 0 to |phrases|
      invariant LabelledBy(phrases[..p], n, ids)
    {
      ids := LabelPhrase(phrases[p], p, ids);
    }
    assert phrases[..|phrases|] == phrases;
  }

  // ------------------------------------------------------------- filling

  /** The first assigned id at or after `i`. */
  function NextId(ids: seq<int>, i: nat): int
    decreases |ids| - i
  {
    if i >= |ids| then UNASSIGNED else if ids[i] != UNASSIGNED then ids[i] else NextId(ids, i + 1)
  }

  /** The last assigned id before `i`. */
  function PrevId(ids: seq<int>, i: nat): int
    requires i <= |ids|
  {
    if i == 0 then UNASSIGNED else if ids[i - 1] != UNASSIGNED then ids[i - 1] else PrevId(ids, i - 1)
  }

  /** An unlabelled word joins the next labelled one, or else the previous one. */
  function FilledAt(ids: seq<int>, i: nat): int
    requires i < |ids|
  {
    if NextId(ids, i) != UNASSIGNED then NextId(ids, i) else PrevId(ids, i)
  }

  ghost predicate FilledUpTo(ids: seq<int>, limit: nat, r: seq<int>) {
    && |r| == |ids|
    && (forall i :: 0 <= i < limit && i < |ids| ==> r[i] == FilledAt(ids, i))
    && (forall i :: limit <= i < |ids| ==> r[i] == ids[i])
  }

  lemma {:induction false} NextUnchanged(ids: seq<int>, limit: nat, r: seq<int>, i: nat)
    requires FilledUpTo(ids, limit, r) && limit <= i
    ensures NextId(r, i) == NextId(ids, i)
    decreases |ids| - i
  {
    if i < |ids| && ids[i] == UNASSIGNED {
      NextUnchanged(ids, limit, r, i + 1);
    }
  }

  /** When nothing is assigned from `limit` on, searching back through filled words finds
      what searching back through the labels would. */
  lemma {:induction false} PrevUnchanged(ids: seq<int>, limit: nat, r: seq<int>, i: nat)
    requires FilledUpTo(ids, limit, r) && i <= limit && i <= |ids| && NextId(ids, i) == UNASSIGNED
    ensures PrevId(r, i) == PrevId(ids, i)
    decreases i
  {
    if i > 0 && ids[i - 1] == UNASSIGNED {
      assert NextId(ids, i - 1) == UNASSIGNED;
      assert r[i - 1] == PrevId(ids, i - 1);
      PrevUnchanged(ids, limit, r, i - 1);
    }
  }

  method SearchForward(ids: seq<int>, i: nat) returns (id: int)
    requires i < |ids|
    ensures id == NextId(ids, i + 1)
  {
    var j := i + 1;
    while j < |ids|
      invariant i + 1 <= j <= |ids| && NextId(ids, i + 1) == NextId(ids, j)
    {
      if ids[j] != UNASSIGNED {
        return ids[j];
      }
      j := j + 1;
    }
    return UNASSIGNED;
  }

  method SearchBackward(ids: seq<int>, i: nat) returns (id: int)
    requires i < |ids|
    ensures id == PrevId(ids, i)
  {
    var j := i;
    while j > 0
      invariant 0 <= j <= i && PrevId(ids, i) == PrevId(ids, j)
    {
      if ids[j - 1] != UNASSIGNED {
        return ids[j - 1];
      }
      j := j - 1;
    }
    return UNASSIGNED;
  }

  /** The gap-filling loop, which reads the words it has already filled. */
  method FillGaps(ids: seq<int>) returns (r: seq<int>)
    ensures FilledUpTo(ids, |ids|, r)
    ensures forall i :: 0 <= i < |ids| ==> TakesLabel(ids, i, r[i])
  {
    r := ids;
    for i := 0 to |ids|
      invariant FilledUpTo(ids, i, r)
    {
      if r[i] == UNASSIGNED {
        var id := SearchForward(r, i);
        NextUnchanged(ids, i, r, i + 1);
        if id == UNASSIGNED {
          PrevUnchanged(ids, i, r, i);
          id := SearchBackward(r, i);
        }
        r := r[i := id];
      }
    }
    forall i | 0 <= i < |ids| ensures TakesLabel(ids, i, r[i]) {
      FilledTakes(ids, i);
    }
  }

  /** Word `k` is the first labelled one from `i` on. */
  ghost predicate NextAt(ids: seq<int>, i: nat, k: nat) {
    i <= k < |ids| && ids[k] != UNASSIGNED && forall j :: i <= j < k ==> ids[j] == UNASSIGNED
  }

  /** Word `k` is the last labelled one before `i`. */
  ghost predicate PrevAt(ids: seq<int>, i: nat, k: nat) {
    k < i <= |ids| && ids[k] != UNASSIGNED && forall j :: k < j < i ==> ids[j] == UNASSIGNED
  }

  ghost predicate NoneLabelled(ids: seq<int>, from: nat, to: nat) {
    to <= |ids| && forall j :: from <= j < to ==> ids[j] == UNASSIGNED
  }

  /** A word's label is that of the next labelled word, itself included, or else that of the
      previous one, or else none. */
  ghost predicate TakesLabel(ids: seq<int>, i: nat, id: int) {
    || (exists k: nat :: NextAt(ids, i, k) && id == ids[k])
    || (NoneLabelled(ids, i, |ids|) && exists k: nat :: PrevAt(ids, i, k) && id == ids[k])
    || (NoneLabelled(ids, 0, |ids|) && id == UNASSIGNED)
  }

  lemma {:induction false} NextMeans(ids: seq<int>, i: nat) returns (k: nat)
    requires i <= |ids|
    ensures if NextId(ids, i) == UNASSIGNED then NoneLabelled(ids, i, |ids|)
            else NextAt(ids, i, k) && NextId(ids, i) == ids[k]
    decreases |ids| - i
  {
    k := i;
    if i < |ids| && ids[i] == UNASSIGNED {
      k := NextMeans(ids, i + 1);
    }
  }

  lemma {:induction false} PrevMeans(ids: seq<int>, i: nat) returns (k: nat)
    requires i <= |ids|
    ensures if PrevId(ids, i) == UNASSIGNED then NoneLabelled(ids, 0, i)
            else PrevAt(ids, i, k) && PrevId(ids, i) == ids[k]
  {
    k := 0;
    if i > 0 {
      k := i - 1;
      if ids[i - 1] == UNASSIGNED {
        k := PrevMeans(ids, i - 1);
      }
    }
  }

  lemma {:induction false} FilledTakes(ids: seq<int>, i: nat)
    requires i < |ids|
    ensures TakesLabel(ids, i, FilledAt(ids, i))
  {
    var next := NextMeans(ids, i);
    var prev := PrevMeans(ids, i);
  }

  /** Filling leaves either every word labelled or none. */
  lemma {:induction false} FillIsAllOrNothing(ids: seq<int>, r: seq<int>, k: nat)
    requires FilledUpTo(ids, |ids|, r) && k < |ids| && ids[k] != UNASSIGNED
    ensures forall i :: 0 <= i < |r| ==> r[i] != UNASSIGNED
  {
    forall i | 0 <= i < |r| ensures r[i] != UNASSIGNED {
      var next := NextMeans(ids, i);
      var prev := PrevMeans(ids, i);
    }
  }

  // ------------------------------------------------------------ grouping

  function Run(lo: int, hi: int): (r: seq<int>)
    requires lo <= hi
    ensures |r| == hi - lo && forall i :: 0 <= i < |r| ==> r[i] == lo + i
  {
    seq(hi - lo, i => lo + i)
  }

  /** `groups` cut the words `0..limit` into consecutive nonempty runs at `cuts`. */
  ghost predicate CutAt(groups: seq<seq<int>>, cuts: seq<int>, limit: int) {
    && |cuts| == |groups| + 1 && cuts[0] == 0 && cuts[|groups|] == limit
    && (forall g :: 0 <= g < |groups| ==> cuts[g] < cuts[g + 1] && groups[g] == Run(cuts[g], cuts[g + 1]))
  }

  /** Words in one group carry one id; an id changes at every cut between groups. */
  ghost predicate RunsOf(ids: seq<int>, groups: seq<seq<int>>, cuts: seq<int>, limit: nat) {
    && limit <= |ids| && CutAt(groups, cuts, limit)
    && (forall c :: 0 < c < limit ==> (c in cuts <==> ids[c - 1] != ids[c]))
  }

  lemma {:induction false} CutsIncrease(groups: seq<seq<int>>, cuts: seq<int>, limit: int, a: nat, b: nat)
    requires CutAt(groups, cuts, limit) && a <= b <= |groups|
    ensures cuts[a] <= cuts[b] && (a < b ==> cuts[a] < cuts[b])
    decreases b - a
  {
    if a < b {
      CutsIncrease(groups, cuts, limit, a + 1, b);
    }
  }

  /** Consecutive words with equal ids, grouped. */
  method GroupRuns(ids: seq<int>) returns (groups: seq<seq<int>>, ghost cuts: seq<int>)
    ensures RunsOf(ids, groups, cuts, |ids|)
    ensures exists c :: RunsOf(ids, groups, c, |ids|)
  {
    groups, cuts := [], [0];
    for i := 0 to |ids|
      invariant RunsOf(ids, groups, cuts, i)
    {
      if i > 0 && ids[i - 1] == ids[i] {
        var last := |groups| - 1;
        ghost var g0, c0 := groups, cuts;
        groups := groups[last := groups[last] + [i]];
        cuts := cuts[last + 1 := i + 1];
        ExtendLastRun(ids, i, g0, c0, groups, cuts);
      } else {
        ghost var g0, c0 := groups, cuts;
        groups := groups + [[i]];
        cuts := cuts + [i + 1];
      }
    }
  }

  lemma {:induction false} ExtendLastRun(ids: seq<int>, i: nat, g0: seq<seq<int>>, c0: seq<int>, g1: seq<seq<int>>,
                                         c1: seq<int>)
    requires 0 < i < |ids| && ids[i - 1] == ids[i] && RunsOf(ids, g0, c0, i)
    requires g0 != [] && g1 == g0[|g0| - 1 := g0[|g0| - 1] + [i]] && c1 == c0[|g0| := i + 1]
    ensures RunsOf(ids, g1, c1, i + 1)
  {
    var last := |g0| - 1;
    assert g0[last] == Run(c0[last], i) && g1[last] == Run(c0[last], i + 1);
    forall g | 0 <= g < |g1| ensures c1[g] < c1[g + 1] && g1[g] == Run(c1[g], c1[g + 1]) {
      assert c0[g] < c0[g + 1] && g0[g] == Run(c0[g], c0[g + 1]);
    }
    forall c | 0 < c < i + 1 ensures c in c1 <==> ids[c - 1] != ids[c] {
      if c < i {
        CutMembers(c0, c1, |g0|, c);
      } else if c in c1 {
        var k :| 0 <= k < |c1| && c1[k] == c;
        CutsIncrease(g0, c0, i, k, |g0|);
      }
    }
  }

  lemma {:induction false} CutMembers(c0: seq<int>, c1: seq<int>, k: nat, c: int)
    requires k < |c0| && |c1| == |c0| && c1 == c0[k := c1[k]] && c != c0[k] && c != c1[k]
    ensures c in c0 <==> c in c1
  {
    if c in c0 {
      var j :| 0 <= j < |c0| && c0[j] == c;
      assert c1[j] == c;
    }
  }

  // ------------------------------------------------------------- merging

  /** Merged groups: cut only where the runs were cut. */
  ghost predicate MergedFrom(merged: seq<seq<int>>, mcuts: seq<int>, limit: int, cuts: seq<int>) {
    CutAt(merged, mcuts, limit) && forall g :: 0 <= g < |mcuts| ==> mcuts[g] in cuts
  }

  ghost predicate LargeGroups(groups: seq<seq<int>>) {
    forall g :: 0 <= g < |groups| ==> |groups[g]| >= SMALLEST_UTTERANCE
  }

  ghost predicate Large(groups: seq<seq<int>>, g: int) {
    0 <= g < |groups| && |groups[g]| >= SMALLEST_UTTERANCE
  }

  /** `c` ends a large group among the first `limit`. */
  ghost predicate EndsLarge(groups: seq<seq<int>>, cuts: seq<int>, limit: int, c: int)
    requires |cuts| == |groups| + 1
  {
    exists g :: g < limit && Large(groups, g) && cuts[g + 1] == c
  }

  /** The state of the merge loop after `g` groups: `last` is the last large group so far. */
  ghost predicate Merging(groups: seq<seq<int>>, cuts: seq<int>, g: nat, last: int,
                          merged: seq<seq<int>>, mcuts: seq<int>)
    requires |cuts| == |groups| + 1
  {
    && |mcuts| > 0 && g <= |groups|
    && MergedFrom(merged, mcuts, mcuts[|mcuts| - 1], cuts) && LargeGroups(merged)
    && (if last == -1 then merged == [] else merged != [] && last < g && Large(groups, last)
                                             && mcuts[|mcuts| - 1] == cuts[last + 1])
    && (forall h :: last < h < g ==> !Large(groups, h))
    && (forall c :: c > 0 ==> (c in mcuts <==> EndsLarge(groups, cuts, g, c)))
  }

  /** The merge loop: groups of fewer than three words wait for the next large one, and
      the last ones left join the last large one. A boundary survives exactly where a
      large group ends and another large group follows. */
  method MergeSmall(groups: seq<seq<int>>, ghost cuts: seq<int>, ghost limit: int)
    returns (merged: seq<seq<int>>, ghost mcuts: seq<int>)
    requires CutAt(groups, cuts, limit)
    ensures MergedFrom(merged, mcuts, limit, cuts)
    ensures |merged| <= 1 || LargeGroups(merged)
    ensures forall c :: 0 < c < limit ==> (c in mcuts <==> Separates(groups, cuts, c))
  {
    var pending: seq<int> := [];
    merged, mcuts := [], [0];
    ghost var last := -1;
    assert 0 in cuts;
    for g := 0 to |groups|
      invariant Merging(groups, cuts, g, last, merged, mcuts)
      invariant mcuts[|mcuts| - 1] <= cuts[g] && pending == Run(mcuts[|mcuts| - 1], cuts[g])
    {
      ghost var from := mcuts[|mcuts| - 1];
      assert cuts[g] < cuts[g + 1] && cuts[g + 1] in cuts;
      assert pending + groups[g] == Run(from, cuts[g + 1]);
      if |groups[g]| < SMALLEST_UTTERANCE {
        MergeWaits(groups, cuts, g, last, merged, mcuts);
        pending := pending + groups[g];
      } else {
        MergeCloses(groups, cuts, g, last, merged, mcuts);
        merged := merged + [pending + groups[g]];
        mcuts := mcuts + [cuts[g + 1]];
        last := g;
        pending := [];
      }
    }
    assert limit in cuts;
    MergeEnds(groups, cuts, limit, last, merged, mcuts);
    merged, mcuts := JoinPending(merged, pending, mcuts, cuts, limit);
  }

  /** What is still pending after the loop joins the last group, or is the only one. */
  method JoinPending(groups: seq<seq<int>>, pending: seq<int>, ghost gcuts: seq<int>, ghost cuts: seq<int>,
                     ghost limit: int)
    returns (merged: seq<seq<int>>, ghost mcuts: seq<int>)
    requires |gcuts| > 0 && gcuts[|gcuts| - 1] <= limit && limit in cuts
    requires MergedFrom(groups, gcuts, gcuts[|gcuts| - 1], cuts) && LargeGroups(groups)
    requires pending == Run(gcuts[|gcuts| - 1], limit)
    ensures MergedFrom(merged, mcuts, limit, cuts)
    ensures |merged| <= 1 || LargeGroups(merged)
    ensures forall c :: 0 < c < limit ==> (c in mcuts <==> c in gcuts && c != gcuts[|gcuts| - 1])
  {
    merged, mcuts := groups, gcuts;
    if pending != [] {
      ghost var from := gcuts[|gcuts| - 1];
      if merged != [] {
        var end := |merged| - 1;
        StretchLastGroup(merged, mcuts, from, cuts, limit);
        assert merged[end] + pending == Run(mcuts[end], limit);
        merged := merged[end := merged[end] + pending];
        mcuts := mcuts[end + 1 := limit];
        forall c | 0 < c < limit ensures c in mcuts <==> c in gcuts && c != from {
          LastCutMoves(groups, gcuts, from, mcuts, limit, c);
        }
      } else {
        merged := [pending];
        mcuts := mcuts + [limit];
      }
    }
  }

  lemma {:induction false} LastCutMoves(groups: seq<seq<int>>, gcuts: seq<int>, from: int, mcuts: seq<int>,
                                        limit: int, c: int)
    requires CutAt(groups, gcuts, from) && mcuts == gcuts[|groups| := limit] && c != limit
    ensures c in mcuts <==> c in gcuts && c != from
  {
    if c in mcuts {
      var k :| 0 <= k < |mcuts| && mcuts[k] == c;
      CutsIncrease(groups, gcuts, from, k, |groups|);
      assert gcuts[k] == c;
    }
    if c in gcuts && c != from {
      var k :| 0 <= k < |gcuts| && gcuts[k] == c;
      assert mcuts[k] == c;
    }
  }

  /** A large group ends at `c` and another one comes later. */
  ghost predicate Separates(groups: seq<seq<int>>, cuts: seq<int>, c: int)
    requires |cuts| == |groups| + 1
  {
    exists g, h :: g < h && Large(groups, g) && Large(groups, h) && cuts[g + 1] == c
  }

  lemma {:induction false} MergeWaits(groups: seq<seq<int>>, cuts: seq<int>, g: nat, last: int, merged: seq<seq<int>>,
                                      mcuts: seq<int>)
    requires |cuts| == |groups| + 1 && g < |groups| && !Large(groups, g)
    requires Merging(groups, cuts, g, last, merged, mcuts)
    ensures Merging(groups, cuts, g + 1, last, merged, mcuts)
  {
    forall c | c > 0 ensures EndsLarge(groups, cuts, g, c) <==> EndsLarge(groups, cuts, g + 1, c) {
      if EndsLarge(groups, cuts, g + 1, c) {
        var k :| k < g + 1 && Large(groups, k) && cuts[k + 1] == c;
        assert k < g;
      }
    }
  }

  lemma {:induction false} MergeCloses(groups: seq<seq<int>>, cuts: seq<int>, g: nat, last: int,
                                       merged: seq<seq<int>>, mcuts: seq<int>)
    requires |cuts| == |groups| + 1 && Large(groups, g) && cuts[g + 1] in cuts && cuts[g] < cuts[g + 1]
    requires Merging(groups, cuts, g, last, merged, mcuts) && mcuts[|mcuts| - 1] <= cuts[g]
    requires |groups[g]| == cuts[g + 1] - cuts[g]
    ensures Merging(groups, cuts, g + 1, g, merged + [Run(mcuts[|mcuts| - 1], cuts[g + 1])], mcuts + [cuts[g + 1]])
  {
    var c1 := mcuts + [cuts[g + 1]];
    forall c | c > 0 ensures c in c1 <==> EndsLarge(groups, cuts, g + 1, c) {
      if c in c1 && c in mcuts {
        var k :| k < g && Large(groups, k) && cuts[k + 1] == c;
        assert EndsLarge(groups, cuts, g + 1, c);
      }
      if EndsLarge(groups, cuts, g + 1, c) {
        var k :| k < g + 1 && Large(groups, k) && cuts[k + 1] == c;
        if k < g {
          assert EndsLarge(groups, cuts, g, c);
        }
      }
    }
  }

  /** Once every group is seen, the boundaries other than the last one are the separating cuts. */
  lemma {:induction false} MergeEnds(groups: seq<seq<int>>, cuts: seq<int>, limit: int, last: int,
                                     merged: seq<seq<int>>, mcuts: seq<int>)
    requires CutAt(groups, cuts, limit) && Merging(groups, cuts, |groups|, last, merged, mcuts)
    ensures forall c :: 0 < c ==> (c in mcuts && c != mcuts[|mcuts| - 1] <==> Separates(groups, cuts, c))
    ensures mcuts[|mcuts| - 1] > 0 ==> !Separates(groups, cuts, mcuts[|mcuts| - 1])
  {
    forall c | 0 < c ensures c in mcuts && c != mcuts[|mcuts| - 1] <==> Separates(groups, cuts, c) {
      if c in mcuts && c != mcuts[|mcuts| - 1] {
        var k :| k < |groups| && Large(groups, k) && cuts[k + 1] == c;
        assert k < last;
        assert Large(groups, last);
      }
      if Separates(groups, cuts, c) {
        var g, h :| g < h && Large(groups, g) && Large(groups, h) && cuts[g + 1] == c;
        assert EndsLarge(groups, cuts, |groups|, c);
        assert h <= last;
        CutsIncrease(groups, cuts, limit, g + 1, last + 1);
      }
    }
  }

  lemma {:induction false} StretchLastGroup(merged: seq<seq<int>>, mcuts: seq<int>, from: int, cuts: seq<int>, to: int)
    requires MergedFrom(merged, mcuts, from, cuts) && merged != [] && from < to && to in cuts
    ensures var last := |merged| - 1;
            mcuts[last] < from && MergedFrom(merged[last := Run(mcuts[last], to)], mcuts[last + 1 := to], to, cuts)
  {
    var last := |merged| - 1;
    assert mcuts[last] < mcuts[last + 1];
    var m1, c1 := merged[last := Run(mcuts[last], to)], mcuts[last + 1 := to];
    forall g | 0 <= g < |m1| ensures c1[g] < c1[g + 1] && m1[g] == Run(c1[g], c1[g + 1]) {
      assert mcuts[g] < mcuts[g + 1] && merged[g] == Run(mcuts[g], mcuts[g + 1]);
    }
  }

  /** The last loop: every word of group `g` gets the id `g`. */
  method AssignGroups(groups: seq<seq<int>>, n: nat, ghost cuts: seq<int>) returns (a: seq<int>)
    requires CutAt(groups, cuts, n)
    ensures NumberedBy(groups, cuts, n, a)
  {
    a := seq(n, _ => 0);
    for g := 0 to |groups|
      invariant |a| == n
      invariant forall h, i :: 0 <= h < g && cuts[h] <= i < cuts[h + 1] && 0 <= i < n ==> a[i] == h
    {
      ghost var before := a;
      CutsIncrease(groups, cuts, n, 0, g);
      CutsIncrease(groups, cuts, n, g + 1, |groups|);
      assert groups[g] == Run(cuts[g], cuts[g + 1]);
      for k := 0 to |groups[g]|
        invariant |a| == n
        invariant forall i :: 0 <= i < n && i < cuts[g] ==> a[i] == before[i]
        invariant forall i :: 0 <= i < n && cuts[g] <= i < cuts[g] + k ==> a[i] == g
      {
        a := a[groups[g][k] := g];
      }
      forall h, i | 0 <= h < g + 1 && cuts[h] <= i < cuts[h + 1] && 0 <= i < n ensures a[i] == h {
        if h < g {
          CutsIncrease(groups, cuts, n, h + 1, g);
        }
      }
    }
  }

  /** Word `i` carries the number of the group it lies in. */
  ghost predicate NumberedBy(groups: seq<seq<int>>, cuts: seq<int>, n: nat, a: seq<int>) {
    && CutAt(groups, cuts, n) && |a| == n
    && (forall h, i :: 0 <= h < |groups| && cuts[h] <= i < cuts[h + 1] && 0 <= i < n ==> a[i] == h)
  }

  // ------------------------------------------------- the final shape

  /** Ids start at 0 and rise by at most one from word to word. */
  ghost predicate RisesByOne(a: seq<int>) {
    && (|a| > 0 ==> a[0] == 0)
    && (forall i :: 0 < i < |a| ==> a[i - 1] <= a[i] <= a[i - 1] + 1)
  }

  /** Word `i` lies in a stretch of three neighbouring words with one id. */
  ghost predicate InTriple(a: seq<int>, i: int) {
    exists j :: 0 <= j <= i <= j + 2 < |a| && a[j] == a[j + 1] == a[j + 2]
  }

  ghost predicate LargeOrSingle(a: seq<int>) {
    || (forall i :: 0 <= i < |a| ==> a[i] == 0)
    || (forall i :: 0 <= i < |a| ==> InTriple(a, i))
  }

  /** The group that holds word `i`. */
  lemma {:induction false} GroupOf(groups: seq<seq<int>>, cuts: seq<int>, n: nat, i: nat, k: nat) returns (g: nat)
    requires CutAt(groups, cuts, n) && k <= |groups| && i < cuts[k]
    ensures g < |groups| && cuts[g] <= i < cuts[g + 1]
    decreases k
  {
    if cuts[k - 1] <= i {
      g := k - 1;
    } else {
      g := GroupOf(groups, cuts, n, i, k - 1);
    }
  }

  /** Neighbouring words have the same id unless a cut separates them, and then the id
      rises by one. */
  lemma {:induction false} Neighbours(groups: seq<seq<int>>, cuts: seq<int>, n: nat, a: seq<int>, i: nat)
    requires NumberedBy(groups, cuts, n, a) && 0 < i < n
    ensures a[i] == if i in cuts then a[i - 1] + 1 else a[i - 1]
  {
    var g := GroupOf(groups, cuts, n, i, |groups|);
    if cuts[g] == i {
      assert g > 0;
      assert cuts[g - 1] < cuts[g];
      assert a[i - 1] == g - 1;
    } else {
      assert a[i - 1] == g;
      if i in cuts {
        var k :| 0 <= k < |cuts| && cuts[k] == i;
        if k <= g {
          CutsIncrease(groups, cuts, n, k, g);
        } else {
          CutsIncrease(groups, cuts, n, g + 1, k);
        }
      }
    }
  }

  lemma {:induction false} ShapeOfNumbering(groups: seq<seq<int>>, cuts: seq<int>, n: nat, a: seq<int>)
    requires NumberedBy(groups, cuts, n, a)
    requires |groups| <= 1 || LargeGroups(groups)
    ensures RisesByOne(a) && LargeOrSingle(a)
  {
    if n > 0 {
      var g := GroupOf(groups, cuts, n, 0, |groups|);
      CutsIncrease(groups, cuts, n, 0, g);
    }
    forall i | 0 < i < n ensures a[i - 1] <= a[i] <= a[i - 1] + 1 {
      Neighbours(groups, cuts, n, a, i);
    }
    if |groups| <= 1 {
      forall i | 0 <= i < n ensures a[i] == 0 {
        var g := GroupOf(groups, cuts, n, i, |groups|);
      }
    } else {
      forall i | 0 <= i < n ensures InTriple(a, i) {
        var g := GroupOf(groups, cuts, n, i, |groups|);
        assert |groups[g]| == cuts[g + 1] - cuts[g] >= 3;
        CutsIncrease(groups, cuts, n, g + 1, |groups|);
        CutsIncrease(groups, cuts, n, 0, g);
        var j := if i + 2 < cuts[g + 1] then i else cuts[g + 1] - 3;
        assert a[j] == g && a[j + 1] == g && a[j + 2] == g;
      }
    }
  }

  // ------------------------------------------------- the whole pipeline

  /** No utterance boundary falls inside a phrase range of the tree. */
  ghost predicate KeepsPhrases(ranges: seq<Span>, a: seq<int>) {
    forall r, i :: 0 <= r < |ranges| && ranges[r].lo <= i - 1 && i < ranges[r].hi && 0 < i < |a| ==> a[i - 1] == a[i]
  }

  /** Every phrase range with two or more words is held by one labelling phrase. */
  ghost predicate HoldsRanges(ranges: seq<Span>, phrases: seq<set<int>>) {
    forall r :: 0 <= r < |ranges| && ranges[r].lo + 1 < ranges[r].hi ==> Held(ranges[r].Elements(), phrases)
  }

  /** `phrases` are the carved phrases and the remainder, without single words. */
  ghost predicate LabellingFor(ranges: seq<Span>, n: nat, phrases: seq<set<int>>) {
    Phrases(phrases) &&
    exists kept, count :: Carved(ranges, n, kept, count) && SameLarge(kept, phrases)
  }

  ghost predicate SameLarge(kept: seq<set<int>>, phrases: seq<set<int>>) {
    forall s :: s in phrases <==> s in kept && |s| > 1
  }

  /** The labelling phrases: what carving kept, in reverse order, without single words. */
  method LabellingPhrases(ranges: seq<Span>, n: nat) returns (phrases: seq<set<int>>)
    requires Laminar(ranges)
    ensures LabellingFor(ranges, n, phrases)
  {
    var kept, count := Carve(ranges, n);
    var reversed := Reversed(kept);
    CarvedDisjoint(ranges, n, kept, count);
    LongerThanOnePhrases(reversed);
    phrases := LongerThanOne(reversed);
    forall s ensures s in phrases <==> s in kept && |s| > 1 {
      LongerThanOneMembers(reversed, s);
      ReversedMembers(kept, s);
    }
    assert SameLarge(kept, phrases);
  }

  lemma {:induction false} LabellingHolds(ranges: seq<Span>, n: nat, phrases: seq<set<int>>)
    requires LabellingFor(ranges, n, phrases)
    ensures HoldsRanges(ranges, phrases)
  {
    var kept, count :| Carved(ranges, n, kept, count) && SameLarge(kept, phrases);
    forall r | 0 <= r < |ranges| && ranges[r].lo + 1 < ranges[r].hi ensures Held(ranges[r].Elements(), phrases) {
      var i := RangeKept(ranges[r], kept[..count]);
      assert kept[..count][i] == kept[i] && kept[i] in kept;
      assert kept[i] in phrases;
    }
  }

  /** A range of two or more words lies in a kept phrase of two or more. */
  lemma {:induction false} RangeKept(r: Span, kept: seq<set<int>>) returns (i: nat)
    requires r.lo + 1 < r.hi && Held(r.Elements(), kept)
    ensures i < |kept| && r.Elements() <= kept[i] && |kept[i]| > 1
  {
    i :| i < |kept| && r.Elements() <= kept[i];
    var two := {r.lo, r.lo + 1};
    assert two <= kept[i];
    SubsetSize(two, kept[i]);
  }

  lemma {:induction false} CarvedDisjoint(ranges: seq<Span>, n: nat, kept: seq<set<int>>, count: nat)
    requires Carved(ranges, n, kept, count)
    ensures forall i, j :: 0 <= i < j < |kept| ==> kept[i] !! kept[j]
  {
    var early := kept[..count];
    if |kept| > count {
      LastDisjoint(early, kept[count]);
      assert kept == early + [kept[count]];
    } else {
      assert kept == early;
    }
  }

  lemma {:induction false} LastDisjoint(early: seq<set<int>>, last: set<int>)
    requires DisjointNonempty(early) && forall i :: 0 <= i < |early| ==> last !! early[i]
    ensures forall i, j :: 0 <= i < j < |early| + 1 ==> (early + [last])[i] !! (early + [last])[j]
  {
  }

  /** Two neighbouring words of one range keep one label through filling. */
  lemma {:induction false} RangeNotCut(ranges: seq<Span>, phrases: seq<set<int>>, n: nat, ids: seq<int>,
                                       filled: seq<int>, r: nat, i: nat)
    requires HoldsRanges(ranges, phrases) && LabelledBy(phrases, n, ids) && FilledUpTo(ids, n, filled)
    requires r < |ranges| && ranges[r].lo <= i - 1 && i < ranges[r].hi && 0 < i < n
    ensures filled[i - 1] == filled[i]
  {
    var s := ranges[r].Elements();
    assert i in s && i - 1 in s;
    assert Held(s, phrases);
    var p :| 0 <= p < |phrases| && s <= phrases[p];
    assert ids[i] == p && ids[i - 1] == p;
  }

  /** How the ids follow from the ranges: phrases label their words, unlabelled words are
      filled in, and boundaries are read off the filled labels. */
  ghost predicate DerivedFrom(ranges: seq<Span>, n: nat, phrases: seq<set<int>>, ids: seq<int>, filled: seq<int>,
                              a: seq<int>) {
    && LabellingFor(ranges, n, phrases)
    && LabelledBy(phrases, n, ids)
    && FilledUpTo(ids, n, filled)
    && NumbersBoundaries(filled, a)
  }

  ghost predicate AssignmentFor(ranges: seq<Span>, n: nat, a: seq<int>) {
    exists phrases, ids, filled :: DerivedFrom(ranges, n, phrases, ids, filled, a)
  }

  /** Labels that never change have no boundary, so every id is 0. */
  lemma {:induction false} ConstantLabels(ids: seq<int>, a: seq<int>)
    requires forall i :: 0 <= i < |ids| ==> ids[i] == UNASSIGNED
    requires |a| == |ids| && forall i :: 0 <= i < |a| ==> a[i] == 0
    ensures NumbersBoundaries(ids, a)
  {
  }

  /** `compute_assignments`: the ids of the words, or the error the tree walk raises.
      `tree` is the parse of the first sentence; its leaves need not be the words. */
  method ComputeAssignments(n: nat, tree: Tree) returns (r: Option<seq<int>>)
    ensures r.Some? <==> n <= 1 || Parsable(tree)
    ensures r.Some? ==> |r.value| == n && RisesByOne(r.value) && LargeOrSingle(r.value)
    ensures r.Some? && n > 1 ==> AssignmentFor(Ranges(tree, 0), n, r.value)
    ensures r.Some? && n > 1 ==>
              exists ranges, leaves, clauses ::
                && ClausesOf(tree, 0, ranges, leaves, clauses)
                && AssignmentFor(ranges, n, r.value) && KeepsPhrases(ranges, r.value)
  {
    if n <= 1 {
      return Some(seq(n, _ => 0));
    }
    var parsed := ParseTreeIndices(tree, 0);
    if parsed.None? {
      return None;
    }
    RangesLaminar(tree, 0);
    RangesAreClauses(tree, 0);
    var a := AssignmentsFromRanges(parsed.value, n);
    return Some(a);
  }

  /** The part of `compute_assignments` after the tree walk. */
  method AssignmentsFromRanges(ranges: seq<Span>, n: nat) returns (a: seq<int>)
    requires Laminar(ranges)
    ensures |a| == n && RisesByOne(a) && LargeOrSingle(a)
    ensures AssignmentFor(ranges, n, a) && KeepsPhrases(ranges, a)
  {
    var phrases := LabellingPhrases(ranges, n);
    a := seq(n, _ => 0);
    if phrases == [] {
      ghost var none := seq(n, _ => UNASSIGNED);
      NothingToFill(none);
      ConstantLabels(none, a);
      assert DerivedFrom(ranges, n, phrases, none, none, a);
      return;
    }
    var ids := LabelWords(phrases, n);
    var filled := FillGaps(ids);
    if UNASSIGNED in filled {
      NothingLabelled(ids, filled);
      ConstantLabels(filled, a);
    } else {
      a := NumberRuns(filled);
    }
    assert DerivedFrom(ranges, n, phrases, ids, filled, a);
    AssignmentKeepsPhrases(ranges, n, a);
  }

  /** A word left unlabelled after filling means that no word was labelled. */
  lemma {:induction false} NothingLabelled(ids: seq<int>, filled: seq<int>)
    requires FilledUpTo(ids, |ids|, filled)
    requires UNASSIGNED in filled || forall i :: 0 <= i < |ids| ==> ids[i] == UNASSIGNED
    ensures forall i :: 0 <= i < |filled| ==> filled[i] == UNASSIGNED
  {
    if k :| 0 <= k < |ids| && ids[k] != UNASSIGNED {
      FillIsAllOrNothing(ids, filled, k);
    } else {
      forall i | 0 <= i < |filled| ensures filled[i] == UNASSIGNED {
        FilledTakes(ids, i);
      }
    }
  }

  lemma {:induction false} NothingToFill(ids: seq<int>)
    requires forall i :: 0 <= i < |ids| ==> ids[i] == UNASSIGNED
    ensures FilledUpTo(ids, |ids|, ids)
  {
    forall i | 0 <= i < |ids| ensures FilledAt(ids, i) == UNASSIGNED {
      FilledTakes(ids, i);
    }
  }

  /** No utterance boundary ever falls inside a coordinated phrase of the tree. */
  lemma {:induction false} AssignmentKeepsPhrases(ranges: seq<Span>, n: nat, a: seq<int>)
    requires AssignmentFor(ranges, n, a)
    ensures KeepsPhrases(ranges, a)
  {
    var phrases, ids, filled :| DerivedFrom(ranges, n, phrases, ids, filled, a);
    LabellingHolds(ranges, n, phrases);
    forall r, i | 0 <= r < |ranges| && ranges[r].lo <= i - 1 && i < ranges[r].hi && 0 < i < |a|
      ensures a[i - 1] == a[i]
    {
      RangeNotCut(ranges, phrases, n, ids, filled, r, i);
      NoChangeNoBoundary(filled, a, i);
    }
  }

  lemma {:induction false} NoChangeNoBoundary(ids: seq<int>, a: seq<int>, c: nat)
    requires NumbersBoundaries(ids, a) && 0 < c < |a| && ids[c - 1] == ids[c]
    ensures a[c - 1] == a[c]
  {
    assert !Boundary(ids, c);
  }

  /** Grouping, merging and numbering. */
  method NumberRuns(filled: seq<int>) returns (a: seq<int>)
    ensures |a| == |filled| && RisesByOne(a) && LargeOrSingle(a)
    ensures NumbersBoundaries(filled, a)
  {
    var groups, cuts := GroupRuns(filled);
    var merged, mcuts := MergeSmall(groups, cuts, |filled|);
    a := AssignGroups(merged, |filled|, mcuts);
    ShapeOfNumbering(merged, mcuts, |filled|, a);
    forall c | 0 < c < |a| ensures a[c] == if Boundary(filled, c) then a[c - 1] + 1 else a[c - 1] {
      Neighbours(merged, mcuts, |filled|, a, c);
      BoundarySeparates(filled, groups, cuts, c);
    }
  }

  /** Three neighbouring words with one label start at `j`. */
  predicate TripleAt(ids: seq<int>, j: int) {
    0 <= j && j + 2 < |ids| && ids[j] == ids[j + 1] == ids[j + 2]
  }

  /** An utterance starts at word `c`: the label changes there, the three words before
      agree, and some three words from there on agree. */
  ghost predicate Boundary(ids: seq<int>, c: int) {
    && 0 < c < |ids| && ids[c - 1] != ids[c]
    && TripleAt(ids, c - 3)
    && exists j :: c <= j && TripleAt(ids, j)
  }

  ghost predicate NumbersBoundaries(ids: seq<int>, a: seq<int>) {
    |a| == |ids| && (|a| > 0 ==> a[0] == 0) &&
    forall c :: 0 < c < |a| ==> a[c] == if Boundary(ids, c) then a[c - 1] + 1 else a[c - 1]
  }

  /** Three agreeing neighbours lie in one group. */
  lemma {:induction false} TripleInGroup(ids: seq<int>, groups: seq<seq<int>>, cuts: seq<int>, j: nat) returns (g: nat)
    requires RunsOf(ids, groups, cuts, |ids|) && TripleAt(ids, j)
    ensures Large(groups, g) && cuts[g] <= j && j + 3 <= cuts[g + 1]
  {
    g := GroupOf(groups, cuts, |ids|, j, |groups|);
    var end := cuts[g + 1];
    assert end in cuts && groups[g] == Run(cuts[g], end);
    CutsIncrease(groups, cuts, |ids|, g + 1, |groups|);
    assert 0 < end < |ids| ==> ids[end - 1] != ids[end];
  }

  /** Neighbours within a group agree. */
  lemma {:induction false} GroupAgrees(ids: seq<int>, groups: seq<seq<int>>, cuts: seq<int>, g: nat, i: nat)
    requires RunsOf(ids, groups, cuts, |ids|) && g < |groups| && cuts[g] < i < cuts[g + 1]
    ensures 0 < i < |ids| && ids[i - 1] == ids[i]
  {
    CutsIncrease(groups, cuts, |ids|, g + 1, |groups|);
    CutsIncrease(groups, cuts, |ids|, 0, g);
    if i in cuts {
      var k :| 0 <= k < |cuts| && cuts[k] == i;
      if k <= g {
        CutsIncrease(groups, cuts, |ids|, k, g);
      } else {
        CutsIncrease(groups, cuts, |ids|, g + 1, k);
      }
    }
  }

  lemma {:induction false} LargeHasTriples(ids: seq<int>, groups: seq<seq<int>>, cuts: seq<int>, g: nat, j: int)
    requires RunsOf(ids, groups, cuts, |ids|) && Large(groups, g) && cuts[g] <= j && j + 3 <= cuts[g + 1]
    ensures TripleAt(ids, j)
  {
    assert groups[g] == Run(cuts[g], cuts[g + 1]);
    CutsIncrease(groups, cuts, |ids|, 0, g);
    GroupAgrees(ids, groups, cuts, g, j + 1);
    GroupAgrees(ids, groups, cuts, g, j + 2);
  }

  /** The cuts that survive merging are the boundaries read off the labels. */
  lemma {:induction false} BoundarySeparates(ids: seq<int>, groups: seq<seq<int>>, cuts: seq<int>, c: nat)
    requires RunsOf(ids, groups, cuts, |ids|) && 0 < c < |ids|
    ensures Separates(groups, cuts, c) <==> Boundary(ids, c)
  {
    if Separates(groups, cuts, c) {
      var g, h :| g < h && Large(groups, g) && Large(groups, h) && cuts[g + 1] == c;
      assert c in cuts;
      assert groups[g] == Run(cuts[g], cuts[g + 1]) && groups[h] == Run(cuts[h], cuts[h + 1]);
      LargeHasTriples(ids, groups, cuts, g, cuts[g + 1] - 3);
      LargeHasTriples(ids, groups, cuts, h, cuts[h]);
      CutsIncrease(groups, cuts, |ids|, g + 1, h);
      assert c <= cuts[h] && TripleAt(ids, cuts[h]);
    }
    if Boundary(ids, c) {
      var j :| c <= j && TripleAt(ids, j);
      var g := TripleInGroup(ids, groups, cuts, c - 3);
      var h := TripleInGroup(ids, groups, cuts, j);
      var k :| 0 <= k < |cuts| && cuts[k] == c;
      if k <= g {
        CutsIncrease(groups, cuts, |ids|, k, g);
      } else if k > g + 1 {
        CutsIncrease(groups, cuts, |ids|, g + 1, k);
      }
      if h <= g {
        CutsIncrease(groups, cuts, |ids|, h + 1, g + 1);
      }
      assert Separates(groups, cuts, c);
    }
  }
}
