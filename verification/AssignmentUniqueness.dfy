/** The utterance numbering is a function of the phrase ranges: neither the order in which
    equally long ranges are carved nor the numbers given to phrases can change it. */
module AssignmentUniqueness {
  import opened PhraseRanges
  import opened ClausePaths
  import opened UtteranceGroups

  // -------------------------------------------------- the same phrases

  /** Two maximal choices from the same ranges keep the same phrases. */
  lemma {:induction false} KeptByBoth(ranges: seq<Span>, a: seq<set<int>>, b: seq<set<int>>, i: nat)
    requires MaximalPhrases(ranges, a) && MaximalPhrases(ranges, b) && i < |a|
    ensures a[i] in b
  {
    assert WholeRange(a[i], ranges) && a[i] != {};
    var j :| 0 <= j < |ranges| && ranges[j].Elements() == a[i];
    assert ranges[j].lo < ranges[j].hi;
    assert Held(a[i], b);
    var k :| 0 <= k < |b| && a[i] <= b[k];
    assert WholeRange(b[k], ranges);
    var l :| 0 <= l < |ranges| && ranges[l].Elements() == b[k];
    KeptAreMaximal(ranges, a, i, l);
  }

  lemma {:induction false} SameRemainder(s: set<int>, a: seq<set<int>>, b: seq<set<int>>, left: set<int>,
                                         right: set<int>)
    requires Remainder(s, a, left) && Remainder(s, b, right)
    requires forall k :: 0 <= k < |b| ==> b[k] in a
    ensures left <= right
  {
    forall x | x in left ensures x in right {
      assert !InSome(x, b) by {
        forall k | 0 <= k < |b| ensures x !in b[k] {
          assert b[k] in a;
        }
      }
    }
  }

  /** Two carvings of the same ranges keep the same sets. */
  lemma {:induction false} CarvedByBoth(ranges: seq<Span>, n: nat, a: seq<set<int>>, c: nat, b: seq<set<int>>, d: nat,
                                        s: set<int>)
    requires Carved(ranges, n, a, c) && Carved(ranges, n, b, d) && s in a
    ensures s in b
  {
    var early, other := a[..c], b[..d];
    forall i | 0 <= i < |early| ensures early[i] in other {
      KeptByBoth(ranges, early, other, i);
    }
    forall i | 0 <= i < |other| ensures other[i] in early {
      KeptByBoth(ranges, other, early, i);
    }
    if s in early {
      assert s in other;
    } else {
      var all := Span(0, n).Elements();
      var rest := if |b| == d then {} else b[d];
      assert s == a[c];
      SameRemainder(all, early, other, s, rest);
      SameRemainder(all, other, early, rest, s);
      assert s == rest && s != {};
      assert |b| > d && b[d] == s;
    }
  }

  ghost predicate SameMembers(a: seq<set<int>>, b: seq<set<int>>) {
    forall s :: s in a <==> s in b
  }

  lemma {:induction false} SamePhrases(ranges: seq<Span>, n: nat, a: seq<set<int>>, b: seq<set<int>>)
    requires LabellingFor(ranges, n, a) && LabellingFor(ranges, n, b)
    ensures SameMembers(a, b)
  {
    var ka, ca :| Carved(ranges, n, ka, ca) && SameLarge(ka, a);
    var kb, cb :| Carved(ranges, n, kb, cb) && SameLarge(kb, b);
    forall s ensures s in a <==> s in b {
      if s in a {
        CarvedByBoth(ranges, n, ka, ca, kb, cb, s);
      }
      if s in b {
        CarvedByBoth(ranges, n, kb, cb, ka, ca, s);
      }
    }
  }

  // ------------------------------------------- labels up to renumbering

  /** The same words are unlabelled, and the same pairs of words agree. */
  ghost predicate SamePattern(a: seq<int>, b: seq<int>) {
    && |a| == |b|
    && (forall i :: 0 <= i < |a| ==> (a[i] == UNASSIGNED <==> b[i] == UNASSIGNED))
    && (forall i, j :: 0 <= i < |a| && 0 <= j < |a| ==> (a[i] == a[j] <==> b[i] == b[j]))
  }

  /** A word labelled by one numbering is labelled by the other, and so are its companions. */
  lemma {:induction false} LabelsFollow(n: nat, p: seq<set<int>>, a: seq<int>, q: seq<set<int>>, b: seq<int>,
                                        i: nat, j: nat)
    requires SameMembers(p, q) && LabelledBy(p, n, a) && LabelledBy(q, n, b) && i < n && j < n
    ensures a[i] != UNASSIGNED ==> b[i] != UNASSIGNED
    ensures a[i] != UNASSIGNED && a[i] == a[j] ==> b[i] == b[j]
  {
    if a[i] != UNASSIGNED {
      var phrase := p[a[i]];
      assert phrase in p;
      var k :| 0 <= k < |q| && q[k] == phrase;
      assert i in q[k];
      assert a[i] == a[j] ==> j in p[a[j]] && j in q[k];
    }
  }

  lemma {:induction false} SameLabels(n: nat, p: seq<set<int>>, a: seq<int>, q: seq<set<int>>, b: seq<int>)
    requires SameMembers(p, q) && LabelledBy(p, n, a) && LabelledBy(q, n, b)
    ensures SamePattern(a, b)
  {
    forall i, j | 0 <= i < n && 0 <= j < n
      ensures (a[i] == UNASSIGNED <==> b[i] == UNASSIGNED) && (a[i] == a[j] <==> b[i] == b[j])
    {
      LabelsFollow(n, p, a, q, b, i, j);
      LabelsFollow(n, q, b, p, a, i, j);
      LabelsFollow(n, p, a, q, b, j, i);
      LabelsFollow(n, q, b, p, a, j, i);
    }
  }

  // ------------------------------------------------------------ filling

  /** The label at `k`, or none past the end. */
  function LabelAt(ids: seq<int>, k: nat): int {
    if k < |ids| then ids[k] else UNASSIGNED
  }

  lemma {:induction false} NextSource(a: seq<int>, b: seq<int>, i: nat) returns (k: nat)
    requires SamePattern(a, b)
    ensures NextId(a, i) == LabelAt(a, k) && NextId(b, i) == LabelAt(b, k)
    decreases |a| - i
  {
    k := i;
    if i < |a| && a[i] == UNASSIGNED {
      k := NextSource(a, b, i + 1);
    }
  }

  lemma {:induction false} PrevSource(a: seq<int>, b: seq<int>, i: nat) returns (k: nat)
    requires SamePattern(a, b) && i <= |a|
    ensures PrevId(a, i) == LabelAt(a, k) && PrevId(b, i) == LabelAt(b, k)
    decreases i
  {
    if i == 0 {
      k := |a|;
    } else if a[i - 1] == UNASSIGNED {
      k := PrevSource(a, b, i - 1);
    } else {
      k := i - 1;
    }
  }

  /** Both fills copy a word's label from one and the same word. */
  lemma {:induction false} FillSource(a: seq<int>, b: seq<int>, i: nat) returns (k: nat)
    requires SamePattern(a, b) && i < |a|
    ensures FilledAt(a, i) == LabelAt(a, k) && FilledAt(b, i) == LabelAt(b, k)
  {
    k := NextSource(a, b, i);
    if NextId(a, i) == UNASSIGNED {
      k := PrevSource(a, b, i);
    }
  }

  lemma {:induction false} SameFill(a: seq<int>, b: seq<int>, f: seq<int>, g: seq<int>)
    requires SamePattern(a, b) && FilledUpTo(a, |a|, f) && FilledUpTo(b, |b|, g)
    ensures SamePattern(f, g)
  {
    forall i, j | 0 <= i < |f| && 0 <= j < |f|
      ensures (f[i] == UNASSIGNED <==> g[i] == UNASSIGNED) && (f[i] == f[j] <==> g[i] == g[j])
    {
      var k := FillSource(a, b, i);
      var l := FillSource(a, b, j);
      assert f[i] == LabelAt(a, k) && g[i] == LabelAt(b, k) && f[j] == LabelAt(a, l) && g[j] == LabelAt(b, l);
    }
  }

  // ---------------------------------------------------------- numbering

  lemma {:induction false} SameBoundaries(f: seq<int>, g: seq<int>, c: int)
    requires SamePattern(f, g) && Boundary(f, c)
    ensures Boundary(g, c)
  {
    var j :| c <= j && TripleAt(f, j);
    assert TripleAt(g, j) && TripleAt(g, c - 3);
  }

  lemma {:induction false} SameNumbers(f: seq<int>, g: seq<int>, a: seq<int>, b: seq<int>, c: nat)
    requires SamePattern(f, g) && NumbersBoundaries(f, a) && NumbersBoundaries(g, b) && c < |a|
    ensures a[c] == b[c]
  {
    if c > 0 {
      SameNumbers(f, g, a, b, c - 1);
      if Boundary(f, c) {
        SameBoundaries(f, g, c);
      } else if Boundary(g, c) {
        SameBoundaries(g, f, c);
      }
    }
  }

  /** One list of ranges has one utterance numbering. */
  lemma {:induction false} AssignmentUnique(ranges: seq<Span>, n: nat, a: seq<int>, b: seq<int>)
    requires AssignmentFor(ranges, n, a) && AssignmentFor(ranges, n, b)
    ensures a == b
  {
    var p, ids, f :| DerivedFrom(ranges, n, p, ids, f, a);
    var q, jds, g :| DerivedFrom(ranges, n, q, jds, g, b);
    SamePhrases(ranges, n, p, q);
    SameLabels(n, p, ids, q, jds);
    SameFill(ids, jds, f, g);
    forall c | 0 <= c < |a| ensures a[c] == b[c] {
      SameNumbers(f, g, a, b, c);
    }
  }

  // ------------------------------------------------------- two clauses

  const WORD := Bare(true, "w")
  const FOUR := Node(false, "S", [WORD, WORD, WORD, WORD])
  const COORDINATOR := Node(false, "CC", [WORD])
  const PAIR := Node(false, "S", [FOUR] + ([COORDINATOR] + ([FOUR] + [])))

  /** Nine words: four in a clause, the coordinator, four in another clause. */
  const TWO_CLAUSES := Node(false, "ROOT", [PAIR] + [])

  lemma {:induction false} OnlyLeaves(children: seq<Tree>, coordinated: bool, offset: int)
    requires forall i :: 0 <= i < |children| ==> children[i].leaf
    ensures ChildrenParsable(children) && RangesIn(children, coordinated, offset) == []
    ensures LeavesBelow(children) == |children|
  {
    if children != [] {
      OnlyLeaves(children[1..], coordinated, offset + 1);
    }
  }

  lemma {:induction false} NodeFirst(child: Tree, rest: seq<Tree>, coordinated: bool, offset: int)
    requires !child.leaf && Parsable(child) && ChildrenParsable(rest)
    ensures ChildrenParsable([child] + rest)
    ensures RangesIn([child] + rest, coordinated, offset) ==
            OwnRange(child, coordinated, offset) + Ranges(child, offset)
            + RangesIn(rest, coordinated, offset + LeafCount(child))
  {
    var all := [child] + rest;
    assert all[0] == child && all[1..] == rest;
  }

  lemma {:induction false} FourLeaves(offset: int)
    ensures Parsable(FOUR) && LeafCount(FOUR) == 4 && Ranges(FOUR, offset) == []
  {
    OnlyLeaves(FOUR.children, HasCoordination(FOUR.children), offset);
  }

  lemma {:induction false} PairRanges()
    ensures Parsable(PAIR) && Ranges(PAIR, 0) == [Span(0, 4), Span(5, 9)]
  {
    var one := [FOUR] + [];
    var two := [COORDINATOR] + one;
    FourLeaves(0);
    FourLeaves(5);
    OnlyLeaves(COORDINATOR.children, HasCoordination(COORDINATOR.children), 4);
    NodeFirst(FOUR, [], true, 5);
    NodeFirst(COORDINATOR, one, true, 4);
    NodeFirst(FOUR, two, true, 0);
    LabelAgrees("CC");
    assert PAIR.children[1] == COORDINATOR;
    assert Coordinates(PAIR.children[1].label_);
  }

  lemma {:induction false} TwoClausesRanges()
    ensures Parsable(TWO_CLAUSES) && Ranges(TWO_CLAUSES, 0) == [Span(0, 4), Span(5, 9)]
  {
    PairRanges();
    NodeFirst(PAIR, [], false, 0);
    LabelAgrees("S");
    assert TWO_CLAUSES.children == [PAIR];
  }

  /** The words of each clause are one utterance, and the coordinator joins the second. */
  lemma {:induction false} TwoClauses(a: seq<int>)
    ensures Parsable(TWO_CLAUSES)
    ensures AssignmentFor(Ranges(TWO_CLAUSES, 0), 9, a) <==> a == [0, 0, 0, 0, 1, 1, 1, 1, 1]
  {
    TwoClausesRanges();
    TwoClausesNumbered();
    if AssignmentFor([Span(0, 4), Span(5, 9)], 9, a) {
      AssignmentUnique([Span(0, 4), Span(5, 9)], 9, a, [0, 0, 0, 0, 1, 1, 1, 1, 1]);
    }
  }

  lemma {:induction false} TwoClausesNumbered()
    ensures AssignmentFor([Span(0, 4), Span(5, 9)], 9, [0, 0, 0, 0, 1, 1, 1, 1, 1])
  {
    var ranges := [Span(0, 4), Span(5, 9)];
    var kept: seq<set<int>> := [{5, 6, 7, 8}, {0, 1, 2, 3}, {4}];
    var phrases: seq<set<int>> := [{0, 1, 2, 3}, {5, 6, 7, 8}];
    var ids := [0, 0, 0, 0, UNASSIGNED, 1, 1, 1, 1];
    var filled := [0, 0, 0, 0, 1, 1, 1, 1, 1];
    TwoClausesCarved(ranges, kept);
    TwoClausesLarge(kept, phrases);
    TwoClausesLabelled(phrases, ids);
    TwoClausesFilled(ids, filled);
    TwoClausesBoundaries(filled);
    Numbered(ranges, 9, kept, 2, phrases, ids, filled, filled);
  }

  lemma {:induction false} Numbered(ranges: seq<Span>, n: nat, kept: seq<set<int>>, count: nat, phrases: seq<set<int>>,
                                    ids: seq<int>, filled: seq<int>, a: seq<int>)
    requires Carved(ranges, n, kept, count) && SameLarge(kept, phrases) && Phrases(phrases)
    requires LabelledBy(phrases, n, ids) && FilledUpTo(ids, n, filled) && NumbersBoundaries(filled, a)
    ensures AssignmentFor(ranges, n, a)
  {
    assert LabellingFor(ranges, n, phrases);
    assert DerivedFrom(ranges, n, phrases, ids, filled, a);
  }

  lemma {:induction false} TwoClausesLarge(kept: seq<set<int>>, phrases: seq<set<int>>)
    requires kept == [{5, 6, 7, 8}, {0, 1, 2, 3}, {4}] && phrases == [{0, 1, 2, 3}, {5, 6, 7, 8}]
    ensures Phrases(phrases) && SameLarge(kept, phrases)
  {
    assert |kept[2]| == 1 && |phrases[0]| == 4 && |phrases[1]| == 4;
  }

  lemma {:induction false} TwoClausesLabelled(phrases: seq<set<int>>, ids: seq<int>)
    requires phrases == [{0, 1, 2, 3}, {5, 6, 7, 8}] && ids == [0, 0, 0, 0, UNASSIGNED, 1, 1, 1, 1]
    ensures LabelledBy(phrases, 9, ids)
  {
  }

  lemma {:induction false} TwoClausesFilled(ids: seq<int>, filled: seq<int>)
    requires ids == [0, 0, 0, 0, UNASSIGNED, 1, 1, 1, 1] && filled == [0, 0, 0, 0, 1, 1, 1, 1, 1]
    ensures FilledUpTo(ids, 9, filled)
  {
    assert NextId(ids, 4) == NextId(ids, 5) == 1;
  }

  lemma {:induction false} TwoClausesBoundaries(filled: seq<int>)
    requires filled == [0, 0, 0, 0, 1, 1, 1, 1, 1]
    ensures NumbersBoundaries(filled, filled)
  {
    assert TripleAt(filled, 1) && TripleAt(filled, 4);
    assert Boundary(filled, 4);
  }

  lemma {:induction false} TwoClausesCarved(ranges: seq<Span>, kept: seq<set<int>>)
    requires ranges == [Span(0, 4), Span(5, 9)] && kept == [{5, 6, 7, 8}, {0, 1, 2, 3}, {4}]
    ensures Carved(ranges, 9, kept, 2)
  {
    var early := kept[..2];
    assert ranges[0].Elements() == early[1] && ranges[1].Elements() == early[0];
    assert WholeRange(early[0], ranges) && WholeRange(early[1], ranges);
    assert Held(ranges[0].Elements(), early) && Held(ranges[1].Elements(), early);
  }
}
