/** Phrase ranges of a constituency tree: the tree walk, and the largest-first
    carving of its ranges into disjoint phrases. */
module PhraseRanges {
  import opened Outcomes
  import opened Sequences

  /** A parse node. `Bare` is a node without a `children` attribute; whether a node
      answers that it is a leaf is independent of its children. An absent label is "". */
  datatype Tree = Node(leaf: bool, label_: string, children: seq<Tree>) | Bare(leaf: bool, label_: string)

  /** The half-open index range `lo..hi` of one phrase. */
  datatype Span = Span(lo: int, hi: int) {
    function Len(): int { hi - lo }

    function Elements(): set<int> { Indices(lo, hi) }
  }

  predicate Inside(i: int, lo: int, hi: int) { lo <= i < hi }

  /** The integers from `lo` up to but not including `hi`. */
  function Indices(lo: int, hi: int): set<int> {
    set i | lo <= i < hi && Inside(i, lo, hi)
  }

  // ------------------------------------------------------------ tree walk

  function LeafCount(t: Tree): nat
    decreases t, 0
  {
    match t
    case Bare(_, _) => 0
    case Node(_, _, children) => LeavesBelow(children)
  }

  function LeavesBelow(children: seq<Tree>): nat
    decreases children, 0
  {
    if children == [] then 0 else LeavesAt(children[0]) + LeavesBelow(children[1..])
  }

  /** How far one child moves the leaf offset. */
  function LeavesAt(child: Tree): nat
    decreases child, 1
  {
    if child.leaf then 1 else LeafCount(child)
  }

  /** Every node the walk opens has children to read. */
  predicate Parsable(t: Tree)
    decreases t, 1
  {
    t.Node? && ChildrenParsable(t.children)
  }

  predicate ChildrenParsable(children: seq<Tree>)
    decreases children, 0
  {
    children == [] || ((children[0].leaf || Parsable(children[0])) && ChildrenParsable(children[1..]))
  }

  function LowerAscii(c: char): char {
    if 'A' <= c <= 'Z' then c + 'a' - 'A' else c
  }

  predicate Coordinates(name: string) {
    var lower := seq(|name|, i requires 0 <= i < |name| => LowerAscii(name[i]));
    lower == "cc" || lower == "conj"
  }

  predicate HasCoordination(children: seq<Tree>) {
    exists i :: 0 <= i < |children| && Coordinates(children[i].label_)
  }

  /** The coordinated S ranges below `t`, whose first leaf has index `offset`. */
  function Ranges(t: Tree, offset: int): seq<Span>
    requires Parsable(t)
    decreases t, 1
  {
    RangesIn(t.children, HasCoordination(t.children), offset)
  }

  function OwnRange(child: Tree, coordinated: bool, offset: int): seq<Span> {
    if coordinated && child.label_ == "S" then [Span(offset, offset + LeafCount(child))] else []
  }

  function RangesIn(children: seq<Tree>, coordinated: bool, offset: int): seq<Span>
    requires ChildrenParsable(children)
    decreases children, 0
  {
    if children == [] then []
    else if children[0].leaf then RangesIn(children[1..], coordinated, offset + 1)
    else
      OwnRange(children[0], coordinated, offset) + Ranges(children[0], offset)
      + RangesIn(children[1..], coordinated, offset + LeafCount(children[0]))
  }

  /** `_leaf_count`. */
  method CountLeaves(t: Tree) returns (count: nat)
    ensures count == LeafCount(t)
  {
    count := 0;
    if t.Bare? {
      return;
    }
    for i := 0 to |t.children|
      invariant count + LeavesBelow(t.children[i..]) == LeafCount(t)
    {
      assert t.children[i..][1..] == t.children[i + 1..];
      if t.children[i].leaf {
        count := count + 1;
      } else {
        var below := CountLeaves(t.children[i]);
        count := count + below;
      }
    }
  }

  /** `_parse_tree_indices`; `None` is the error a node without children raises. */
  method ParseTreeIndices(t: Tree, offset: int) returns (r: Option<seq<Span>>)
    ensures r.Some? <==> Parsable(t)
    ensures r.Some? ==> r.value == Ranges(t, offset)
    decreases t, 1
  {
    if t.Bare? {
      return None;
    }
    r := WalkChildren(t.children, HasCoordination(t.children), offset);
  }

  /** The child loop of the walk. */
  method WalkChildren(children: seq<Tree>, coordinated: bool, offset: int) returns (r: Option<seq<Span>>)
    ensures r.Some? <==> ChildrenParsable(children)
    ensures r.Some? ==> r.value == RangesIn(children, coordinated, offset)
    decreases children, 0
  {
    var result: seq<Span> := [];
    var childOffset := offset;
    for i := 0 to |children|
      invariant ChildrenParsable(children[i..]) <==> ChildrenParsable(children)
      invariant ChildrenParsable(children) ==>
                  result + RangesIn(children[i..], coordinated, childOffset) == RangesIn(children, coordinated, offset)
    {
      var child := children[i];
      WalkStep(children, i, coordinated, childOffset, result);
      if child.leaf {
        childOffset := childOffset + 1;
      } else {
        var leaves := CountLeaves(child);
        var own := OwnRange(child, coordinated, childOffset);
        var inner := ParseTreeIndices(child, childOffset);
        if inner.None? {
          return None;
        }
        result := result + own + inner.value;
        childOffset := childOffset + leaves;
      }
    }
    return Some(result);
  }

  /** The walk over child `i`, then over the rest, after `result`. */
  lemma {:induction false} WalkStep(children: seq<Tree>, i: nat, coordinated: bool, offset: int, result: seq<Span>)
    requires i < |children|
    ensures ChildrenParsable(children[i..]) <==>
            (children[i].leaf || Parsable(children[i])) && ChildrenParsable(children[i + 1..])
    ensures ChildrenParsable(children[i..]) && children[i].leaf ==>
              result + RangesIn(children[i..], coordinated, offset)
              == result + RangesIn(children[i + 1..], coordinated, offset + 1)
    ensures ChildrenParsable(children[i..]) && !children[i].leaf ==>
              result + RangesIn(children[i..], coordinated, offset)
              == result + OwnRange(children[i], coordinated, offset) + Ranges(children[i], offset)
                 + RangesIn(children[i + 1..], coordinated, offset + LeafCount(children[i]))
  {
    var rest := children[i..];
    assert rest[0] == children[i] && rest[1..] == children[i + 1..];
    if ChildrenParsable(rest) && !children[i].leaf {
      Regroup(result, OwnRange(children[i], coordinated, offset), Ranges(children[i], offset),
              RangesIn(children[i + 1..], coordinated, offset + LeafCount(children[i])));
    }
  }

  // ------------------------------------------------------------ laminarity

  predicate NestedOrDisjoint(a: Span, b: Span) {
    a.hi <= b.lo || b.hi <= a.lo || (a.lo <= b.lo && b.hi <= a.hi) || (b.lo <= a.lo && a.hi <= b.hi)
  }

  ghost predicate Within(spans: seq<Span>, lo: int, hi: int) {
    forall i :: 0 <= i < |spans| ==> lo <= spans[i].lo <= spans[i].hi <= hi
  }

  ghost predicate Laminar(spans: seq<Span>) {
    forall i, j :: 0 <= i < |spans| && 0 <= j < |spans| ==> NestedOrDisjoint(spans[i], spans[j])
  }

  /** Ranges of neighbouring stretches do not meet. */
  lemma {:induction false} JoinLaminar(a: seq<Span>, b: seq<Span>, lo: int, mid: int, hi: int)
    requires lo <= mid <= hi
    requires Within(a, lo, mid) && Within(b, mid, hi) && Laminar(a) && Laminar(b)
    ensures Within(a + b, lo, hi) && Laminar(a + b)
  {
  }

  /** A range over a whole stretch holds every range inside it. */
  lemma {:induction false} EncloseLaminar(outer: seq<Span>, inner: seq<Span>, lo: int, hi: int)
    requires lo <= hi && (outer == [] || outer == [Span(lo, hi)])
    requires Within(inner, lo, hi) && Laminar(inner)
    ensures Within(outer + inner, lo, hi) && Laminar(outer + inner)
  {
  }

  /** For every tree, the extracted ranges are contiguous stretches of its leaves and
      any two of them are nested or disjoint. */
  lemma {:induction false} RangesLaminar(t: Tree, offset: int)
    requires Parsable(t)
    ensures Within(Ranges(t, offset), offset, offset + LeafCount(t))
    ensures Laminar(Ranges(t, offset))
    decreases t, 1
  {
    RangesInLaminar(t.children, HasCoordination(t.children), offset);
  }

  lemma {:induction false} RangesInLaminar(children: seq<Tree>, coordinated: bool, offset: int)
    requires ChildrenParsable(children)
    ensures Within(RangesIn(children, coordinated, offset), offset, offset + LeavesBelow(children))
    ensures Laminar(RangesIn(children, coordinated, offset))
    decreases children, 0
  {
    if children != [] {
      var child := children[0];
      RangesInLaminar(children[1..], coordinated, offset + LeavesAt(child));
      if !child.leaf {
        var next, end := offset + LeafCount(child), offset + LeavesBelow(children);
        RangesLaminar(child, offset);
        EncloseLaminar(OwnRange(child, coordinated, offset), Ranges(child, offset), offset, next);
        JoinLaminar(OwnRange(child, coordinated, offset) + Ranges(child, offset),
                    RangesIn(children[1..], coordinated, next), offset, next, end);
      }
    }
  }

  // --------------------------------------------------------------- carving

  function InsertByLen(x: Span, sorted: seq<Span>): seq<Span> {
    if sorted == [] || x.Len() <= sorted[0].Len() then [x] + sorted
    else [sorted[0]] + InsertByLen(x, sorted[1..])
  }

  /** The stable sort by length. */
  function SortByLen(spans: seq<Span>): seq<Span> {
    if spans == [] then [] else InsertByLen(spans[0], SortByLen(spans[1..]))
  }

  predicate SortedByLen(s: seq<Span>) {
    forall i, j :: 0 <= i < j < |s| ==> s[i].Len() <= s[j].Len()
  }

  lemma {:induction false} InsertKeeps(x: Span, sorted: seq<Span>)
    ensures multiset(InsertByLen(x, sorted)) == multiset(sorted) + multiset{x}
  {
    if sorted != [] && x.Len() > sorted[0].Len() {
      InsertKeeps(x, sorted[1..]);
      assert sorted == [sorted[0]] + sorted[1..];
    }
  }

  lemma {:induction false} InsertedOneOf(x: Span, sorted: seq<Span>, i: nat)
    requires i < |InsertByLen(x, sorted)|
    ensures InsertByLen(x, sorted)[i] == x || InsertByLen(x, sorted)[i] in sorted
  {
    InsertKeeps(x, sorted);
    assert InsertByLen(x, sorted)[i] in multiset(InsertByLen(x, sorted));
  }

  lemma {:induction false} InsertSorted(x: Span, sorted: seq<Span>)
    requires SortedByLen(sorted)
    ensures SortedByLen(InsertByLen(x, sorted))
  {
    if sorted != [] && x.Len() > sorted[0].Len() {
      var first, rest := sorted[0], sorted[1..];
      InsertSorted(x, rest);
      var inserted := InsertByLen(x, rest);
      forall i | 0 <= i < |inserted| ensures first.Len() <= inserted[i].Len() {
        InsertedOneOf(x, rest, i);
      }
      PrependSorted(first, inserted);
    }
  }

  lemma {:induction false} PrependSorted(first: Span, rest: seq<Span>)
    requires SortedByLen(rest) && forall i :: 0 <= i < |rest| ==> first.Len() <= rest[i].Len()
    ensures SortedByLen([first] + rest)
  {
  }

  lemma {:induction false} SortFacts(spans: seq<Span>)
    ensures SortedByLen(SortByLen(spans)) && multiset(SortByLen(spans)) == multiset(spans)
  {
    if spans != [] {
      SortFacts(spans[1..]);
      InsertSorted(spans[0], SortByLen(spans[1..]));
      InsertKeeps(spans[0], SortByLen(spans[1..]));
      assert spans == [spans[0]] + spans[1..];
    }
  }

  ghost predicate DisjointNonempty(kept: seq<set<int>>) {
    && (forall i :: 0 <= i < |kept| ==> kept[i] != {})
    && (forall i, j :: 0 <= i < j < |kept| ==> kept[i] !! kept[j])
  }

  /** Some kept phrase holds all of `s`. */
  ghost predicate Held(s: set<int>, kept: seq<set<int>>) {
    exists i :: 0 <= i < |kept| && s <= kept[i]
  }

  ghost predicate InSome(x: int, kept: seq<set<int>>) {
    exists i :: 0 <= i < |kept| && x in kept[i]
  }

  /** `left` is what the kept phrases do not take from `s`. */
  ghost predicate Remainder(s: set<int>, kept: seq<set<int>>, left: set<int>) {
    && left <= s
    && (forall i :: 0 <= i < |kept| ==> left !! kept[i])
    && (forall x :: x in s && x !in left ==> InSome(x, kept))
  }

  ghost predicate WholeRange(s: set<int>, ranges: seq<Span>) {
    exists j :: 0 <= j < |ranges| && ranges[j].Elements() == s
  }

  ghost predicate AllHeld(ranges: seq<Span>, kept: seq<set<int>>) {
    forall j {:trigger Held(ranges[j].Elements(), kept)} ::
      0 <= j < |ranges| && ranges[j].lo < ranges[j].hi ==> Held(ranges[j].Elements(), kept)
  }

  ghost predicate AllWhole(ranges: seq<Span>, kept: seq<set<int>>) {
    forall i {:trigger WholeRange(kept[i], ranges)} :: 0 <= i < |kept| ==> WholeRange(kept[i], ranges)
  }

  /** What carving keeps of `ranges`: disjoint whole ranges, together holding every range. */
  ghost predicate MaximalPhrases(ranges: seq<Span>, kept: seq<set<int>>) {
    DisjointNonempty(kept) && AllWhole(ranges, kept) && AllHeld(ranges, kept)
  }

  /** No range properly contains a kept phrase. */
  lemma {:induction false} KeptAreMaximal(ranges: seq<Span>, kept: seq<set<int>>, i: nat, j: nat)
    requires MaximalPhrases(ranges, kept) && i < |kept| && j < |ranges| && kept[i] <= ranges[j].Elements()
    ensures ranges[j].Elements() == kept[i]
  {
    var phrase := ranges[j].Elements();
    assert ranges[j].lo < ranges[j].hi by {
      assert phrase != {};
    }
    assert Held(phrase, kept);
    var m :| 0 <= m < |kept| && phrase <= kept[m];
    assert kept[i] * kept[m] == kept[i];
  }

  ghost predicate LongestFirst(order: seq<Span>) {
    forall a, b :: 0 <= a < b < |order| ==> order[a].Len() >= order[b].Len()
  }

  /** The inner subtraction loop. */
  method Subtract(s: set<int>, kept: seq<set<int>>) returns (left: set<int>)
    ensures Remainder(s, kept, left)
  {
    left := s;
    for i := 0 to |kept|
      invariant left <= s
      invariant forall j :: 0 <= j < i ==> left !! kept[j]
      invariant forall x :: x in s && x !in left ==> InSome(x, kept)
    {
      left := left - kept[i];
    }
  }

  lemma {:induction false} HeldGrows(ranges: seq<Span>, r: Span, kept: seq<set<int>>, more: seq<set<int>>)
    requires AllHeld(ranges, kept) && kept <= more
    requires r.lo < r.hi ==> Held(r.Elements(), more)
    ensures AllHeld(ranges + [r], more)
  {
    var longer := ranges + [r];
    forall j | 0 <= j < |longer| && longer[j].lo < longer[j].hi ensures Held(longer[j].Elements(), more) {
      if j < |ranges| {
        assert Held(ranges[j].Elements(), kept);
        var i :| 0 <= i < |kept| && ranges[j].Elements() <= kept[i];
        assert more[i] == kept[i];
      }
    }
  }

  lemma {:induction false} WholeGrows(ranges: seq<Span>, r: Span, kept: seq<set<int>>)
    requires AllWhole(ranges, kept)
    ensures AllWhole(ranges + [r], kept) && WholeRange(r.Elements(), ranges + [r])
  {
    var longer := ranges + [r];
    assert longer[|ranges|] == r;
    forall i | 0 <= i < |kept| ensures WholeRange(kept[i], longer) {
      assert WholeRange(kept[i], ranges);
      var j :| 0 <= j < |ranges| && ranges[j].Elements() == kept[i];
      assert longer[j] == ranges[j];
    }
  }

  lemma {:induction false} Meets(order: seq<Span>, k: nat, kept: seq<set<int>>)
    requires k < |order| && Laminar(order) && LongestFirst(order) && AllWhole(order[..k], kept)
    ensures forall i :: 0 <= i < |kept| ==> order[k].Elements() <= kept[i] || order[k].Elements() !! kept[i]
  {
    forall i | 0 <= i < |kept| ensures order[k].Elements() <= kept[i] || order[k].Elements() !! kept[i] {
      assert WholeRange(kept[i], order[..k]);
      var j :| 0 <= j < k && order[..k][j].Elements() == kept[i];
      assert NestedOrDisjoint(order[j], order[k]) && order[k].Len() <= order[j].Len();
    }
  }

  /** A range of which nothing is left is held already. */
  lemma {:induction false} CarveSkips(order: seq<Span>, k: nat, kept: seq<set<int>>)
    requires k < |order| && Laminar(order) && LongestFirst(order)
    requires MaximalPhrases(order[..k], kept)
    requires Remainder(order[k].Elements(), kept, {})
    ensures MaximalPhrases(order[..k + 1], kept)
  {
    var s := order[k].Elements();
    Meets(order, k, kept);
    assert order[..k + 1] == order[..k] + [order[k]];
    WholeGrows(order[..k], order[k], kept);
    if order[k].lo < order[k].hi {
      assert order[k].lo in s;
      assert InSome(order[k].lo, kept);
      var i :| 0 <= i < |kept| && order[k].lo in kept[i];
      assert s <= kept[i];
      assert Held(s, kept);
    }
    HeldGrows(order[..k], order[k], kept, kept);
  }

  /** A range of which something is left is left whole, and is kept whole. */
  lemma {:induction false} CarveKeeps(order: seq<Span>, k: nat, kept: seq<set<int>>, left: set<int>)
    requires k < |order| && Laminar(order) && LongestFirst(order)
    requires MaximalPhrases(order[..k], kept)
    requires Remainder(order[k].Elements(), kept, left) && left != {}
    ensures left == order[k].Elements()
    ensures MaximalPhrases(order[..k + 1], kept + [left])
  {
    var s, more := order[k].Elements(), kept + [left];
    Meets(order, k, kept);
    NothingRemoved(s, kept, left);
    assert order[..k + 1] == order[..k] + [order[k]];
    WholeGrows(order[..k], order[k], kept);
    assert more[|kept|] == s;
    assert Held(s, more);
    HeldGrows(order[..k], order[k], kept, more);
    DisjointGrows(kept, left);
  }

  lemma {:induction false} DisjointGrows(kept: seq<set<int>>, left: set<int>)
    requires DisjointNonempty(kept) && left != {}
    requires forall i :: 0 <= i < |kept| ==> left !! kept[i]
    ensures DisjointNonempty(kept + [left])
  {
  }

  lemma {:induction false} NothingRemoved(s: set<int>, kept: seq<set<int>>, left: set<int>)
    requires Remainder(s, kept, left) && left != {}
    requires forall i :: 0 <= i < |kept| ==> s <= kept[i] || s !! kept[i]
    ensures left == s && forall i :: 0 <= i < |kept| ==> s !! kept[i]
  {
    forall i | 0 <= i < |kept| ensures s !! kept[i] {
      assert left <= s - kept[i];
    }
    forall y | y in s ensures y in left {
      assert y !in left ==> InSome(y, kept);
    }
  }

  /** The phrases kept from the ranges of an `n`-word sentence, followed by the words no
      range covers when there are any. `phrases` is how many entries are phrases. */
  ghost predicate Carved(ranges: seq<Span>, n: nat, kept: seq<set<int>>, phrases: nat) {
    && phrases <= |kept| <= phrases + 1
    && MaximalPhrases(ranges, kept[..phrases])
    && (|kept| == phrases ==> Remainder(Span(0, n).Elements(), kept[..phrases], {}))
    && (|kept| > phrases ==> kept[phrases] != {} && Remainder(Span(0, n).Elements(), kept[..phrases], kept[phrases]))
  }

  lemma {:induction false} MaximalPhrasesPermuted(a: seq<Span>, b: seq<Span>, kept: seq<set<int>>)
    requires multiset(a) == multiset(b) && MaximalPhrases(a, kept)
    ensures MaximalPhrases(b, kept)
  {
    forall i | 0 <= i < |kept| ensures WholeRange(kept[i], b) {
      assert WholeRange(kept[i], a);
      var j :| 0 <= j < |a| && a[j].Elements() == kept[i];
      assert a[j] in multiset(b);
      assert a[j] in b;
    }
    forall j | 0 <= j < |b| && b[j].lo < b[j].hi ensures Held(b[j].Elements(), kept) {
      assert b[j] in multiset(a);
      assert b[j] in a;
    }
  }

  /** The carving loop. Its subset test never rejects a nonempty remainder, which is
      why the loop's result is described without it. */
  method Carve(ranges: seq<Span>, n: nat) returns (kept: seq<set<int>>, ghost phrases: nat)
    requires Laminar(ranges)
    ensures Carved(ranges, n, kept, phrases)
    ensures exists count: nat :: Carved(ranges, n, kept, count)
  {
    var order := Reversed(SortByLen(ranges));
    ReversedFacts(ranges, order);
    kept := [];
    for k := 0 to |order|
      invariant MaximalPhrases(order[..k], kept)
    {
      var left, more := KeepRemainder(order[k].Elements(), kept);
      if left == {} {
        CarveSkips(order, k, kept);
      } else {
        CarveKeeps(order, k, kept, left);
      }
      kept := more;
    }
    assert order[..|order|] == order;
    MaximalPhrasesPermuted(order, ranges, kept);
    phrases := |kept|;
    ghost var before := kept;
    var left, more := KeepRemainder(Span(0, n).Elements(), kept);
    kept := more;
    assert kept[..phrases] == before;
    assert Carved(ranges, n, kept, phrases);
  }

  /** The body of the carving loop: subtract what is kept, then keep the remainder unless
      it is empty or part of a kept phrase. The second test never applies. */
  method KeepRemainder(s: set<int>, kept: seq<set<int>>) returns (left: set<int>, more: seq<set<int>>)
    ensures Remainder(s, kept, left)
    ensures more == if left == {} then kept else kept + [left]
  {
    left := Subtract(s, kept);
    more := kept;
    if left != {} && !(exists i | 0 <= i < |kept| :: left <= kept[i]) {
      more := kept + [left];
    } else if i :| 0 <= i < |kept| && left <= kept[i] {
      assert left * kept[i] == left;
    }
  }

  lemma {:induction false} ReversedFacts(ranges: seq<Span>, order: seq<Span>)
    requires Laminar(ranges) && order == Reversed(SortByLen(ranges))
    ensures Laminar(order) && multiset(order) == multiset(ranges)
    ensures LongestFirst(order)
  {
    var sorted := SortByLen(ranges);
    SortFacts(ranges);
    ReversedMultiset(sorted);
    forall i, j | 0 <= i < |order| && 0 <= j < |order| ensures NestedOrDisjoint(order[i], order[j]) {
      assert order[i] in multiset(order) && order[j] in multiset(order);
      assert order[i] in ranges && order[j] in ranges;
    }
  }
}
