/** Which phrases the tree walk extracts: each is a clause of the tree, found at a path of
    child positions, and its range counts the leaves before it and under it. */
module ClausePaths {
  import opened PhraseRanges

  /** Child positions from the root down. */
  type Path = seq<nat>

  /** The label is "cc" or "conj", in capitals or not. */
  ghost predicate Coordinating(name: string) {
    || (|name| == 2 && name[0] in "cC" && name[1] in "cC")
    || (|name| == 4 && name[0] in "cC" && name[1] in "oO" && name[2] in "nN" && name[3] in "jJ")
  }

  /** Some child is a coordinator. */
  ghost predicate Coordinated(children: seq<Tree>) {
    exists i :: 0 <= i < |children| && Coordinating(children[i].label_)
  }

  /** A leaf, reached only through nodes that are not leaves. */
  ghost predicate LeafPath(t: Tree, p: Path)
    decreases |p|, 1
  {
    t.Node? && LeafPathIn(t.children, 0, p)
  }

  /** The same among children at the positions from `base` on. */
  ghost predicate LeafPathIn(children: seq<Tree>, base: nat, p: Path)
    decreases |p|, 0
  {
    && p != [] && base <= p[0] < base + |children|
    && var child := children[p[0] - base];
       if |p| == 1 then child.leaf else !child.leaf && LeafPath(child, p[1..])
  }

  /** A node labelled S that is no leaf, reached only through nodes that are not leaves, with
      a coordinator among its parent's children. */
  ghost predicate Clause(t: Tree, p: Path)
    decreases |p|, 1
  {
    t.Node? && ClauseIn(t.children, Coordinated(t.children), 0, p)
  }

  ghost predicate ClauseIn(children: seq<Tree>, coordinated: bool, base: nat, p: Path)
    decreases |p|, 0
  {
    && p != [] && base <= p[0] < base + |children|
    && var child := children[p[0] - base];
       !child.leaf && if |p| == 1 then coordinated && child.label_ == "S" else Clause(child, p[1..])
  }

  /** `p` lies to the left of `q` in the tree. */
  ghost predicate Before(p: Path, q: Path)
    decreases |p|
  {
    p != [] && q != [] && (p[0] < q[0] || (p[0] == q[0] && Before(p[1..], q[1..])))
  }

  ghost predicate LeftToRight(paths: seq<Path>) {
    forall i, j :: 0 <= i < j < |paths| ==> Before(paths[i], paths[j])
  }

  /** The leaves before `q` are those before `lo`; the leaves under `q` go from `lo` to `hi`. */
  ghost predicate SpanAt(leaves: seq<Path>, q: Path, lo: int, hi: int) {
    && 0 <= lo <= hi <= |leaves|
    && (forall k :: 0 <= k < |leaves| ==> (k < lo <==> Before(leaves[k], q)) && (lo <= k < hi <==> q <= leaves[k]))
  }

  /** `ranges` are the clauses of the tree: with its leaves listed from left to right, each
      clause gives the range from the number of leaves before it, as long as the number of
      leaves under it, shifted by `offset`. */
  ghost predicate ClausesOf(t: Tree, offset: int, ranges: seq<Span>, leaves: seq<Path>, clauses: seq<Path>) {
    && LeftToRight(leaves) && (forall p :: p in leaves <==> LeafPath(t, p))
    && (forall q :: q in clauses <==> Clause(t, q))
    && |ranges| == |clauses|
    && (forall k :: 0 <= k < |ranges| ==> SpanAt(leaves, clauses[k], ranges[k].lo - offset, ranges[k].hi - offset))
  }

  // ------------------------------------------------------- listing both

  ghost function Prefixed(first: nat, paths: seq<Path>): (r: seq<Path>)
    ensures |r| == |paths| && forall i :: 0 <= i < |r| ==> r[i] == [first] + paths[i]
  {
    seq(|paths|, i requires 0 <= i < |paths| => [first] + paths[i])
  }

  ghost function LeafPaths(t: Tree): seq<Path>
    decreases t, 1
  {
    if t.Bare? then [] else LeafPathsIn(t.children, 0)
  }

  ghost function LeafPathsIn(children: seq<Tree>, base: nat): seq<Path>
    decreases children, 0
  {
    if children == [] then [] else LeafPathsAt(children[0], base) + LeafPathsIn(children[1..], base + 1)
  }

  ghost function LeafPathsAt(child: Tree, base: nat): seq<Path>
    decreases child, 2
  {
    if child.leaf then [[base]] else Prefixed(base, LeafPaths(child))
  }

  ghost function ClausePaths(t: Tree): seq<Path>
    decreases t, 1
  {
    if t.Bare? then [] else ClausePathsIn(t.children, Coordinated(t.children), 0)
  }

  ghost function ClausePathsIn(children: seq<Tree>, coordinated: bool, base: nat): seq<Path>
    decreases children, 0
  {
    if children == [] then []
    else if children[0].leaf then ClausePathsIn(children[1..], coordinated, base + 1)
    else
      (if coordinated && children[0].label_ == "S" then [[base]] else [])
      + Prefixed(base, ClausePaths(children[0])) + ClausePathsIn(children[1..], coordinated, base + 1)
  }

  lemma {:induction false} PrefixedMembers(first: nat, paths: seq<Path>, p: Path)
    ensures p in Prefixed(first, paths) <==> p != [] && p[0] == first && p[1..] in paths
  {
    var r := Prefixed(first, paths);
    if p in r {
      var i :| 0 <= i < |r| && r[i] == p;
      assert p[1..] == paths[i];
    }
    if p != [] && p[0] == first && p[1..] in paths {
      var i :| 0 <= i < |paths| && paths[i] == p[1..];
      assert p == [first] + p[1..];
      assert r[i] == p;
    }
  }

  // ------------------------------------------------------- the leaves

  lemma {:induction false} LeavesListed(t: Tree)
    ensures LeftToRight(LeafPaths(t)) && |LeafPaths(t)| == LeafCount(t)
    ensures forall p :: p in LeafPaths(t) <==> LeafPath(t, p)
    decreases t, 1
  {
    if t.Node? {
      LeavesListedIn(t.children, 0);
    }
  }

  lemma {:induction false} LeavesListedIn(children: seq<Tree>, base: nat)
    ensures LeftToRight(LeafPathsIn(children, base)) && |LeafPathsIn(children, base)| == LeavesBelow(children)
    ensures forall p :: p in LeafPathsIn(children, base) <==> LeafPathIn(children, base, p)
    decreases children, 0
  {
    if children != [] {
      var rest := LeafPathsIn(children[1..], base + 1);
      LeavesListedIn(children[1..], base + 1);
      LeavesListedAt(children[0], base);
      JoinLeftToRight(LeafPathsAt(children[0], base), rest, base);
      forall p ensures p in LeafPathsIn(children, base) <==> LeafPathIn(children, base, p) {
        LeafStep(children, base, p);
      }
    }
  }

  /** A leaf path goes through the first child or a later one. */
  lemma {:induction false} LeafStep(children: seq<Tree>, base: nat, p: Path)
    requires children != []
    ensures LeafPathIn(children, base, p) <==>
            (p != [] && p[0] == base && LeafPathAt(children[0], p)) || LeafPathIn(children[1..], base + 1, p)
  {
    if p != [] && base < p[0] < base + |children| {
      assert children[1..][p[0] - (base + 1)] == children[p[0] - base];
    }
  }

  ghost predicate LeafPathAt(child: Tree, p: Path)
    requires p != []
  {
    if |p| == 1 then child.leaf else !child.leaf && LeafPath(child, p[1..])
  }

  lemma {:induction false} LeavesListedAt(child: Tree, base: nat)
    ensures LeftToRight(LeafPathsAt(child, base)) && |LeafPathsAt(child, base)| == LeavesAt(child)
    ensures forall p :: p in LeafPathsAt(child, base) <==> p != [] && p[0] == base && LeafPathAt(child, p)
    decreases child, 2
  {
    if child.leaf {
      assert forall p: Path :: p != [] && p[0] == base && |p| == 1 ==> p == [base];
    } else {
      LeavesListed(child);
      PrefixedInOrder(base, LeafPaths(child));
      forall p ensures p in LeafPathsAt(child, base) <==> p != [] && p[0] == base && LeafPathAt(child, p) {
        PrefixedMembers(base, LeafPaths(child), p);
        assert !LeafPath(child, []);
      }
    }
  }

  lemma {:induction false} PrefixedInOrder(first: nat, paths: seq<Path>)
    requires LeftToRight(paths)
    ensures LeftToRight(Prefixed(first, paths))
  {
    var r := Prefixed(first, paths);
    forall i, j | 0 <= i < j < |r| ensures Before(r[i], r[j]) {
      assert r[i][1..] == paths[i] && r[j][1..] == paths[j];
    }
  }

  lemma {:induction false} JoinLeftToRight(head: seq<Path>, rest: seq<Path>, base: nat)
    requires LeftToRight(head) && LeftToRight(rest)
    requires forall p :: p in head ==> p != [] && p[0] == base
    requires forall p :: p in rest ==> p != [] && p[0] > base
    ensures LeftToRight(head + rest)
  {
    var all := head + rest;
    forall i, j | 0 <= i < j < |all| ensures Before(all[i], all[j]) {
      assert i < |head| ==> all[i] in head;
      assert j >= |head| ==> all[j] in rest;
    }
  }

  // ------------------------------------------------------ the clauses

  lemma {:induction false} ClausesListed(t: Tree)
    ensures forall q :: q in ClausePaths(t) <==> Clause(t, q)
    decreases t, 1
  {
    if t.Node? {
      ClausesListedIn(t.children, Coordinated(t.children), 0);
    }
  }

  lemma {:induction false} ClausesListedIn(children: seq<Tree>, coordinated: bool, base: nat)
    ensures forall q :: q in ClausePathsIn(children, coordinated, base) <==> ClauseIn(children, coordinated, base, q)
    decreases children, 0
  {
    if children != [] {
      var child, rest := children[0], ClausePathsIn(children[1..], coordinated, base + 1);
      ClausesListedIn(children[1..], coordinated, base + 1);
      if !child.leaf {
        ClausesListed(child);
        var own := if coordinated && child.label_ == "S" then [[base]] else [];
        var below := Prefixed(base, ClausePaths(child));
        forall q ensures q in own + below <==> q != [] && q[0] == base && ClauseIn(children, coordinated, base, q) {
          PrefixedMembers(base, ClausePaths(child), q);
          assert !Clause(child, []);
          assert q in own ==> q == [base];
          assert q != [] && q[0] == base && |q| == 1 ==> q == [base];
        }
        assert ClausePathsIn(children, coordinated, base) == own + below + rest;
      }
    }
  }

  // -------------------------------------------------------- the spans

  /** The leaves under the first child come first. */
  lemma {:induction false} SpanOfChild(head: seq<Path>, rest: seq<Path>, base: nat)
    requires forall p :: p in head ==> p != [] && p[0] == base
    requires forall p :: p in rest ==> p != [] && p[0] > base
    ensures SpanAt(head + rest, [base], 0, |head|)
  {
    var all, q := head + rest, [base];
    forall k | 0 <= k < |all| ensures !Before(all[k], q) && (k < |head| <==> q <= all[k]) {
      assert k < |head| ==> all[k] in head;
      assert k >= |head| ==> all[k] in rest;
      assert !Before(all[k][1..], q[1..]);
    }
  }

  lemma {:induction false} SpanBelow(paths: seq<Path>, rest: seq<Path>, base: nat, q: Path, lo: int, hi: int)
    requires SpanAt(paths, q, lo, hi)
    requires forall p :: p in rest ==> p != [] && p[0] > base
    ensures SpanAt(Prefixed(base, paths) + rest, [base] + q, lo, hi)
  {
    var head := Prefixed(base, paths);
    var all, deep := head + rest, [base] + q;
    assert deep[1..] == q;
    forall k | 0 <= k < |all|
      ensures (k < lo <==> Before(all[k], deep)) && (lo <= k < hi <==> deep <= all[k])
    {
      if k < |head| {
        assert all[k][1..] == paths[k];
        assert deep <= all[k] <==> q <= paths[k];
      } else {
        assert all[k] in rest;
      }
    }
  }

  lemma {:induction false} SpanAfter(head: seq<Path>, rest: seq<Path>, base: nat, q: Path, lo: int, hi: int)
    requires forall p :: p in head ==> p != [] && p[0] == base
    requires q != [] && q[0] > base && SpanAt(rest, q, lo, hi)
    ensures SpanAt(head + rest, q, lo + |head|, hi + |head|)
  {
    var all := head + rest;
    forall k | 0 <= k < |all|
      ensures (k < lo + |head| <==> Before(all[k], q)) && (lo + |head| <= k < hi + |head| <==> q <= all[k])
    {
      if k < |head| {
        assert all[k] in head;
      } else {
        assert all[k] == rest[k - |head|];
      }
    }
  }

  /** The walk's ranges are the spans of the listed clauses, one for one. */
  ghost predicate Spans(leaves: seq<Path>, clauses: seq<Path>, ranges: seq<Span>, offset: int) {
    && |ranges| == |clauses|
    && (forall k :: 0 <= k < |ranges| ==> SpanAt(leaves, clauses[k], ranges[k].lo - offset, ranges[k].hi - offset))
  }

  lemma {:induction false} RangesSpan(t: Tree, offset: int)
    requires Parsable(t)
    ensures Spans(LeafPaths(t), ClausePaths(t), Ranges(t, offset), offset)
    decreases t, 1
  {
    CoordinationAgrees(t.children);
    RangesSpanIn(t.children, Coordinated(t.children), 0, offset);
  }

  lemma {:induction false} CoordinationAgrees(children: seq<Tree>)
    ensures HasCoordination(children) <==> Coordinated(children)
  {
    forall i | 0 <= i < |children| ensures Coordinates(children[i].label_) <==> Coordinating(children[i].label_) {
      LabelAgrees(children[i].label_);
    }
  }

  lemma {:induction false} LabelAgrees(name: string)
    ensures Coordinates(name) <==> Coordinating(name)
  {
    var lower := seq(|name|, i requires 0 <= i < |name| => LowerAscii(name[i]));
    if |name| == 2 {
      assert lower == [lower[0], lower[1]];
    } else if |name| == 4 {
      assert lower == [lower[0], lower[1], lower[2], lower[3]];
    }
  }

  lemma {:induction false} RangesSpanIn(children: seq<Tree>, coordinated: bool, base: nat, offset: int)
    requires ChildrenParsable(children)
    ensures Spans(LeafPathsIn(children, base), ClausePathsIn(children, coordinated, base),
                  RangesIn(children, coordinated, offset), offset)
    decreases children, 0
  {
    if children != [] {
      var child := children[0];
      LeavesListedAt(child, base);
      LeavesListedIn(children[1..], base + 1);
      ClausesListedIn(children[1..], coordinated, base + 1);
      RangesSpanIn(children[1..], coordinated, base + 1, offset + LeavesAt(child));
      if !child.leaf {
        RangesSpan(child, offset);
      }
      SpansStep(children, coordinated, base, offset);
    }
  }

  ghost predicate Deeper(base: nat, paths: seq<Path>) {
    forall p :: p in paths ==> p != [] && p[0] > base
  }

  /** The spans of the first child and of the others make those of all. */
  lemma {:induction false} SpansStep(children: seq<Tree>, coordinated: bool, base: nat, offset: int)
    requires children != [] && ChildrenParsable(children)
    requires |LeafPathsAt(children[0], base)| == LeavesAt(children[0])
    requires forall p :: p in LeafPathsAt(children[0], base) ==> p != [] && p[0] == base
    requires Deeper(base, LeafPathsIn(children[1..], base + 1))
    requires Deeper(base, ClausePathsIn(children[1..], coordinated, base + 1))
    requires Spans(LeafPathsIn(children[1..], base + 1), ClausePathsIn(children[1..], coordinated, base + 1),
                   RangesIn(children[1..], coordinated, offset + LeavesAt(children[0])), offset + LeavesAt(children[0]))
    requires !children[0].leaf ==>
               Spans(LeafPaths(children[0]), ClausePaths(children[0]), Ranges(children[0], offset), offset)
    ensures Spans(LeafPathsIn(children, base), ClausePathsIn(children, coordinated, base),
                  RangesIn(children, coordinated, offset), offset)
  {
    var child, next := children[0], offset + LeavesAt(children[0]);
    var head, rest := LeafPathsAt(child, base), LeafPathsIn(children[1..], base + 1);
    var clauses := ClausePathsIn(children[1..], coordinated, base + 1);
    var ranges := RangesIn(children[1..], coordinated, next);
    RestSpans(head, rest, base, clauses, ranges, next, offset);
    if !child.leaf {
      ChildSpans(child, rest, coordinated, base, offset);
      SpansJoin(head + rest,
                (if coordinated && child.label_ == "S" then [[base]] else []) + Prefixed(base, ClausePaths(child)),
                OwnRange(child, coordinated, offset) + Ranges(child, offset), clauses, ranges, offset);
    }
  }

  lemma {:induction false} SpansJoin(leaves: seq<Path>, a: seq<Path>, r: seq<Span>, b: seq<Path>, q: seq<Span>,
                                     offset: int)
    requires Spans(leaves, a, r, offset) && Spans(leaves, b, q, offset)
    ensures Spans(leaves, a + b, r + q, offset)
  {
  }

  /** What is listed after a child keeps its spans, shifted by the child's leaves. */
  lemma {:induction false} RestSpans(head: seq<Path>, rest: seq<Path>, base: nat, clauses: seq<Path>,
                                     ranges: seq<Span>, next: int, offset: int)
    requires Spans(rest, clauses, ranges, next) && next == offset + |head|
    requires forall p :: p in head ==> p != [] && p[0] == base
    requires forall q :: q in clauses ==> q != [] && q[0] > base
    ensures Spans(head + rest, clauses, ranges, offset)
  {
    forall k | 0 <= k < |ranges|
      ensures SpanAt(head + rest, clauses[k], ranges[k].lo - offset, ranges[k].hi - offset)
    {
      assert clauses[k] in clauses;
      SpanAfter(head, rest, base, clauses[k], ranges[k].lo - next, ranges[k].hi - next);
    }
  }

  /** The child's own range and those below it. */
  lemma {:induction false} ChildSpans(child: Tree, rest: seq<Path>, coordinated: bool, base: nat, offset: int)
    requires Parsable(child) && |LeafPaths(child)| == LeafCount(child)
    requires Spans(LeafPaths(child), ClausePaths(child), Ranges(child, offset), offset)
    requires forall p :: p in rest ==> p != [] && p[0] > base
    ensures Spans(Prefixed(base, LeafPaths(child)) + rest,
                  (if coordinated && child.label_ == "S" then [[base]] else []) + Prefixed(base, ClausePaths(child)),
                  OwnRange(child, coordinated, offset) + Ranges(child, offset), offset)
  {
    var head, below := Prefixed(base, LeafPaths(child)), Prefixed(base, ClausePaths(child));
    var ranges := Ranges(child, offset);
    SpanOfChild(head, rest, base);
    forall k | 0 <= k < |ranges|
      ensures SpanAt(head + rest, below[k], ranges[k].lo - offset, ranges[k].hi - offset)
    {
      SpanBelow(LeafPaths(child), rest, base, ClausePaths(child)[k], ranges[k].lo - offset, ranges[k].hi - offset);
    }
  }

  /** For every tree the walk extracts exactly the clauses. */
  lemma {:induction false} RangesAreClauses(t: Tree, offset: int)
    requires Parsable(t)
    ensures exists leaves, clauses :: ClausesOf(t, offset, Ranges(t, offset), leaves, clauses)
  {
    LeavesListed(t);
    ClausesListed(t);
    RangesSpan(t, offset);
    assert ClausesOf(t, offset, Ranges(t, offset), LeafPaths(t), ClausePaths(t));
  }
}
