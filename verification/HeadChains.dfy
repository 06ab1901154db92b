/** Head chains of a dependency graph, and what contracting one node does to them.

    A graph is the finite map from word id to head id that the worker builds; the
    id 0 is the artificial root and is never a key. */
module HeadChains {
  type Heads = map<int, int>

  /** Every head is the root or another word of the graph. */
  ghost predicate Closed(h: Heads) {
    0 !in h && forall i :: i in h ==> h[i] == 0 || h[i] in h
  }

  /** The id reached after `k` head steps; the root absorbs. */
  ghost function Up(h: Heads, i: int, k: nat): int
    decreases k
  {
    if k == 0 || i !in h then i else Up(h, h[i], k - 1)
  }

  ghost predicate ReachesRoot(h: Heads, i: int) {
    exists k: nat :: Up(h, i, k) == 0
  }

  ghost predicate Rooted(h: Heads) {
    forall i :: i in h ==> ReachesRoot(h, i)
  }

  /** At least one head step leads from `b` to `a`. */
  ghost predicate LeadsTo(h: Heads, b: int, a: int) {
    exists k: nat :: k > 0 && Up(h, b, k) == a
  }

  /** `a` is a proper ancestor of `b`. */
  ghost predicate Ancestor(h: Heads, a: int, b: int) {
    a in h && b in h && LeadsTo(h, b, a)
  }

  ghost predicate Acyclic(h: Heads) {
    forall i :: i in h ==> !Ancestor(h, i, i)
  }

  lemma {:induction false} UpAdd(h: Heads, i: int, j: nat, k: nat)
    ensures Up(h, i, j + k) == Up(h, Up(h, i, j), k)
    decreases j
  {
    if j > 0 && i in h {
      UpAdd(h, h[i], j - 1, k);
    }
  }

  /** A chain that returns to where it started never reaches the root. */
  lemma {:induction false} LoopNeverRoots(h: Heads, i: int, period: nat, k: nat)
    requires 0 !in h && i in h && period > 0 && Up(h, i, period) == i
    ensures Up(h, i, k) != 0
    decreases k
  {
    if k >= period {
      UpAdd(h, i, period, k - period);
      LoopNeverRoots(h, i, period, k - period);
    } else if Up(h, i, k) == 0 {
      UpAdd(h, i, k, period - k);
    }
  }

  /** Following heads from `i` while nothing in `seen` recurs ends at the root. */
  lemma {:induction false} AcyclicReaches(h: Heads, i: int, seen: set<int>)
    requires Closed(h) && Acyclic(h)
    requires i == 0 || i in h
    requires seen <= h.Keys
    requires forall s :: s in seen ==> LeadsTo(h, s, i)
    ensures ReachesRoot(h, i)
    decreases h.Keys - seen
  {
    if i == 0 {
      assert Up(h, i, 0) == 0;
    } else {
      assert !Ancestor(h, i, i);
      assert i !in seen;
      var next := seen + {i};
      forall s | s in next ensures LeadsTo(h, s, h[i]) {
        if s == i {
          assert Up(h, i, 1) == h[i];
        } else {
          var k: nat :| k > 0 && Up(h, s, k) == i;
          UpAdd(h, s, k, 1);
          assert Up(h, s, k + 1) == h[i];
        }
      }
      AcyclicReaches(h, h[i], next);
      var k: nat :| Up(h, h[i], k) == 0;
      assert Up(h, i, k + 1) == 0;
    }
  }

  /** For a closed finite graph, "no word is its own ancestor" and "every head
      chain ends at the root" are the same condition. */
  lemma {:induction false} AcyclicIffRooted(h: Heads)
    requires Closed(h)
    ensures Acyclic(h) <==> Rooted(h)
  {
    if Acyclic(h) {
      forall i | i in h ensures ReachesRoot(h, i) {
        AcyclicReaches(h, i, {});
      }
    }
    if Rooted(h) {
      forall i | i in h ensures !Ancestor(h, i, i) {
        if Ancestor(h, i, i) {
          var period: nat :| period > 0 && Up(h, i, period) == i;
          var k: nat :| Up(h, i, k) == 0;
          LoopNeverRoots(h, i, period, k);
        }
      }
    }
  }

  /** Delete `cue` and hand its dependents to its own head. */
  ghost function Contract(h: Heads, cue: int): Heads
    requires cue in h
  {
    map i | i in h && i != cue :: if h[i] == cue then h[cue] else h[i]
  }

  /** Every chain of the graph that avoids ending at the cue survives, shortened. */
  lemma {:induction false} ContractForward(h: Heads, cue: int, i: int, k: nat) returns (j: nat)
    requires Closed(h) && cue in h && h[cue] != cue
    requires i != cue && (i == 0 || i in h) && Up(h, i, k) != cue
    ensures j <= k && (k > 0 ==> j > 0)
    ensures Up(Contract(h, cue), i, j) == Up(h, i, k)
    decreases k
  {
    if k == 0 || i == 0 {
      j := k;
    } else if h[i] == cue {
      assert Up(h, i, k) == Up(h, cue, k - 1);
      assert k >= 2;
      var rest := ContractForward(h, cue, h[cue], k - 2);
      j := rest + 1;
    } else {
      var rest := ContractForward(h, cue, h[i], k - 1);
      j := rest + 1;
    }
  }

  /** Every chain of the contracted graph is a chain of the original one. */
  lemma {:induction false} ContractBackward(h: Heads, cue: int, i: int, j: nat) returns (k: nat)
    requires Closed(h) && cue in h && h[cue] != cue
    requires i != cue && (i == 0 || i in h)
    ensures k >= j
    ensures Up(h, i, k) == Up(Contract(h, cue), i, j)
    decreases j
  {
    if j == 0 || i == 0 {
      k := j;
    } else if h[i] == cue {
      var rest := ContractBackward(h, cue, h[cue], j - 1);
      k := rest + 2;
      assert Up(h, i, k) == Up(h, cue, rest + 1) == Up(h, h[cue], rest);
    } else {
      var rest := ContractBackward(h, cue, h[i], j - 1);
      k := rest + 1;
    }
  }

  /** Contracting one word of an admitted graph keeps closure and acyclicity, and
      keeps the ancestor relation between the remaining words exactly. */
  lemma {:induction false} ContractPreserves(h: Heads, cue: int)
    requires Closed(h) && Rooted(h) && cue in h
    ensures Contract(h, cue).Keys == h.Keys - {cue}
    ensures Closed(Contract(h, cue)) && Rooted(Contract(h, cue)) && Acyclic(Contract(h, cue))
    ensures forall a, b :: a in h && b in h && a != cue && b != cue ==>
              (Ancestor(Contract(h, cue), a, b) <==> Ancestor(h, a, b))
  {
    var c := Contract(h, cue);
    AcyclicIffRooted(h);
    assert h[cue] != cue by {
      if h[cue] == cue {
        assert Up(h, cue, 1) == cue;
        assert Ancestor(h, cue, cue);
      }
    }
    forall i | i in c ensures ReachesRoot(c, i) {
      var k: nat :| Up(h, i, k) == 0;
      var j := ContractForward(h, cue, i, k);
    }
    AcyclicIffRooted(c);
    forall a, b | a in h && b in h && a != cue && b != cue
      ensures Ancestor(c, a, b) <==> Ancestor(h, a, b)
    {
      if Ancestor(h, a, b) {
        var k: nat :| k > 0 && Up(h, b, k) == a;
        var j := ContractForward(h, cue, b, k);
      }
      if Ancestor(c, a, b) {
        var j: nat :| j > 0 && Up(c, b, j) == a;
        var k := ContractBackward(h, cue, b, j);
      }
    }
  }
}
