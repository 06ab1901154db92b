/** Lists of positions, and reversing and regrouping sequences. */
module Sequences {
  ghost predicate Increasing(ps: seq<nat>) {
    forall i, j :: 0 <= i < j < |ps| ==> ps[i] < ps[j]
  }

  /** A list of positions before `n` grows by `n`. */
  lemma {:induction false} AppendPosition(ps: seq<nat>, n: nat)
    requires Increasing(ps) && forall k: nat :: k in ps ==> k < n
    ensures Increasing(ps + [n])
    ensures forall k: nat :: k in ps + [n] <==> k in ps || k == n
  {
    forall i | 0 <= i < |ps| ensures ps[i] < n {
      assert ps[i] in ps;
    }
  }

  /** `ps` lists the positions of the elements that pass the test. */
  ghost predicate Passing<T(!new)>(s: seq<T>, test: T -> bool, ps: seq<nat>) {
    Increasing(ps) && forall k: nat :: k in ps <==> k < |s| && test(s[k])
  }

  /** `picked` are the elements of `s` at the positions `ps`. */
  ghost predicate Picked<T>(s: seq<T>, ps: seq<nat>, picked: seq<T>) {
    |picked| == |ps| && forall j :: 0 <= j < |ps| ==> ps[j] < |s| && picked[j] == s[ps[j]]
  }

  lemma {:induction false} PassingNext<T(!new)>(s: seq<T>, x: T, test: T -> bool, ps: seq<nat>)
    requires Passing(s, test, ps)
    ensures Passing(s + [x], test, if test(x) then ps + [|s|] else ps)
  {
    AppendPosition(ps, |s|);
  }

  lemma {:induction false} PickedNext<T>(s: seq<T>, x: T, ps: seq<nat>, picked: seq<T>)
    requires Picked(s, ps, picked)
    ensures Picked(s + [x], ps, picked) && Picked(s + [x], ps + [|s|], picked + [x])
  {
  }

  ghost predicate PartAt<T>(whole: seq<T>, from: nat, to: nat, part: seq<T>) {
    from <= to <= |whole| && whole[from..to] == part
  }

  /** `whole` is the parts one after the other; part `i` lies from `cuts[i]` to `cuts[i + 1]`. */
  ghost predicate LaidOut<T>(whole: seq<T>, parts: seq<seq<T>>, cuts: seq<nat>) {
    && |cuts| == |parts| + 1 && cuts[0] == 0 && cuts[|parts|] == |whole|
    && (forall i :: 0 <= i < |parts| ==> PartAt(whole, cuts[i], cuts[i + 1], parts[i]))
  }

  lemma {:induction false} LayNext<T>(whole: seq<T>, parts: seq<seq<T>>, cuts: seq<nat>, part: seq<T>)
    requires LaidOut(whole, parts, cuts)
    ensures LaidOut(whole + part, parts + [part], cuts + [|whole| + |part|])
  {
    var all, more, ends := whole + part, parts + [part], cuts + [|whole| + |part|];
    forall i | 0 <= i < |more| ensures PartAt(all, ends[i], ends[i + 1], more[i]) {
      if i < |parts| {
        assert PartAt(whole, cuts[i], cuts[i + 1], parts[i]);
        assert all[cuts[i]..cuts[i + 1]] == whole[cuts[i]..cuts[i + 1]];
      }
    }
  }

  /** The texts joined by a separator. */
  function JoinWith(separator: char, texts: seq<string>): string {
    if texts == [] then ""
    else if |texts| == 1 then texts[0]
    else JoinWith(separator, texts[..|texts| - 1]) + [separator] + texts[|texts| - 1]
  }

  function Reversed<T>(s: seq<T>): (r: seq<T>)
    ensures |r| == |s| && forall i :: 0 <= i < |s| ==> r[i] == s[|s| - 1 - i]
  {
    seq(|s|, i requires 0 <= i < |s| => s[|s| - 1 - i])
  }

  lemma {:induction false} ReversedMembers<T>(s: seq<T>, x: T)
    ensures x in Reversed(s) <==> x in s
  {
    if x in s {
      var i :| 0 <= i < |s| && s[i] == x;
      assert Reversed(s)[|s| - 1 - i] == x;
    }
  }

  lemma {:induction false} ReversedMultiset<T>(s: seq<T>)
    ensures multiset(Reversed(s)) == multiset(s)
  {
    if s != [] {
      ReversedMultiset(s[1..]);
      assert s == [s[0]] + s[1..];
      assert Reversed(s) == Reversed(s[1..]) + [s[0]];
    }
  }

  lemma {:induction false} Regroup<T>(start: seq<T>, a: seq<T>, b: seq<T>, c: seq<T>)
    ensures start + (a + b + c) == start + a + b + c
    ensures start + (a + b) == start + a + b
  {
  }
}
