/** Which label sequences fit into a given number of CTC frames.

    A frame path assigns every frame a label or the blank 0. Reading a path merges
    adjacent equal entries and then drops the blanks. */
module CtcPaths {
  const BLANK := 0

  function MergeRepeats(path: seq<int>): seq<int> {
    if |path| <= 1 then path
    else if path[0] == path[1] then MergeRepeats(path[1..])
    else [path[0]] + MergeRepeats(path[1..])
  }

  function DropBlanks(path: seq<int>): seq<int> {
    if path == [] then []
    else (if path[0] == BLANK then [] else [path[0]]) + DropBlanks(path[1..])
  }

  /** The label sequence a frame path spells. */
  function Collapse(path: seq<int>): seq<int> {
    DropBlanks(MergeRepeats(path))
  }

  /** Adjacent equal labels. */
  function Repeats(ids: seq<int>): nat {
    if |ids| <= 1 then 0
    else (if ids[0] == ids[1] then 1 else 0) + Repeats(ids[1..])
  }

  /** The planner's frame requirement. */
  function MinimumFrames(ids: seq<int>): nat {
    |ids| + Repeats(ids)
  }

  predicate Labels(ids: seq<int>) {
    forall i :: 0 <= i < |ids| ==> ids[i] != BLANK
  }

  ghost predicate Spells(path: seq<int>, frames: nat, ids: seq<int>) {
    |path| == frames && Collapse(path) == ids
  }

  /** How reading a path changes when one more frame is put in front. */
  lemma {:induction false} CollapseStep(first: int, path: seq<int>)
    ensures first == BLANK ==> Collapse([first] + path) == Collapse(path)
    ensures first != BLANK && path != [] && path[0] == first ==> Collapse([first] + path) == Collapse(path)
    ensures first != BLANK && (path == [] || path[0] != first) ==> Collapse([first] + path) == [first] + Collapse(path)
  {
    var longer := [first] + path;
    assert longer[1..] == path;
    if path == [] {
      assert longer == [first];
      assert DropBlanks(longer) == if first == BLANK then [] else [first];
    } else if path[0] != first {
      var merged := [first] + MergeRepeats(path);
      assert MergeRepeats(longer) == merged && merged[1..] == MergeRepeats(path);
    }
  }

  /** A path that starts on a label spells a sequence starting with that label. */
  lemma {:induction false} CollapseHead(path: seq<int>)
    requires path != [] && path[0] != BLANK
    ensures Collapse(path) != [] && Collapse(path)[0] == path[0]
    decreases |path|
  {
    assert path == [path[0]] + path[1..];
    CollapseStep(path[0], path[1..]);
    if |path| > 1 && path[1] == path[0] {
      CollapseHead(path[1..]);
    }
  }

  /** No path is shorter than the requirement of what it spells; a path whose first
      frame is blank has a frame to spare. */
  lemma {:induction false} PathLongEnough(path: seq<int>)
    ensures |path| >= MinimumFrames(Collapse(path))
    ensures path != [] && path[0] == BLANK ==> |path| > MinimumFrames(Collapse(path))
    decreases |path|
  {
    if path != [] {
      var first, rest := path[0], path[1..];
      assert path == [first] + rest;
      CollapseStep(first, rest);
      PathLongEnough(rest);
      if first != BLANK && rest != [] && rest[0] != first {
        var tail := Collapse(rest);
        assert ([first] + tail)[1..] == tail;
        if rest[0] != BLANK {
          CollapseHead(rest);
        }
      }
    }
  }

  /** A path of exactly the required length: each label once, a blank between equal neighbours. */
  function ShortestPath(ids: seq<int>): (path: seq<int>)
    ensures |path| == MinimumFrames(ids)
    ensures ids != [] ==> path != [] && path[0] == ids[0]
  {
    if |ids| <= 1 then ids
    else [ids[0]] + (if ids[0] == ids[1] then [BLANK] else []) + ShortestPath(ids[1..])
  }

  lemma {:induction false} ShortestPathSpells(ids: seq<int>)
    requires Labels(ids)
    ensures Collapse(ShortestPath(ids)) == ids
    decreases |ids|
  {
    if |ids| > 1 {
      var tail := ids[1..];
      ShortestPathSpells(tail);
      SeparateLabel(ids[0], ShortestPath(tail));
      assert ids == [ids[0]] + tail;
    } else if |ids| == 1 {
      PrependLabel(ids[0], []);
      assert ids == [ids[0]] + [];
    }
  }

  lemma {:induction false} SeparateLabel(id: int, rest: seq<int>)
    requires id != BLANK && rest != []
    ensures Collapse([id] + (if id == rest[0] then [BLANK] else []) + rest) == [id] + Collapse(rest)
  {
    if id == rest[0] {
      assert [id] + [BLANK] + rest == [id] + ([BLANK] + rest);
      PrependLabel(id, [BLANK] + rest);
      CollapseStep(BLANK, rest);
    } else {
      assert [id] + [] + rest == [id] + rest;
      PrependLabel(id, rest);
    }
  }

  lemma {:induction false} PrependLabel(id: int, path: seq<int>)
    requires id != BLANK && (path == [] || path[0] != id)
    ensures Collapse([id] + path) == [id] + Collapse(path)
  {
    CollapseStep(id, path);
  }

  /** Blank frames in front of a path leave what it spells unchanged. */
  lemma {:induction false} PadWithBlanks(path: seq<int>, extra: nat)
    ensures Collapse(seq(extra, _ => BLANK) + path) == Collapse(path)
    decreases extra
  {
    if extra == 0 {
      assert seq(0, _ => BLANK) + path == path;
    } else {
      var padded := seq(extra - 1, _ => BLANK) + path;
      assert seq(extra, _ => BLANK) + path == [BLANK] + padded;
      PadWithBlanks(path, extra - 1);
      CollapseStep(BLANK, padded);
    }
  }

  /** A path of `frames` frames, all below `classes`, whenever the requirement is met. */
  lemma {:induction false} FittingPath(ids: seq<int>, frames: nat, classes: int) returns (path: seq<int>)
    requires Labels(ids) && frames >= MinimumFrames(ids) && classes > 0
    requires forall i :: 0 <= i < |ids| ==> 0 <= ids[i] < classes
    ensures Spells(path, frames, ids)
    ensures forall i :: 0 <= i < |path| ==> 0 <= path[i] < classes
  {
    path := seq(frames - MinimumFrames(ids), _ => BLANK) + ShortestPath(ids);
    PadWithBlanks(ShortestPath(ids), frames - MinimumFrames(ids));
    ShortestPathSpells(ids);
    ShortestPathWithin(ids, classes);
  }

  lemma {:induction false} ShortestPathWithin(ids: seq<int>, classes: int)
    requires classes > 0 && forall i :: 0 <= i < |ids| ==> 0 <= ids[i] < classes
    ensures forall i :: 0 <= i < |ShortestPath(ids)| ==> 0 <= ShortestPath(ids)[i] < classes
    decreases |ids|
  {
    if |ids| > 1 {
      ShortestPathWithin(ids[1..], classes);
    }
  }

  /** Everything a path spells occurs in it. */
  lemma {:induction false} SpelledOccurs(path: seq<int>, id: int)
    requires id in Collapse(path)
    ensures id in path
    decreases |path|
  {
    if path != [] {
      assert path == [path[0]] + path[1..];
      CollapseStep(path[0], path[1..]);
      if id != path[0] {
        SpelledOccurs(path[1..], id);
      }
    }
  }

  /** The one-line formula stands for the existence of a path: `frames` frames can
      carry the labels exactly when there are at least `MinimumFrames` of them. */
  lemma {:induction false} FitsIffEnoughFrames(ids: seq<int>, frames: nat)
    requires Labels(ids)
    ensures (exists path: seq<int> :: Spells(path, frames, ids)) <==> frames >= MinimumFrames(ids)
  {
    if frames >= MinimumFrames(ids) {
      PadWithBlanks(ShortestPath(ids), frames - MinimumFrames(ids));
      ShortestPathSpells(ids);
      var path := seq(frames - MinimumFrames(ids), _ => BLANK) + ShortestPath(ids);
      assert Spells(path, frames, ids);
    }
    if path: seq<int> :| Spells(path, frames, ids) {
      PathLongEnough(path);
    }
  }
}
