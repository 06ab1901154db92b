/** Admission of one sentence's CoNLL-U rows as a dependency graph, and removal
    of the final terminator ("cue") row from an admitted graph. */
module DependencyGraph {
  import opened Outcomes
  import opened HeadChains
  import opened Sets
  import opened Sequences

  // ---------------------------------------------------------------- rows

  /** A row id: a syntactic word, a multiword-token range (any list of integers
      reaches admission), or an empty node with its decimal position. */
  datatype RowId = WordId(n: int) | TokenRange(bounds: seq<int>) | EmptyNode(position: real)

  /** `extra` stands for the columns no step here reads. */
  datatype Row = Row(id: RowId, text: string, head: int, deprel: string, upos: string, extra: string)

  datatype Repair =
    | RowRepair(note: string)
    | CueRootPromotion(word: string, fromRelation: string)

  datatype PositionedRepair = PositionedRepair(position: nat, repair: Repair)

  datatype ProjectionFailure =
    | InvalidId | DuplicateId | MissingHead | Cycle | MalformedToken
    | Boundaries | CueNotAWord | AmbiguousRoot | PosAlignment

  // ------------------------------------------------- what admission means

  /** Word ids in row order. */
  function WordOrder(rows: seq<Row>): seq<int> {
    if rows == [] then []
    else
      var last := rows[|rows| - 1];
      WordOrder(rows[..|rows| - 1]) + (if last.id.WordId? then [last.id.n] else [])
  }

  /** The id-to-head index of the rows. */
  function HeadIndex(rows: seq<Row>): Heads {
    if rows == [] then map[]
    else
      var last := rows[|rows| - 1];
      var before := HeadIndex(rows[..|rows| - 1]);
      if last.id.WordId? then before[last.id.n := last.head] else before
  }

  predicate WordRow(row: Row) {
    row.id.WordId? ==> row.id.n > 0 && row.head >= 0
  }

  predicate ProperRange(id: RowId) {
    id.TokenRange? && |id.bounds| == 2 && 0 < id.bounds[0] <= id.bounds[1]
  }

  function Width(id: RowId): nat
    requires ProperRange(id)
  {
    id.bounds[1] - id.bounds[0] + 1
  }

  /** The range row at `at` is followed at once by all its words, in id order. */
  predicate RangeFollowed(rows: seq<Row>, at: nat)
    requires at < |rows|
  {
    var id := rows[at].id;
    && ProperRange(id)
    && at + Width(id) < |rows|
    && forall p :: at < p <= at + Width(id) ==> rows[p].id == WordId(id.bounds[0] + (p - at - 1))
  }

  ghost predicate DistinctWords(rows: seq<Row>) {
    forall i, j :: 0 <= i < j < |rows| && rows[i].id.WordId? && rows[j].id.WordId? ==>
      rows[i].id != rows[j].id
  }

  ghost predicate WellFormedRows(rows: seq<Row>) {
    && (forall at :: 0 <= at < |rows| ==> WordRow(rows[at]))
    && DistinctWords(rows)
    && (forall at :: 0 <= at < |rows| && rows[at].id.TokenRange? ==> RangeFollowed(rows, at))
  }

  ghost predicate Admissible(rows: seq<Row>) {
    && WellFormedRows(rows)
    && Closed(HeadIndex(rows))
    && Rooted(HeadIndex(rows))
  }

  /** Row `at` is one of the words spelled out after an earlier range row. */
  ghost predicate Covered(rows: seq<Row>, at: int) {
    exists r :: 0 <= r < at && r < |rows| && ProperRange(rows[r].id) && at - r <= Width(rows[r].id)
  }

  /** Row `at` opens a surface token: a range, or a word outside every range. */
  ghost predicate OpensToken(rows: seq<Row>, at: int) {
    0 <= at < |rows| && (rows[at].id.TokenRange? || (rows[at].id.WordId? && !Covered(rows, at)))
  }

  /** `tokens` lists, in order, exactly the token-opening rows before `limit`. */
  ghost predicate TokensUpTo(rows: seq<Row>, tokens: seq<nat>, limit: nat) {
    && (forall i, j :: 0 <= i < j < |tokens| ==> tokens[i] < tokens[j])
    && (forall at :: at in tokens <==> 0 <= at < limit && OpensToken(rows, at))
  }

  // ------------------------------------------------------ index lemmas

  ghost predicate Distinct(s: seq<int>) {
    forall i, j :: 0 <= i < j < |s| ==> s[i] != s[j]
  }

  /** `order` lists the keys of `heads`. */
  ghost predicate Lists(order: seq<int>, heads: Heads) {
    && (forall i :: 0 <= i < |order| ==> order[i] in heads)
    && (forall id :: id in heads ==> id in order)
  }

  lemma {:induction false} IndexFacts(rows: seq<Row>)
    ensures Lists(WordOrder(rows), HeadIndex(rows))
    ensures forall id :: id in HeadIndex(rows) <==> exists at :: 0 <= at < |rows| && rows[at].id == WordId(id)
    ensures DistinctWords(rows) ==>
              forall at :: 0 <= at < |rows| && rows[at].id.WordId? ==>
                rows[at].id.n in HeadIndex(rows) && HeadIndex(rows)[rows[at].id.n] == rows[at].head
  {
    if rows != [] {
      var n := |rows| - 1;
      var before := rows[..n];
      IndexFacts(before);
      assert DistinctWords(rows) ==> DistinctWords(before);
      forall id ensures id in HeadIndex(rows) <==> exists at :: 0 <= at < |rows| && rows[at].id == WordId(id) {
        if id in HeadIndex(before) {
          var at :| 0 <= at < |before| && before[at].id == WordId(id);
          assert rows[at].id == WordId(id);
        } else if rows[n].id != WordId(id) {
          assert forall at :: 0 <= at < n ==> before[at] == rows[at];
        }
      }
      forall at | 0 <= at < |rows| && rows[at].id.WordId? && DistinctWords(rows)
        ensures rows[at].id.n in HeadIndex(rows) && HeadIndex(rows)[rows[at].id.n] == rows[at].head
      {
        if at < n {
          assert before[at] == rows[at];
        }
      }
    }
  }

  lemma {:induction false} RowOf(rows: seq<Row>, id: int) returns (at: nat)
    requires id in HeadIndex(rows)
    ensures at < |rows| && rows[at].id == WordId(id)
  {
    IndexFacts(rows);
    at :| at < |rows| && rows[at].id == WordId(id);
  }

  lemma {:induction false} RowIsIndexed(rows: seq<Row>, at: nat)
    requires at < |rows| && rows[at].id.WordId?
    ensures rows[at].id.n in HeadIndex(rows)
    ensures DistinctWords(rows) ==> HeadIndex(rows)[rows[at].id.n] == rows[at].head
  {
    IndexFacts(rows);
  }

  // ------------------------------------------------------------ scanning

  datatype Scan = Scan(order: seq<int>, heads: Heads, tokens: seq<nat>)

  /** Progress of the scan through the words of the range row at `open`. */
  ghost predicate InRange(rows: seq<Row>, at: nat, open: int, components: seq<int>) {
    && 0 <= open < at <= |rows|
    && ProperRange(rows[open].id)
    && open + Width(rows[open].id) < |rows|
    && at <= open + Width(rows[open].id)
    && |components| == open + 1 + Width(rows[open].id) - at
    && (forall k :: 0 <= k < |components| ==> components[k] == rows[open].id.bounds[0] + (at - open - 1) + k)
    && (forall p :: open < p < at ==> rows[p].id == WordId(rows[open].id.bounds[0] + (p - open - 1)))
  }

  ghost predicate ScanInvariant(rows: seq<Row>, at: nat, open: int, components: seq<int>) {
    && at <= |rows|
    && (forall i :: 0 <= i < at ==> WordRow(rows[i]))
    && DistinctWords(rows[..at])
    && (forall r :: 0 <= r < at && rows[r].id.TokenRange? && r != open ==>
          RangeFollowed(rows, r) && r + Width(rows[r].id) < at)
    && (if components == [] then open == -1 else InRange(rows, at, open, components))
  }

  /** One row extends the scan: what is open afterwards, given that the row was accepted. */
  lemma {:induction false} ScanStep(rows: seq<Row>, at: nat, open: int, components: seq<int>)
    requires ScanInvariant(rows, at, open, components) && at < |rows|
    ensures components == [] ==> !Covered(rows, at)
    ensures components != [] ==> Covered(rows, at)
    ensures components != [] && RangeFollowed(rows, open) ==> rows[at].id == WordId(components[0])
  {
    if components != [] {
      assert at - open <= Width(rows[open].id);
    }
  }

  /** A word row repeating an earlier id breaks distinctness. */
  lemma {:induction false} DuplicateBreaks(rows: seq<Row>, at: nat)
    requires at < |rows| && rows[at].id.WordId? && rows[at].id.n in HeadIndex(rows[..at])
    ensures !DistinctWords(rows)
  {
    IndexFacts(rows[..at]);
    var i :| 0 <= i < at && rows[..at][i].id == rows[at].id;
    assert rows[i].id == rows[at].id;
  }

  lemma {:induction false} DistinctExtends(rows: seq<Row>, at: nat)
    requires at < |rows| && DistinctWords(rows[..at])
    requires rows[at].id.WordId? ==> rows[at].id.n !in HeadIndex(rows[..at])
    ensures DistinctWords(rows[..at + 1])
  {
    IndexFacts(rows[..at]);
    var more := rows[..at + 1];
    forall i, j | 0 <= i < j < |more| && more[i].id.WordId? && more[j].id.WordId?
      ensures more[i].id != more[j].id
    {
      assert rows[..at][i] == more[i];
      if j < at {
        assert rows[..at][j] == more[j];
      }
    }
  }

  lemma {:induction false} TokensAppend(rows: seq<Row>, tokens: seq<nat>, at: nat)
    requires at < |rows| && TokensUpTo(rows, tokens, at) && OpensToken(rows, at)
    ensures TokensUpTo(rows, tokens + [at], at + 1)
  {
    forall i | 0 <= i < |tokens| ensures tokens[i] < at {
      assert tokens[i] in tokens;
    }
  }

  lemma {:induction false} PrefixStep(rows: seq<Row>, at: nat)
    requires at < |rows|
    ensures rows[..at + 1][..at] == rows[..at] && rows[..at + 1][at] == rows[at]
  {
  }

  /** A row outside every range leaves nothing open. */
  lemma {:induction false} ScanPasses(rows: seq<Row>, at: nat)
    requires ScanInvariant(rows, at, -1, []) && at < |rows| && !rows[at].id.TokenRange? && WordRow(rows[at])
    requires rows[at].id.WordId? ==> rows[at].id.n !in HeadIndex(rows[..at])
    ensures ScanInvariant(rows, at + 1, -1, [])
  {
    DistinctExtends(rows, at);
  }

  /** What the row loop has built before row `at`. */
  ghost predicate Scanned(rows: seq<Row>, at: nat, open: int, components: seq<int>, scan: Scan) {
    && ScanInvariant(rows, at, open, components)
    && scan.order == WordOrder(rows[..at]) && scan.heads == HeadIndex(rows[..at])
    && TokensUpTo(rows, scan.tokens, at)
  }

  /** An empty node changes nothing. */
  lemma {:induction false} ScanTakesNode(rows: seq<Row>, at: nat, open: int, scan: Scan)
    requires Scanned(rows, at, open, [], scan) && at < |rows| && rows[at].id.EmptyNode?
    ensures Scanned(rows, at + 1, -1, [], scan)
  {
    PrefixStep(rows, at);
    ScanPasses(rows, at);
  }

  /** A range opens a token and expects its words. */
  lemma {:induction false} ScanTakesRange(rows: seq<Row>, at: nat, open: int, scan: Scan)
    requires Scanned(rows, at, open, [], scan) && at < |rows|
    requires ProperRange(rows[at].id) && Width(rows[at].id) <= |rows| - at - 1
    ensures var id := rows[at].id;
            Scanned(rows, at + 1, at, seq(Width(id), k => id.bounds[0] + k), scan.(tokens := scan.tokens + [at]))
  {
    PrefixStep(rows, at);
    DistinctExtends(rows, at);
    TokensAppend(rows, scan.tokens, at);
  }

  /** The scan with one more word. */
  function WithWord(scan: Scan, row: Row, opens: bool, at: nat): Scan
    requires row.id.WordId?
  {
    Scan(scan.order + [row.id.n], scan.heads[row.id.n := row.head], if opens then scan.tokens + [at] else scan.tokens)
  }

  /** A word inside a range is expected there; any other opens a token. */
  lemma {:induction false} ScanTakesWord(rows: seq<Row>, at: nat, open: int, components: seq<int>, scan: Scan)
    requires Scanned(rows, at, open, components, scan) && at < |rows|
    requires rows[at].id.WordId? && WordRow(rows[at]) && rows[at].id.n !in scan.heads
    requires components != [] ==> rows[at].id.n == components[0]
    ensures components == [] ==> Scanned(rows, at + 1, -1, [], WithWord(scan, rows[at], true, at))
    ensures components != [] ==>
              Scanned(rows, at + 1, if |components| == 1 then -1 else open, components[1..],
                      WithWord(scan, rows[at], false, at))
  {
    PrefixStep(rows, at);
    ScanStep(rows, at, open, components);
    if components != [] {
      DistinctExtends(rows, at);
      assert |components| == 1 ==> RangeFollowed(rows, open);
    } else {
      ScanPasses(rows, at);
      TokensAppend(rows, scan.tokens, at);
    }
  }

  /** What refuses a row: any of these makes the rows ill formed. */
  lemma {:induction false} ScanRefuses(rows: seq<Row>, at: nat, open: int, components: seq<int>)
    requires ScanInvariant(rows, at, open, components) && at < |rows|
    requires || !WordRow(rows[at])
             || (rows[at].id.WordId? && rows[at].id.n in HeadIndex(rows[..at]))
             || (components != [] && rows[at].id != WordId(components[0]))
             || (rows[at].id.TokenRange? && (!ProperRange(rows[at].id) || Width(rows[at].id) > |rows| - at - 1))
    ensures !WellFormedRows(rows)
  {
    ScanStep(rows, at, open, components);
    if rows[at].id.WordId? && rows[at].id.n in HeadIndex(rows[..at]) {
      DuplicateBreaks(rows, at);
    } else if components != [] && rows[at].id != WordId(components[0]) {
      assert rows[open].id.TokenRange? && !RangeFollowed(rows, open);
    }
  }

  lemma {:induction false} ScanEnds(rows: seq<Row>, open: int, components: seq<int>)
    requires ScanInvariant(rows, |rows|, open, components)
    ensures components == [] && WellFormedRows(rows)
  {
    assert rows[..|rows|] == rows;
  }

  /** The row loop of admission. */
  method ScanRows(rows: seq<Row>) returns (r: Result<Scan, ProjectionFailure>)
    ensures r.Ok? <==> WellFormedRows(rows)
    ensures r.Ok? ==>
              r.value.order == WordOrder(rows) && r.value.heads == HeadIndex(rows)
              && TokensUpTo(rows, r.value.tokens, |rows|)
    ensures r.Err? ==> FirstRefusal(rows, r.error)
  {
    var order: seq<int>, heads: Heads, tokens: seq<nat> := [], map[], [];
    var components: seq<int> := [];
    ghost var open := -1;
    for at := 0 to |rows|
      invariant Scanned(rows, at, open, components, Scan(order, heads, tokens))
    {
      var row := rows[at];
      var failure := RowFailure(row, |rows| - at - 1, heads, components);
      if failure.Some? {
        ScanRefuses(rows, at, open, components);
        FailureIsFault(rows, at, components, failure.value);
        assert RefusedAt(rows, at, open, components, failure.value);
        return Err(failure.value);
      }
      ghost var scan := Scan(order, heads, tokens);
      match row.id {
        case EmptyNode(_) =>
          ScanTakesNode(rows, at, open, scan);
        case TokenRange(bounds) =>
          ScanTakesRange(rows, at, open, scan);
          components := seq(Width(row.id), k => bounds[0] + k);
          open := at;
          tokens := tokens + [at];
        case WordId(n) =>
          ScanTakesWord(rows, at, open, components, scan);
          order := order + [n];
          heads := heads[n := row.head];
          if components != [] {
            open := if |components| == 1 then -1 else open;
            components := components[1..];
          } else {
            open := -1;
            tokens := tokens + [at];
          }
      }
    }
    // The room check on range rows already rules out a range left open here.
    ScanEnds(rows, open, components);
    assert rows[..|rows|] == rows;
    r := Ok(Scan(order, heads, tokens));
  }

  /** The checks on one row, in the order the source makes them; `left` rows follow it. */
  function RowFailure(row: Row, left: int, heads: Heads, components: seq<int>): Option<ProjectionFailure> {
    match row.id
    case EmptyNode(_) => if components != [] then Some(MalformedToken) else None
    case TokenRange(_) =>
      if components != [] || !ProperRange(row.id) || Width(row.id) > left then Some(MalformedToken) else None
    case WordId(n) =>
      if n <= 0 then Some(InvalidId)
      else if n in heads then Some(DuplicateId)
      else if row.head < 0 then Some(MissingHead)
      else if components != [] && n != components[0] then Some(MalformedToken)
      else None
  }

  /** Rows before `at` were accepted, with `components` still expected, and row `at`
      is refused with `error`. */
  ghost predicate RefusedAt(rows: seq<Row>, at: nat, open: int, components: seq<int>, error: ProjectionFailure) {
    && at < |rows| && ScanInvariant(rows, at, open, components)
    && RowFailure(rows[at], |rows| - at - 1, HeadIndex(rows[..at]), components) == Some(error)
    && Fault(rows, at, components, error)
  }

  /** An earlier row has the same id. */
  ghost predicate Repeats(rows: seq<Row>, at: nat)
    requires at < |rows|
  {
    exists i :: 0 <= i < at && rows[i].id == rows[at].id
  }

  /** What is wrong with row `at`, in the order the faults are looked for: of a word its id,
      a repeated id, its head, and then its place in an open range; of other rows an open
      range, and of a range its bounds and the room for its words. */
  ghost predicate Fault(rows: seq<Row>, at: nat, components: seq<int>, error: ProjectionFailure)
    requires at < |rows|
  {
    match rows[at].id
    case EmptyNode(_) => error == MalformedToken && components != []
    case TokenRange(bounds) =>
      error == MalformedToken &&
      (|| components != [] || |bounds| != 2
       || bounds[0] <= 0 || bounds[1] < bounds[0] || bounds[1] - bounds[0] >= |rows| - at - 1)
    case WordId(n) =>
      if n <= 0 then error == InvalidId
      else if Repeats(rows, at) then error == DuplicateId
      else if rows[at].head < 0 then error == MissingHead
      else error == MalformedToken && components != [] && n != components[0]
  }

  lemma {:induction false} FailureIsFault(rows: seq<Row>, at: nat, components: seq<int>, error: ProjectionFailure)
    requires at < |rows|
    requires RowFailure(rows[at], |rows| - at - 1, HeadIndex(rows[..at]), components) == Some(error)
    ensures Fault(rows, at, components, error)
  {
    var before := rows[..at];
    IndexFacts(before);
    if rows[at].id.WordId? {
      assert Repeats(rows, at) <==> rows[at].id.n in HeadIndex(before) by {
        if i :| 0 <= i < at && rows[i].id == rows[at].id {
          assert before[i].id == WordId(rows[at].id.n);
        }
        if i :| 0 <= i < at && before[i].id == WordId(rows[at].id.n) {
          assert rows[i].id == rows[at].id;
        }
      }
    }
  }

  ghost predicate FirstRefusal(rows: seq<Row>, error: ProjectionFailure) {
    exists at: nat, open, components :: RefusedAt(rows, at, open, components, error)
  }

  /** An open range is the only one the scan can be in. */
  lemma {:induction false} OpenDetermined(rows: seq<Row>, at: nat, open: int, components: seq<int>,
                                          other: int, others: seq<int>)
    requires ScanInvariant(rows, at, open, components) && ScanInvariant(rows, at, other, others) && components != []
    ensures open == other && others != []
  {
    assert rows[open].id.TokenRange?;
  }

  /** How far the scan has come determines what it still expects. */
  lemma {:induction false} ScanDetermined(rows: seq<Row>, at: nat, open: int, components: seq<int>,
                                          other: int, others: seq<int>)
    requires ScanInvariant(rows, at, open, components) && ScanInvariant(rows, at, other, others)
    ensures components == others
  {
    if components != [] {
      OpenDetermined(rows, at, open, components, other, others);
    }
    if others != [] {
      OpenDetermined(rows, at, other, others, open, components);
    }
  }

  lemma {:induction false} NotDuplicate(rows: seq<Row>, at: nat)
    requires at < |rows| && DistinctWords(rows) && rows[at].id.WordId?
    ensures rows[at].id.n !in HeadIndex(rows[..at])
  {
    var before := rows[..at];
    IndexFacts(before);
    forall i | 0 <= i < at ensures before[i].id != rows[at].id {
      assert before[i] == rows[i];
    }
  }

  /** A row that a longer scan has passed is not refused. */
  lemma {:induction false} PassedNotRefused(rows: seq<Row>, at: nat, open: int, components: seq<int>,
                                            later: nat, other: int, others: seq<int>)
    requires ScanInvariant(rows, at, open, components) && ScanInvariant(rows, later, other, others)
    requires at < later
    ensures RowFailure(rows[at], |rows| - at - 1, HeadIndex(rows[..at]), components) == None
  {
    assert WordRow(rows[at]);
    if rows[at].id.WordId? {
      NotDuplicate(rows[..later], at);
      assert rows[..later][..at] == rows[..at];
    }
    if components != [] {
      assert rows[open].id.TokenRange?;
      assert rows[at].id == WordId(components[0]);
    } else if rows[at].id.TokenRange? {
      assert at != other ==> RangeFollowed(rows, at);
    }
  }

  lemma {:induction false} RefusedOnce(rows: seq<Row>, i: nat, open: int, components: seq<int>, a: ProjectionFailure,
                                       j: nat, other: int, others: seq<int>, b: ProjectionFailure)
    requires RefusedAt(rows, i, open, components, a) && RefusedAt(rows, j, other, others, b)
    ensures a == b
  {
    if i < j {
      PassedNotRefused(rows, i, open, components, j, other, others);
    } else if j < i {
      PassedNotRefused(rows, j, other, others, i, open, components);
    } else {
      ScanDetermined(rows, i, open, components, other, others);
    }
  }

  /** The rows determine the error. */
  lemma {:induction false} RefusalUnique(rows: seq<Row>, a: ProjectionFailure, b: ProjectionFailure)
    requires FirstRefusal(rows, a) && FirstRefusal(rows, b)
    ensures a == b
  {
    var i: nat, open, components :| RefusedAt(rows, i, open, components, a);
    var j: nat, other, others :| RefusedAt(rows, j, other, others, b);
    RefusedOnce(rows, i, open, components, a, j, other, others, b);
  }

  // ------------------------------------------------- closure and cycles

  method CheckHeads(order: seq<int>, heads: Heads) returns (ok: bool)
    requires Lists(order, heads)
    requires 0 !in heads
    ensures ok <==> Closed(heads)
  {
    for i := 0 to |order|
      invariant forall j :: 0 <= j < i ==> heads[order[j]] == 0 || heads[order[j]] in heads
    {
      var id := order[i];
      var head := heads[id];
      if head != 0 && head !in heads {
        assert id in heads;
        assert heads[id] !in heads;
        return false;
      }
    }
    return true;
  }

  lemma {:induction false} LeadsFurther(h: Heads, from: int, via: int)
    requires via in h && (from == via || LeadsTo(h, from, via))
    ensures LeadsTo(h, from, h[via])
  {
    if from == via {
      assert Up(h, from, 1) == h[via];
    } else {
      var k: nat :| k > 0 && Up(h, from, k) == via;
      UpAdd(h, from, k, 1);
      assert Up(h, from, k + 1) == h[via];
    }
  }

  lemma {:induction false} LeadsToRoot(h: Heads, from: int, via: int)
    requires LeadsTo(h, from, via) && (via == 0 || ReachesRoot(h, via))
    ensures ReachesRoot(h, from)
  {
    var k: nat :| k > 0 && Up(h, from, k) == via;
    if via != 0 {
      var m: nat :| Up(h, via, m) == 0;
      UpAdd(h, from, k, m);
    }
  }

  /** The cycle walk. `visits` counts the ids put on a chain: because the finished
      set is shared, every id is put on a chain at most once. */
  method CheckAcyclic(order: seq<int>, heads: Heads) returns (ok: bool, ghost visits: nat)
    requires Lists(order, heads)
    requires Closed(heads)
    ensures ok <==> Rooted(heads)
    ensures visits <= |heads| && (ok ==> visits == |heads|)
  {
    var finished: set<int> := {};
    visits := 0;
    for i := 0 to |order|
      invariant finished <= heads.Keys && visits == |finished|
      invariant forall f :: f in finished ==> ReachesRoot(heads, f)
      invariant forall j :: 0 <= j < i ==> order[j] in finished
    {
      var chain: set<int> := {};
      var cursor := order[i];
      while cursor != 0 && cursor !in finished
        invariant chain <= heads.Keys && chain !! finished
        invariant cursor == 0 || cursor in heads
        invariant order[i] == cursor || order[i] in chain
        invariant forall c :: c in chain ==> LeadsTo(heads, c, cursor)
        invariant visits == |finished| + |chain|
        decreases heads.Keys - chain
      {
        if cursor in chain {
          assert Ancestor(heads, cursor, cursor);
          AcyclicIffRooted(heads);
          assert finished + chain <= heads.Keys;
          SubsetSize(finished + chain, heads.Keys);
          return false, visits;
        }
        forall c | c in chain + {cursor} ensures LeadsTo(heads, c, heads[cursor]) {
          LeadsFurther(heads, c, cursor);
        }
        chain := chain + {cursor};
        visits := visits + 1;
        cursor := heads[cursor];
      }
      forall c | c in chain ensures ReachesRoot(heads, c) {
        LeadsToRoot(heads, c, cursor);
      }
      assert |finished + chain| == |finished| + |chain|;
      finished := finished + chain;
    }
    assert finished == heads.Keys by {
      forall id | id in heads ensures id in finished {
        var j :| 0 <= j < |order| && order[j] == id;
      }
    }
    return true, visits;
  }

  // ------------------------------------------------------------ admission

  /** An admitted sentence: its rows, its repair records and its index. */
  datatype Graph = Graph(rows: seq<Row>, repairs: seq<PositionedRepair>,
                         order: seq<int>, heads: Heads, tokens: seq<nat>)

  /** What every graph issued by `Admit` satisfies. */
  ghost predicate Admitted(g: Graph) {
    && Admissible(g.rows)
    && g.order == WordOrder(g.rows)
    && g.heads == HeadIndex(g.rows)
    && TokensUpTo(g.rows, g.tokens, |g.rows|)
  }

  /** `DependencyGraph.__init__`: accepted exactly when the rows are admissible. */
  method Admit(rows: seq<Row>, repairs: seq<PositionedRepair>)
    returns (r: Result<Graph, ProjectionFailure>, ghost visits: nat)
    ensures r.Ok? <==> Admissible(rows)
    ensures r.Ok? ==> Admitted(r.value) && r.value.rows == rows && r.value.repairs == repairs
    ensures r == Err(Cycle) <==> WellFormedRows(rows) && Closed(HeadIndex(rows)) && !Acyclic(HeadIndex(rows))
    ensures !WellFormedRows(rows) ==> r.Err? && FirstRefusal(rows, r.error)
    ensures WellFormedRows(rows) && !Closed(HeadIndex(rows)) ==> r == Err(MissingHead)
    ensures visits <= |HeadIndex(rows)|
  {
    visits := 0;
    var scanned := ScanRows(rows);
    if scanned.Err? {
      return Err(scanned.error), visits;
    }
    var Scan(order, heads, tokens) := scanned.value;
    IndexFacts(rows);
    var closed := CheckHeads(order, heads);
    if !closed {
      return Err(MissingHead), visits;
    }
    AcyclicIffRooted(heads);
    var rooted;
    rooted, visits := CheckAcyclic(order, heads);
    if !rooted {
      return Err(Cycle), visits;
    }
    r := Ok(Graph(rows, repairs, order, heads, tokens));
  }

  // ----------------------------------------------------------- projection

  datatype AnalyzableSentence = AnalyzableSentence(rows: seq<Row>, repairs: seq<Repair>)

  function RepairsKept(repairs: seq<PositionedRepair>, cueAt: nat): seq<Repair> {
    if repairs == [] then []
    else
      var n := |repairs| - 1;
      if repairs[n].position != cueAt then RepairsKept(repairs[..n], cueAt) + [repairs[n].repair]
      else RepairsKept(repairs[..n], cueAt)
  }

  function AllRepairs(repairs: seq<PositionedRepair>): seq<Repair> {
    seq(|repairs|, i requires 0 <= i < |repairs| => repairs[i].repair)
  }

  /** `preserve_boundaries`: nothing is deleted, only the token count is checked. */
  method PreserveBoundaries(g: Graph, boundaries: int) returns (r: Result<AnalyzableSentence, ProjectionFailure>)
    requires Admitted(g)
    ensures r.Ok? <==> |g.tokens| == boundaries
    ensures r.Ok? ==> r.value.rows == g.rows && Admissible(r.value.rows) && |r.value.repairs| == |g.repairs|
                      && forall i :: 0 <= i < |g.repairs| ==> r.value.repairs[i] == g.repairs[i].repair
    ensures r.Err? ==> r.error == Boundaries
  {
    if |g.tokens| != boundaries {
      return Err(Boundaries);
    }
    return Ok(AnalyzableSentence(g.rows, AllRepairs(g.repairs)));
  }

  /** Words of `order` whose head is `head`, other than `except`. */
  function WithHead(order: seq<int>, heads: Heads, head: int, except: Option<int>): (r: seq<int>)
    requires forall i :: 0 <= i < |order| ==> order[i] in heads
    ensures forall id :: id in r ==> id in order && id in heads && heads[id] == head && except != Some(id)
    ensures forall i :: 0 <= i < |order| && heads[order[i]] == head && except != Some(order[i]) ==> order[i] in r
  {
    if order == [] then []
    else
      (if heads[order[0]] == head && except != Some(order[0]) then [order[0]] else [])
      + WithHead(order[1..], heads, head, except)
  }

  /** Whether a row's id equals the promoted word's id. An empty node at a whole
      position compares equal to an integer id, as it does in the source. */
  predicate IsPromoted(id: RowId, promoted: Option<int>) {
    promoted.Some? && SameId(id, WordId(promoted.value))
  }

  /** Which row is removed, the word it holds, the dependent promoted to root if any, and the
      head its dependents get. */
  datatype CueRemoval = CueRemoval(at: nat, cue: int, promoted: Option<int>, target: int)

  /** The row written for `row` once the cue is gone. */
  function Rewired(row: Row, c: CueRemoval): Row {
    if IsPromoted(row.id, c.promoted) then row.(head := 0, deprel := "root")
    else if row.head == c.cue then row.(head := c.target)
    else row
  }

  function PromotionRepairs(rows: seq<Row>, cueAt: nat, promoted: Option<int>): seq<Repair> {
    if rows == [] then []
    else
      var n := |rows| - 1;
      var last := rows[n];
      if n != cueAt && IsPromoted(last.id, promoted) && last.deprel != "root"
      then PromotionRepairs(rows[..n], cueAt, promoted) + [CueRootPromotion(last.text, last.deprel)]
      else PromotionRepairs(rows[..n], cueAt, promoted)
  }

  /** Rows kept, in order, each rewired. */
  ghost predicate RowsWithoutCue(rows: seq<Row>, c: CueRemoval, out: seq<Row>)
    requires c.at < |rows|
  {
    && |out| == |rows| - 1
    && (forall i :: 0 <= i < c.at ==> out[i] == Rewired(rows[i], c))
    && (forall i :: c.at <= i < |out| ==> out[i] == Rewired(rows[i + 1], c))
  }

  /** The rows' last token-opening row. */
  ghost predicate IsCue(g: Graph, cueAt: nat, cue: int) {
    g.tokens != [] && cueAt == g.tokens[|g.tokens| - 1] && cueAt < |g.rows| && g.rows[cueAt].id == WordId(cue)
  }

  /** When a root cue has exactly one dependent and there is no other root. */
  ghost predicate Promotable(h: Heads, cue: int, child: int) {
    && cue in h && h[cue] == 0
    && child in h && h[child] == cue
    && (forall i :: i in h && h[i] == cue ==> i == child)
    && (forall i :: i in h && h[i] == 0 ==> i == cue)
  }

  ghost predicate Projectable(h: Heads, cue: int) {
    cue in h && (h[cue] != 0 || exists child :: Promotable(h, cue, child))
  }

  lemma {:induction false} OrderDistinct(rows: seq<Row>)
    requires DistinctWords(rows)
    ensures Distinct(WordOrder(rows))
  {
    if rows != [] {
      var n := |rows| - 1;
      var before := rows[..n];
      assert DistinctWords(before);
      OrderDistinct(before);
      IndexFacts(before);
      if rows[n].id.WordId? && rows[n].id.n in HeadIndex(before) {
        DuplicateBreaks(rows, n);
      }
    }
  }

  /** Filtering a duplicate-free list keeps it duplicate-free. */
  lemma {:induction false} WithHeadDistinct(order: seq<int>, heads: Heads, head: int, except: Option<int>)
    requires forall i :: 0 <= i < |order| ==> order[i] in heads
    requires Distinct(order)
    ensures Distinct(WithHead(order, heads, head, except))
  {
    if order != [] {
      var rest := WithHead(order[1..], heads, head, except);
      WithHeadDistinct(order[1..], heads, head, except);
      forall j | 0 <= j < |rest| ensures rest[j] != order[0] {
        assert rest[j] in rest;
        assert order[0] !in order[1..];
      }
      if heads[order[0]] == head && except != Some(order[0]) {
        assert WithHead(order, heads, head, except) == [order[0]] + rest;
      } else {
        assert WithHead(order, heads, head, except) == rest;
      }
    }
  }

  /** `project_cue`. */
  method ProjectCue(g: Graph, boundaries: int) returns (r: Result<AnalyzableSentence, ProjectionFailure>)
    requires Admitted(g)
    ensures r.Ok? <==> |g.tokens| == boundaries && g.tokens != []
                       && exists cueAt, cue :: IsCue(g, cueAt, cue) && Projectable(g.heads, cue)
    ensures r.Ok? ==> exists c :: Projection(g, c, r.value) && Issued(g, c, r.value)
    ensures r.Ok? ==> Admissible(r.value.rows)
    ensures r == Err(Boundaries) <==> |g.tokens| != boundaries || g.tokens == []
    ensures r == Err(AmbiguousRoot) <==>
            |g.tokens| == boundaries && exists cueAt, cue :: IsCue(g, cueAt, cue) && !Projectable(g.heads, cue)
    ensures r.Err? ==> r.error in {Boundaries, CueNotAWord, AmbiguousRoot}
  {
    if |g.tokens| != boundaries || g.tokens == [] {
      return Err(Boundaries);
    }
    var cueAt := g.tokens[|g.tokens| - 1];
    assert cueAt in g.tokens;
    if !g.rows[cueAt].id.WordId? {
      return Err(CueNotAWord);
    }
    var cue := g.rows[cueAt].id.n;
    assert IsCue(g, cueAt, cue);
    IndexFacts(g.rows);
    OrderDistinct(g.rows);
    var decided := ChooseTarget(g.order, g.heads, cue);
    if decided.None? {
      return Err(AmbiguousRoot);
    }
    var (promoted, target) := decided.value;
    var c := CueRemoval(cueAt, cue, promoted, target);
    var rows, repairs := RewireRows(g.rows, c);
    var out := AnalyzableSentence(rows, RepairsKept(g.repairs, cueAt) + repairs);
    assert Projection(g, c, out);
    ProjectionPreservesGraph(g, c, out);
    ProjectionIssues(g, c, out);
    return Ok(out);
  }

  /** The replacement head of the cue's dependents, or a refusal. */
  method ChooseTarget(order: seq<int>, heads: Heads, cue: int) returns (r: Option<(Option<int>, int)>)
    requires Lists(order, heads) && cue in heads && Distinct(order)
    ensures r.Some? <==> Projectable(heads, cue)
    ensures r.Some? ==> TargetFor(heads, cue, r.value.0, r.value.1)
  {
    if heads[cue] != 0 {
      return Some((None, heads[cue]));
    }
    var children := WithHead(order, heads, cue, None);
    var otherRoots := WithHead(order, heads, 0, Some(cue));
    WithHeadDistinct(order, heads, cue, None);
    Listed(order, heads, cue, None);
    Listed(order, heads, 0, Some(cue));
    PromotableIff(heads, cue, children, otherRoots);
    if |children| != 1 || otherRoots != [] {
      return None;
    }
    return Some((Some(children[0]), children[0]));
  }

  /** `ids` lists the words of the graph with a head, other than `except`. */
  ghost predicate Dependents(h: Heads, head: int, except: Option<int>, ids: seq<int>) {
    && (forall id :: id in h && h[id] == head && except != Some(id) ==> id in ids)
    && (forall i :: 0 <= i < |ids| ==> ids[i] in h && h[ids[i]] == head && except != Some(ids[i]))
  }

  /** A root cue can be replaced exactly when it has one dependent and no other root exists. */
  lemma {:induction false} PromotableIff(h: Heads, cue: int, children: seq<int>, otherRoots: seq<int>)
    requires cue in h && h[cue] == 0 && Distinct(children)
    requires Dependents(h, cue, None, children) && Dependents(h, 0, Some(cue), otherRoots)
    ensures Projectable(h, cue) <==> |children| == 1 && otherRoots == []
    ensures |children| == 1 && otherRoots == [] ==> Promotable(h, cue, children[0])
  {
    if |children| == 1 && otherRoots == [] {
      assert Promotable(h, cue, children[0]);
    } else {
      NotPromotable(h, cue, children, otherRoots);
    }
  }

  /** The filter misses no word of the graph. */
  lemma {:induction false} Listed(order: seq<int>, heads: Heads, head: int, except: Option<int>)
    requires Lists(order, heads)
    ensures Dependents(heads, head, except, WithHead(order, heads, head, except))
  {
    var r := WithHead(order, heads, head, except);
    forall i | 0 <= i < |r| ensures r[i] in heads && heads[r[i]] == head && except != Some(r[i]) {
      assert r[i] in r;
    }
    forall id | id in heads && heads[id] == head && except != Some(id) ensures id in r {
      var i :| 0 <= i < |order| && order[i] == id;
    }
  }

  /** The row loop of the projection. */
  method RewireRows(rows: seq<Row>, c: CueRemoval)
    returns (out: seq<Row>, repairs: seq<Repair>)
    requires c.at < |rows|
    ensures RowsWithoutCue(rows, c, out)
    ensures repairs == PromotionRepairs(rows, c.at, c.promoted)
  {
    out, repairs := [], [];
    for at := 0 to |rows|
      invariant |out| == if at <= c.at then at else at - 1
      invariant forall i :: 0 <= i < at && i < c.at ==> out[i] == Rewired(rows[i], c)
      invariant forall i :: c.at <= i < |out| ==> out[i] == Rewired(rows[i + 1], c)
      invariant repairs == PromotionRepairs(rows[..at], c.at, c.promoted)
    {
      PrefixStep(rows, at);
      if at != c.at {
        if IsPromoted(rows[at].id, c.promoted) && rows[at].deprel != "root" {
          repairs := repairs + [CueRootPromotion(rows[at].text, rows[at].deprel)];
        }
        out := out + [Rewired(rows[at], c)];
      }
    }
    assert rows[..|rows|] == rows;
  }

  lemma {:induction false} NotPromotable(h: Heads, cue: int, children: seq<int>, otherRoots: seq<int>)
    requires cue in h && h[cue] == 0 && Distinct(children)
    requires Dependents(h, cue, None, children) && Dependents(h, 0, Some(cue), otherRoots)
    requires |children| != 1 || otherRoots != []
    ensures !Projectable(h, cue)
  {
    if otherRoots != [] {
      var other := otherRoots[0];
      assert other in h && h[other] == 0 && other != cue;
    } else if |children| > 1 {
      assert h[children[0]] == cue && h[children[1]] == cue;
    } else {
      assert forall child :: child in h ==> h[child] != cue;
    }
  }

  /** Whom the cue's dependents are handed to. */
  ghost predicate TargetFor(h: Heads, cue: int, promoted: Option<int>, target: int)
    requires cue in h
  {
    if h[cue] == 0
    then promoted == Some(target) && Promotable(h, cue, target)
    else promoted == None && target == h[cue]
  }

  /** The cue, the rewiring target and the sentence one projection produced. */
  ghost predicate Projection(g: Graph, c: CueRemoval, out: AnalyzableSentence) {
    && IsCue(g, c.at, c.cue)
    && c.cue in g.heads
    && TargetFor(g.heads, c.cue, c.promoted, c.target)
    && RowsWithoutCue(g.rows, c, out.rows)
    && out.repairs == RepairsKept(g.repairs, c.at) + PromotionRepairs(g.rows, c.at, c.promoted)
  }

  // ----------------------------------------- what projection preserves

  /** Where the row now at `i` stood before the cue at `cueAt` was removed. */
  function Origin(i: int, cueAt: int): int {
    if i < cueAt then i else i + 1
  }

  lemma {:induction false} ProjectedRow(g: Graph, c: CueRemoval, out: AnalyzableSentence, i: int)
    requires Projection(g, c, out) && 0 <= i < |out.rows|
    ensures 0 <= Origin(i, c.at) < |g.rows| && Origin(i, c.at) != c.at
    ensures out.rows[i] == Rewired(g.rows[Origin(i, c.at)], c)
    ensures out.rows[i].id == g.rows[Origin(i, c.at)].id
  {
  }

  lemma {:induction false} ProjectedDistinct(g: Graph, c: CueRemoval, out: AnalyzableSentence)
    requires Admitted(g) && Projection(g, c, out)
    ensures DistinctWords(out.rows)
  {
    forall i, j | 0 <= i < j < |out.rows| && out.rows[i].id.WordId? && out.rows[j].id.WordId?
      ensures out.rows[i].id != out.rows[j].id
    {
      ProjectedRow(g, c, out, i);
      ProjectedRow(g, c, out, j);
    }
  }

  lemma {:induction false} CueLeavesItself(g: Graph, cue: int)
    requires Admitted(g) && cue in g.heads
    ensures g.heads[cue] != cue && cue > 0
  {
    AcyclicIffRooted(g.heads);
    assert !Ancestor(g.heads, cue, cue);
    assert Up(g.heads, cue, 1) == g.heads[cue];
    var at := RowOf(g.rows, cue);
    assert WordRow(g.rows[at]);
  }

  /** On the id-to-head index, projection is contraction of the cue. */
  lemma {:induction false} ProjectedIndex(g: Graph, c: CueRemoval, out: AnalyzableSentence)
    requires Admitted(g) && Projection(g, c, out)
    ensures HeadIndex(out.rows) == Contract(g.heads, c.cue)
  {
    var after := HeadIndex(out.rows);
    ProjectedDistinct(g, c, out);
    forall id ensures id in after <==> id in Contract(g.heads, c.cue) {
      ProjectedKey(g, c, out, id);
    }
    forall id | id in after ensures after[id] == Contract(g.heads, c.cue)[id] {
      var i := RowOf(out.rows, id);
      RowIsIndexed(out.rows, i);
      ProjectedHead(g, c, out, i);
    }
  }

  lemma {:induction false} ProjectedKey(g: Graph, c: CueRemoval, out: AnalyzableSentence, id: int)
    requires Admitted(g) && Projection(g, c, out)
    ensures id in HeadIndex(out.rows) <==> id in g.heads && id != c.cue
  {
    if id in HeadIndex(out.rows) {
      var i := RowOf(out.rows, id);
      ProjectedRow(g, c, out, i);
      RowIsIndexed(g.rows, Origin(i, c.at));
    }
    if id in g.heads && id != c.cue {
      var at := RowOf(g.rows, id);
      var i := if at < c.at then at else at - 1;
      ProjectedRow(g, c, out, i);
      RowIsIndexed(out.rows, i);
    }
  }

  lemma {:induction false} ProjectedHead(g: Graph, c: CueRemoval, out: AnalyzableSentence, i: nat)
    requires Admitted(g) && Projection(g, c, out)
    requires i < |out.rows| && out.rows[i].id.WordId?
    ensures var id := out.rows[i].id.n;
            id in g.heads && out.rows[i].head == if g.heads[id] == c.cue then g.heads[c.cue] else g.heads[id]
  {
    ProjectedRow(g, c, out, i);
    RowIsIndexed(g.rows, Origin(i, c.at));
  }

  lemma {:induction false} TokensEndAtCue(g: Graph, cueAt: nat, cue: int)
    requires Admitted(g) && IsCue(g, cueAt, cue)
    ensures OpensToken(g.rows, cueAt)
    ensures forall at :: at in g.tokens ==> at <= cueAt
    ensures var kept := g.tokens[..|g.tokens| - 1];
            && (forall at :: at in g.tokens <==> at in kept || at == cueAt)
            && (forall at :: at in kept ==> at < cueAt)
  {
    assert g.tokens == g.tokens[..|g.tokens| - 1] + [cueAt];
    assert cueAt in g.tokens;
  }

  /** The cue is outside every range, and every range ends before it. */
  lemma {:induction false} RangesBeforeCue(g: Graph, cueAt: nat, cue: int, r: nat)
    requires Admitted(g) && IsCue(g, cueAt, cue)
    requires r < |g.rows| && g.rows[r].id.TokenRange?
    ensures r + Width(g.rows[r].id) < cueAt
  {
    TokensEndAtCue(g, cueAt, cue);
    assert OpensToken(g.rows, r);
    assert r in g.tokens;
    assert !Covered(g.rows, cueAt);
  }

  lemma {:induction false} ProjectedWellFormed(g: Graph, c: CueRemoval, out: AnalyzableSentence)
    requires Admitted(g) && Projection(g, c, out)
    ensures WellFormedRows(out.rows)
  {
    ProjectedDistinct(g, c, out);
    assert c.target >= 0 by {
      if c.target != 0 {
        var at := RowOf(g.rows, c.target);
        assert WordRow(g.rows[at]);
      }
    }
    forall i | 0 <= i < |out.rows| ensures WordRow(out.rows[i]) {
      ProjectedRow(g, c, out, i);
      assert WordRow(g.rows[Origin(i, c.at)]);
    }
    forall i | 0 <= i < |out.rows| && out.rows[i].id.TokenRange? ensures RangeFollowed(out.rows, i) {
      ProjectedRow(g, c, out, i);
      RangesBeforeCue(g, c.at, c.cue, Origin(i, c.at));
      assert RangeFollowed(g.rows, i);
      forall p | i < p <= i + Width(out.rows[i].id)
        ensures out.rows[p].id == WordId(out.rows[i].id.bounds[0] + (p - i - 1))
      {
        ProjectedRow(g, c, out, p);
      }
    }
  }

  /** Rows before the cue open a token after projection exactly when they did before. */
  lemma {:induction false} ProjectedOpens(g: Graph, c: CueRemoval, out: AnalyzableSentence, at: nat)
    requires Admitted(g) && Projection(g, c, out)
    requires at < c.at
    ensures OpensToken(out.rows, at) <==> OpensToken(g.rows, at)
  {
    ProjectedRow(g, c, out, at);
    forall r | 0 <= r < at ensures out.rows[r].id == g.rows[r].id {
      ProjectedRow(g, c, out, r);
    }
    assert Covered(out.rows, at) <==> Covered(g.rows, at);
  }

  lemma {:induction false} ProjectedTokens(g: Graph, c: CueRemoval, out: AnalyzableSentence)
    requires Admitted(g) && Projection(g, c, out)
    ensures TokensUpTo(out.rows, g.tokens[..|g.tokens| - 1], |out.rows|)
  {
    var kept := g.tokens[..|g.tokens| - 1];
    TokensEndAtCue(g, c.at, c.cue);
    forall at: int ensures at in kept <==> 0 <= at < |out.rows| && OpensToken(out.rows, at) {
      if 0 <= at < c.at {
        ProjectedOpens(g, c, out, at);
      } else if c.at <= at < |out.rows| {
        ProjectedRow(g, c, out, at);
        NothingOpensAfterCue(g, c.at, c.cue, at + 1);
      }
    }
  }

  /** Only empty nodes can follow the cue. */
  lemma {:induction false} NothingOpensAfterCue(g: Graph, cueAt: nat, cue: int, at: nat)
    requires Admitted(g) && IsCue(g, cueAt, cue) && cueAt < at < |g.rows|
    ensures g.rows[at].id.EmptyNode?
  {
    TokensEndAtCue(g, cueAt, cue);
    assert at !in g.tokens;
    assert !OpensToken(g.rows, at);
    if Covered(g.rows, at) {
      var r :| 0 <= r < at && ProperRange(g.rows[r].id) && at - r <= Width(g.rows[r].id);
      RangesBeforeCue(g, cueAt, cue, r);
    }
  }

  /** "Emission needs no second audit": whenever the projection succeeds, the rows it
      issues are admissible again, with the cue's token gone and every other token
      kept; ancestry between the remaining words is exactly what it was; and the
      roots are the old ones, or exactly the promoted child of a root cue. */
  lemma {:induction false} ProjectionPreservesGraph(g: Graph, c: CueRemoval, out: AnalyzableSentence)
    requires Admitted(g) && Projection(g, c, out)
    ensures Admissible(out.rows) && Acyclic(HeadIndex(out.rows))
    ensures HeadIndex(out.rows).Keys == g.heads.Keys - {c.cue}
    ensures TokensUpTo(out.rows, g.tokens[..|g.tokens| - 1], |out.rows|)
    ensures forall a, b :: a in g.heads && b in g.heads && a != c.cue && b != c.cue ==>
              (Ancestor(HeadIndex(out.rows), a, b) <==> Ancestor(g.heads, a, b))
    ensures forall i :: i in HeadIndex(out.rows) ==>
              (HeadIndex(out.rows)[i] == 0 <==> if c.promoted.Some? then i == c.promoted.value else g.heads[i] == 0)
    ensures forall at :: 0 <= at < |out.rows| ==> out.rows[at].head != c.cue
  {
    ContractPreserves(g.heads, c.cue);
    ProjectedIndex(g, c, out);
    ProjectedWellFormed(g, c, out);
    ProjectedTokens(g, c, out);
    CueLeavesItself(g, c.cue);
    forall at | 0 <= at < |out.rows| ensures out.rows[at].head != c.cue {
      ProjectedRow(g, c, out, at);
    }
  }

  // --------------------------------------------------- what is issued

  /** The row's id compares equal to the promoted word's id. */
  ghost predicate HoldsPromoted(row: Row, promoted: Option<int>) {
    promoted.Some? && (row.id == WordId(promoted.value) || row.id == EmptyNode(promoted.value as real))
  }

  /** What becomes of one row: its id, text, tag and other columns stay; the promoted word
      becomes the root, and dependents of the cue get the cue's own head or that word. */
  ghost predicate RowIssued(row: Row, c: CueRemoval, cueHead: int, out: Row) {
    && out.id == row.id && out.text == row.text && out.upos == row.upos && out.extra == row.extra
    && out.deprel == (if HoldsPromoted(row, c.promoted) then "root" else row.deprel)
    && out.head == (if HoldsPromoted(row, c.promoted) then 0
                    else if row.head != c.cue then row.head
                    else if c.promoted.Some? then c.promoted.value else cueHead)
  }

  /** Row `at` holds the promoted word under another relation. */
  ghost predicate Promotes(rows: seq<Row>, c: CueRemoval, at: int) {
    0 <= at < |rows| && at != c.at && HoldsPromoted(rows[at], c.promoted) && rows[at].deprel != "root"
  }

  /** The repairs issued: those of the rows that stay, in order, then one record for each
      promoted row whose relation changed, with its own text and old relation. */
  ghost predicate RepairsIssued(g: Graph, c: CueRemoval, kept: seq<nat>, changed: seq<nat>, repairs: seq<Repair>) {
    && Increasing(kept)
    && (forall k: nat :: k in kept <==> k < |g.repairs| && g.repairs[k].position != c.at)
    && Increasing(changed) && (forall at: nat :: at in changed <==> Promotes(g.rows, c, at))
    && |repairs| == |kept| + |changed|
    && (forall j :: 0 <= j < |kept| ==> kept[j] < |g.repairs| && repairs[j] == g.repairs[kept[j]].repair)
    && (forall j :: 0 <= j < |changed| ==>
          changed[j] < |g.rows|
          && repairs[|kept| + j] == CueRootPromotion(g.rows[changed[j]].text, g.rows[changed[j]].deprel))
  }

  /** Every row but the cue is issued, in order, and so are the repairs. */
  ghost predicate Issued(g: Graph, c: CueRemoval, out: AnalyzableSentence) {
    && c.at < |g.rows| && c.cue in g.heads && |out.rows| == |g.rows| - 1
    && (forall i :: 0 <= i < c.at ==> RowIssued(g.rows[i], c, g.heads[c.cue], out.rows[i]))
    && (forall i :: c.at < i < |g.rows| ==> RowIssued(g.rows[i], c, g.heads[c.cue], out.rows[i - 1]))
    && (exists kept, changed :: RepairsIssued(g, c, kept, changed, out.repairs))
  }

  function Elsewhere(cueAt: nat): PositionedRepair -> bool {
    (repair: PositionedRepair) => repair.position != cueAt
  }

  lemma {:induction false} KeptRepairs(repairs: seq<PositionedRepair>, cueAt: nat) returns (kept: seq<nat>)
    ensures Passing(repairs, Elsewhere(cueAt), kept) && Picked(AllRepairs(repairs), kept, RepairsKept(repairs, cueAt))
  {
    if repairs == [] {
      kept := [];
    } else {
      var n := |repairs| - 1;
      kept := KeptRepairs(repairs[..n], cueAt);
      assert repairs == repairs[..n] + [repairs[n]];
      assert AllRepairs(repairs) == AllRepairs(repairs[..n]) + [repairs[n].repair];
      PassingNext(repairs[..n], repairs[n], Elsewhere(cueAt), kept);
      PickedNext(AllRepairs(repairs[..n]), repairs[n].repair, kept, RepairsKept(repairs[..n], cueAt));
      if repairs[n].position != cueAt {
        kept := kept + [n];
      }
    }
  }

  lemma {:induction false} ChangedRows(rows: seq<Row>, c: CueRemoval) returns (changed: seq<nat>)
    ensures Increasing(changed) && |PromotionRepairs(rows, c.at, c.promoted)| == |changed|
    ensures forall at: nat :: at in changed <==> Promotes(rows, c, at)
    ensures forall j :: 0 <= j < |changed| ==>
              changed[j] < |rows|
              && PromotionRepairs(rows, c.at, c.promoted)[j]
                 == CueRootPromotion(rows[changed[j]].text, rows[changed[j]].deprel)
  {
    if rows == [] {
      changed := [];
    } else {
      var n := |rows| - 1;
      changed := ChangedRows(rows[..n], c);
      AppendPosition(changed, n);
      if n != c.at && HoldsPromoted(rows[n], c.promoted) && rows[n].deprel != "root" {
        changed := changed + [n];
      }
    }
  }

  lemma {:induction false} RewiredIsIssued(row: Row, c: CueRemoval, cueHead: int)
    requires c.target == if c.promoted.Some? then c.promoted.value else cueHead
    ensures RowIssued(row, c, cueHead, Rewired(row, c))
  {
  }

  /** A projection issues the rows and repairs just described. */
  lemma {:induction false} ProjectionIssues(g: Graph, c: CueRemoval, out: AnalyzableSentence)
    requires Projection(g, c, out)
    ensures Issued(g, c, out)
  {
    forall i | 0 <= i < c.at ensures RowIssued(g.rows[i], c, g.heads[c.cue], out.rows[i]) {
      RewiredIsIssued(g.rows[i], c, g.heads[c.cue]);
    }
    forall i | c.at < i < |g.rows| ensures RowIssued(g.rows[i], c, g.heads[c.cue], out.rows[i - 1]) {
      RewiredIsIssued(g.rows[i], c, g.heads[c.cue]);
      assert out.rows[i - 1] == Rewired(g.rows[i - 1 + 1], c);
    }
    var kept := KeptRepairs(g.repairs, c.at);
    var changed := ChangedRows(g.rows, c);
    assert RepairsIssued(g, c, kept, changed, out.repairs);
  }

  // ------------------------------------------------------- tag overrides

  /** What an external tagger returned for one row; absent fields are `None`. */
  datatype TaggedRow = TaggedRow(id: Option<RowId>, upos: Option<string>)

  /** Ids that compare equal in the source, where a whole decimal equals an integer. */
  predicate SameId(a: RowId, b: RowId) {
    match (a, b)
    case (WordId(n), EmptyNode(position)) => position == n as real
    case (EmptyNode(position), WordId(n)) => position == n as real
    case _ => a == b
  }

  predicate Identifies(tagged: TaggedRow, row: Row) {
    tagged.id.Some? && SameId(tagged.id.value, row.id)
  }

  /** `with_pos`: only tags are taken from the tagger, so ids, heads and with them
      the admitted graph are untouched. */
  method WithPos(s: AnalyzableSentence, tagged: seq<TaggedRow>)
    returns (r: Result<AnalyzableSentence, ProjectionFailure>)
    ensures r.Ok? <==> |tagged| == |s.rows| &&
                       forall i :: 0 <= i < |tagged| ==> Identifies(tagged[i], s.rows[i]) && tagged[i].upos.Some?
    ensures r.Ok? ==> r.value.repairs == s.repairs && |r.value.rows| == |s.rows| &&
                      forall i :: 0 <= i < |s.rows| ==> r.value.rows[i] == s.rows[i].(upos := tagged[i].upos.value)
    ensures r.Ok? ==> HeadIndex(r.value.rows) == HeadIndex(s.rows)
    ensures r.Ok? && Admissible(s.rows) ==> Admissible(r.value.rows)
    ensures r.Err? ==> r.error == PosAlignment
  {
    if |tagged| != |s.rows| {
      return Err(PosAlignment);
    }
    var rows: seq<Row> := [];
    for i := 0 to |tagged|
      invariant |rows| == i
      invariant forall j :: 0 <= j < i ==> Identifies(tagged[j], s.rows[j]) && tagged[j].upos.Some?
      invariant forall j :: 0 <= j < i ==> rows[j] == s.rows[j].(upos := tagged[j].upos.value)
    {
      if !Identifies(tagged[i], s.rows[i]) || tagged[i].upos.None? {
        return Err(PosAlignment);
      }
      rows := rows + [s.rows[i].(upos := tagged[i].upos.value)];
    }
    RetaggedIndex(s.rows, rows);
    if Admissible(s.rows) {
      forall at | 0 <= at < |rows| ensures WordRow(rows[at]) {
        assert WordRow(s.rows[at]);
      }
      forall at | 0 <= at < |rows| && rows[at].id.TokenRange? ensures RangeFollowed(rows, at) {
        assert RangeFollowed(s.rows, at);
      }
    }
    return Ok(AnalyzableSentence(rows, s.repairs));
  }

  ghost predicate SameButTags(rows: seq<Row>, tagged: seq<Row>) {
    |tagged| == |rows| &&
    forall i :: 0 <= i < |rows| ==> tagged[i].id == rows[i].id && tagged[i].head == rows[i].head
  }

  lemma {:induction false} RetaggedIndex(rows: seq<Row>, tagged: seq<Row>)
    requires SameButTags(rows, tagged)
    ensures HeadIndex(tagged) == HeadIndex(rows)
    decreases |rows|
  {
    if rows != [] {
      RetaggedIndex(rows[..|rows| - 1], tagged[..|rows| - 1]);
    }
  }
}
