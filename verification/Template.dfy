/** Templates and masks of a cluster (template.go): the tokens common to all rows,
    the rendered templates and the parameter masks. */
module Template {
  import opened Bytes
  import opened Tokens
  import opened TokenRecord
  import opened Placeholder
  import opened Sorting
  import opened GreedyMatch
  import opened Pieces

  // ---------------------------------------------------------- specification

  /** Ids of the candidates among the first k tokens of a row. */
  ghost function CandidatesUpTo(row: Row, f: StaticFilter, k: nat): set<nat>
    requires k <= |row.toks| == |row.ids|
  {
    set j | 0 <= j < k && CommonCandidate(row.toks[j], f) :: row.ids[j]
  }

  ghost function Candidates(row: Row, f: StaticFilter): set<nat>
    requires |row.toks| == |row.ids|
  {
    CandidatesUpTo(row, f, |row.toks|)
  }

  /** Ids that are candidates in each of the first k rows. */
  ghost function CommonUpTo(rows: seq<Row>, f: StaticFilter, k: nat): set<nat>
    requires 0 < k <= |rows| && forall r :: 0 <= r < |rows| ==> |rows[r].toks| == |rows[r].ids|
  {
    if k == 1 then Candidates(rows[0], f) else CommonUpTo(rows, f, k - 1) * Candidates(rows[k - 1], f)
  }

  ghost function CommonIds(rows: seq<Row>, f: StaticFilter): set<nat>
    requires rows != [] && forall r :: 0 <= r < |rows| ==> |rows[r].toks| == |rows[r].ids|
  {
    CommonUpTo(rows, f, |rows|)
  }

  /** An id is common iff it is a candidate's id in every row. */
  lemma {:induction false} CommonExact(rows: seq<Row>, f: StaticFilter, k: nat, id: nat)
    requires 0 < k <= |rows| && forall r :: 0 <= r < |rows| ==> |rows[r].toks| == |rows[r].ids|
    ensures id in CommonUpTo(rows, f, k) <==> forall r :: 0 <= r < k ==> id in Candidates(rows[r], f)
  {
    hide Candidates;
    if k > 1 {
      CommonExact(rows, f, k - 1, id);
    }
  }

  lemma {:induction false} CommonShrinks(rows: seq<Row>, f: StaticFilter, k: nat, m: nat)
    requires 0 < k <= m <= |rows| && forall r :: 0 <= r < |rows| ==> |rows[r].toks| == |rows[r].ids|
    ensures CommonUpTo(rows, f, m) <= CommonUpTo(rows, f, k)
    decreases m
  {
    if k < m {
      CommonShrinks(rows, f, k, m - 1);
    }
  }

  lemma CandidatesStep(row: Row, f: StaticFilter, k: nat)
    requires k < |row.toks| == |row.ids|
    ensures CandidatesUpTo(row, f, k + 1)
         == CandidatesUpTo(row, f, k) + (if CommonCandidate(row.toks[k], f) then {row.ids[k]} else {})
  {
    var now, then_ := CandidatesUpTo(row, f, k), CandidatesUpTo(row, f, k + 1);
    forall x | x in now ensures x in then_ {
    }
    if CommonCandidate(row.toks[k], f) {
      assert row.ids[k] in then_;
    }
  }

  // ------------------------------------------------------- common-token marks

  /** What a candidate's mark becomes: the first row marks it, a later one moves it up one level
      if it stands at the level before. */
  function Step(m: nat, first: bool, level: nat): nat {
    if first || m == level then level + 1 else m
  }

  /** The ids of `done` have made their step, all other marks are as before. */
  ghost predicate Stepped(marks: seq<nat>, before: seq<nat>, done: set<nat>, first: bool, level: nat) {
    |marks| == |before| &&
    forall id: nat :: id < |marks| ==> marks[id] == if id in done then Step(before[id], first, level) else before[id]
  }

  /** Those of `done` whose marks have changed. */
  ghost function Moved(before: seq<nat>, done: set<nat>, first: bool, level: nat): set<nat> {
    set id | id in done && id < |before| && (if first then before[id] != level + 1 else before[id] == level)
  }

  lemma NothingStepped(before: seq<nat>, row: Row, f: StaticFilter, first: bool, level: nat)
    requires |row.toks| == |row.ids|
    ensures CandidatesUpTo(row, f, 0) == {} && Stepped(before, before, {}, first, level)
    ensures Moved(before, {}, first, level) == {}
  {
  }

  /** One more candidate: its mark changes iff it is not yet done and has to move. */
  lemma StepOne(marks: seq<nat>, before: seq<nat>, done: set<nat>, first: bool, level: nat, id: nat)
    requires Stepped(marks, before, done, first, level) && id < |marks|
    ensures var moves := if first then marks[id] != level + 1 else marks[id] == level;
      && Stepped(if moves then marks[id := level + 1] else marks, before, done + {id}, first, level)
      && |Moved(before, done + {id}, first, level)| == |Moved(before, done, first, level)| + (if moves then 1 else 0)
  {
    var moves := if first then marks[id] != level + 1 else marks[id] == level;
    var now, next := Moved(before, done, first, level), Moved(before, done + {id}, first, level);
    if moves {
      assert id !in now && next == now + {id};
    } else {
      assert next == now;
    }
  }

  /** The mark of an id after the first k rows. */
  ghost function MarkAfter(m: nat, id: nat, rows: seq<Row>, f: StaticFilter, base: nat, k: nat): nat
    requires k <= |rows| && forall r :: 0 <= r < |rows| ==> |rows[r].toks| == |rows[r].ids|
  {
    if k == 0 then m
    else
      var p := MarkAfter(m, id, rows, f, base, k - 1);
      if id in Candidates(rows[k - 1], f) then Step(p, k == 1, base + k - 1) else p
  }

  /** All marks after the first k rows. */
  ghost function MarksAt(marks0: seq<nat>, rows: seq<Row>, f: StaticFilter, base: nat, k: nat): seq<nat>
    requires k <= |rows| && forall r :: 0 <= r < |rows| ==> |rows[r].toks| == |rows[r].ids|
  {
    seq(|marks0|, id requires 0 <= id < |marks0| => MarkAfter(marks0[id], id, rows, f, base, k))
  }

  lemma NoRowsYet(marks0: seq<nat>, rows: seq<Row>, f: StaticFilter, base: nat)
    requires forall r :: 0 <= r < |rows| ==> |rows[r].toks| == |rows[r].ids|
    ensures MarksAt(marks0, rows, f, base, 0) == marks0
  {
  }

  lemma NextRowMarks(marks: seq<nat>, marks0: seq<nat>, rows: seq<Row>, f: StaticFilter, base: nat, k: nat)
    requires k < |rows| && forall r :: 0 <= r < |rows| ==> |rows[r].toks| == |rows[r].ids|
    requires Stepped(marks, MarksAt(marks0, rows, f, base, k), Candidates(rows[k], f), k == 0, base + k)
    ensures marks == MarksAt(marks0, rows, f, base, k + 1)
  {
    hide Candidates, Step;
  }

  /** The ids whose marks row k changes. */
  ghost function MovedBy(marks0: seq<nat>, rows: seq<Row>, f: StaticFilter, base: nat, k: nat): set<nat>
    requires k < |rows| && forall r :: 0 <= r < |rows| ==> |rows[r].toks| == |rows[r].ids|
  {
    Moved(MarksAt(marks0, rows, f, base, k), Candidates(rows[k], f), k == 0, base + k)
  }

  /** How many rows are read, if the first k are: up to one that moves nothing. */
  ghost function RowsRead(marks0: seq<nat>, rows: seq<Row>, f: StaticFilter, base: nat, k: nat): (n: nat)
    requires 0 < k <= |rows| && forall r :: 0 <= r < |rows| ==> |rows[r].toks| == |rows[r].ids|
    ensures k <= n <= |rows| && (n < |rows| ==> MovedBy(marks0, rows, f, base, n - 1) == {})
    decreases |rows| - k
  {
    if k == |rows| || MovedBy(marks0, rows, f, base, k - 1) == {} then k else RowsRead(marks0, rows, f, base, k + 1)
  }

  /** The answer for an id, whatever the marks were: its mark is the last level reached, or, if
      the last row read moved nothing, a level that no row reaches. */
  ghost predicate SaysCommon(id: nat, marks0: seq<nat>, rows: seq<Row>, f: StaticFilter, base: nat)
    requires id < |marks0| && rows != [] && forall r :: 0 <= r < |rows| ==> |rows[r].toks| == |rows[r].ids|
  {
    var n := RowsRead(marks0, rows, f, base, 1);
    MarkAfter(marks0[id], id, rows, f, base, n)
      == if MovedBy(marks0, rows, f, base, n - 1) == {} then base + |rows| + 1 else base + n
  }

  /** A mark that starts no higher than base has the level of row k iff the id is common to the
      first k rows, and never a higher one. */
  lemma {:induction false} CleanMark(m: nat, id: nat, rows: seq<Row>, f: StaticFilter, base: nat, k: nat)
    requires 0 < k <= |rows| && m <= base && forall r :: 0 <= r < |rows| ==> |rows[r].toks| == |rows[r].ids|
    ensures MarkAfter(m, id, rows, f, base, k) <= base + k
    ensures MarkAfter(m, id, rows, f, base, k) == base + k <==> id in CommonUpTo(rows, f, k)
  {
    hide Candidates;
    if k > 1 {
      CleanMark(m, id, rows, f, base, k - 1);
    } else {
      assert MarkAfter(m, id, rows, f, base, 0) == m;
    }
  }

  lemma {:induction false} MarkBound(m: nat, id: nat, rows: seq<Row>, f: StaticFilter, base: nat, k: nat)
    requires k <= |rows| && m <= base && forall r :: 0 <= r < |rows| ==> |rows[r].toks| == |rows[r].ids|
    ensures MarkAfter(m, id, rows, f, base, k) <= base + k
  {
    if k > 0 {
      CleanMark(m, id, rows, f, base, k);
    }
  }

  /** Ids that are candidates of a row are below n, so their marks exist. */
  lemma CandidatesBelow(row: Row, f: StaticFilter, n: nat)
    requires RowOk(row, n)
    ensures forall id :: id in Candidates(row, f) ==> id < n
  {
  }

  /** With clean marks the ids moved by row k are those common to the rows up to it. */
  lemma CleanMoved(marks0: seq<nat>, rows: seq<Row>, f: StaticFilter, base: nat, k: nat, n: nat)
    requires k < |rows| && RowsOk(rows, n) && n <= |marks0| && forall r :: 0 <= r < |rows| ==> |rows[r].toks| == |rows[r].ids|
    requires forall id :: 0 <= id < n ==> marks0[id] <= base
    ensures MovedBy(marks0, rows, f, base, k) == CommonUpTo(rows, f, k + 1)
  {
    assert RowOk(rows[k], n);
    CandidatesBelow(rows[k], f, n);
    hide Candidates, RowsOk, RowOk;
    var before := MarksAt(marks0, rows, f, base, k);
    forall id | id in Candidates(rows[k], f)
      ensures id in MovedBy(marks0, rows, f, base, k) <==> k == 0 || id in CommonUpTo(rows, f, k)
    {
      assert before[id] == MarkAfter(marks0[id], id, rows, f, base, k);
      if k > 0 {
        CleanMark(marks0[id], id, rows, f, base, k);
      }
    }
    assert MovedBy(marks0, rows, f, base, k)
        == if k == 0 then Candidates(rows[0], f) else CommonUpTo(rows, f, k) * Candidates(rows[k], f);
  }

  /** With clean marks the answers are the ids common to all rows. */
  lemma CleanAnswer(id: nat, marks0: seq<nat>, rows: seq<Row>, f: StaticFilter, base: nat, n: nat)
    requires id < n <= |marks0| && rows != [] && RowsOk(rows, n)
    requires forall r :: 0 <= r < |rows| ==> |rows[r].toks| == |rows[r].ids|
    requires forall x :: 0 <= x < n ==> marks0[x] <= base
    ensures SaysCommon(id, marks0, rows, f, base) <==> id in CommonIds(rows, f)
  {
    hide MovedBy, CommonUpTo, RowsOk;
    var k := RowsRead(marks0, rows, f, base, 1);
    CleanMoved(marks0, rows, f, base, k - 1, n);
    CleanMark(marks0[id], id, rows, f, base, k);
    CommonShrinks(rows, f, k, |rows|);
  }

  /** The answer is read off the marks after the rows. */
  lemma AnswerRead(marks: seq<nat>, marks0: seq<nat>, rows: seq<Row>, f: StaticFilter, base: nat, count: nat,
      final: nat, id: nat)
    requires rows != [] && id < |marks0| && forall r :: 0 <= r < |rows| ==> |rows[r].toks| == |rows[r].ids|
    requires var n := RowsRead(marks0, rows, f, base, 1);
      && marks == MarksAt(marks0, rows, f, base, n) && count == |MovedBy(marks0, rows, f, base, n - 1)|
      && final == if count == 0 then base + |rows| + 1 else base + n
    ensures id < |marks| && (marks[id] == final <==> SaysCommon(id, marks0, rows, f, base))
  {
    hide MarkAfter, MovedBy;
  }

  lemma MarksBound(marks0: seq<nat>, rows: seq<Row>, f: StaticFilter, base: nat, k: nat, n: nat)
    requires k <= |rows| && n <= |marks0| && forall r :: 0 <= r < |rows| ==> |rows[r].toks| == |rows[r].ids|
    requires forall id :: 0 <= id < n ==> marks0[id] <= base
    ensures |MarksAt(marks0, rows, f, base, k)| == |marks0|
    ensures forall id :: 0 <= id < n ==> MarksAt(marks0, rows, f, base, k)[id] <= base + k
  {
    hide MarkAfter;
    forall id | 0 <= id < n ensures MarksAt(marks0, rows, f, base, k)[id] <= base + k {
      MarkBound(marks0[id], id, rows, f, base, k);
    }
  }

  lemma RowLengths(rows: seq<Row>, n: nat)
    requires RowsOk(rows, n)
    ensures forall r :: 0 <= r < |rows| ==> |rows[r].toks| == |rows[r].ids|
  {
    forall r | 0 <= r < |rows| ensures |rows[r].toks| == |rows[r].ids| {
      assert RowOk(rows[r], n);
    }
  }

  /** Do the marks have to be cleared before this many rows are read? */
  predicate NearLimit(base: nat, numRows: nat) {
    base > UINT32 - 1 - numRows - 1
  }

  /** The marks from which the rows are read: new ones for a larger id space, those below numIDs
      cleared near the 32-bit limit, and otherwise what is there. */
  ghost function StartMarks(marks: seq<nat>, base: nat, numRows: nat, numIDs: nat): (start: seq<nat>)
    ensures numIDs <= |start|
  {
    if |marks| < numIDs then Zeros(numIDs)
    else if NearLimit(base, numRows) then Zeros(numIDs) + marks[numIDs..]
    else marks
  }

  ghost function Zeros(n: nat): seq<nat> {
    seq(n, _ => 0)
  }

  ghost function StartBase(marks: seq<nat>, base: nat, numRows: nat, numIDs: nat): nat {
    if |marks| < numIDs || NearLimit(base, numRows) then 0 else base
  }

  /** The result of sharedSlices: contains(id) is one array read. */
  datatype CommonSet = CommonSet(mark: array<nat>, final: nat)

  predicate HoldsID(c: CommonSet, id: nat)
    requires id < c.mark.Length
    reads c.mark
  {
    c.mark[id] == c.final
  }

  /** The set answers membership in `common` for all ids below n. */
  ghost predicate Answers(c: CommonSet, common: set<nat>, n: nat)
    reads c.mark
  {
    n <= c.mark.Length && forall id: nat :: id < n ==> (HoldsID(c, id) <==> id in common)
  }

  /** Marks shared by all clusters and cleared by advancing `base`. The array is the
      slice's backing store; the marks of ids below `clean` are known not to exceed base. */
  class CommonScratch {
    var mark: array<nat>
    var base: nat
    ghost var clean: nat

    ghost predicate Valid()
      reads this, mark
    {
      && clean <= mark.Length && base < UINT32
      && forall id :: 0 <= id < clean ==> mark[id] <= base
    }

    constructor ()
      ensures Valid() && fresh(mark) && base == 0 && mark.Length == 0
    {
      mark := new nat[0];
      base := 0;
      clean := 0;
    }

    /** The loop over the first row, whatever the marks were. */
    method MarkFirst(row: Row, f: StaticFilter, n: nat) returns (count: nat)
      requires n <= mark.Length && RowOk(row, n)
      modifies mark
      ensures Stepped(mark[..], old(mark[..]), Candidates(row, f), true, base)
      ensures count == |Moved(old(mark[..]), Candidates(row, f), true, base)|
    {
      hide CommonCandidate, CandidatesUpTo, Stepped, Moved;
      count := 0;
      NothingStepped(mark[..], row, f, true, base);
      for j := 0 to |row.toks|
        invariant Stepped(mark[..], old(mark[..]), CandidatesUpTo(row, f, j), true, base)
        invariant count == |Moved(old(mark[..]), CandidatesUpTo(row, f, j), true, base)|
      {
        CandidatesStep(row, f, j);
        if !CommonCandidate(row.toks[j], f) {
          continue;
        }
        var id := row.ids[j];
        StepOne(mark[..], old(mark[..]), CandidatesUpTo(row, f, j), true, base, id);
        if mark[id] != base + 1 {
          ghost var before: seq<nat> := mark[..];
          mark[id] := base + 1;
          assert mark[..] == before[id := base + 1];
          count := count + 1;
        }
      }
    }

    /** The loop over a later row: marks at the level before move to the next one. */
    method Advance(row: Row, f: StaticFilter, n: nat, epoch: nat) returns (hits: nat)
      requires n <= mark.Length && RowOk(row, n)
      modifies mark
      ensures Stepped(mark[..], old(mark[..]), Candidates(row, f), false, epoch)
      ensures hits == |Moved(old(mark[..]), Candidates(row, f), false, epoch)|
    {
      hide CommonCandidate, CandidatesUpTo, Stepped, Moved;
      hits := 0;
      NothingStepped(mark[..], row, f, false, epoch);
      for j := 0 to |row.toks|
        invariant Stepped(mark[..], old(mark[..]), CandidatesUpTo(row, f, j), false, epoch)
        invariant hits == |Moved(old(mark[..]), CandidatesUpTo(row, f, j), false, epoch)|
      {
        CandidatesStep(row, f, j);
        if !CommonCandidate(row.toks[j], f) {
          continue;
        }
        var id := row.ids[j];
        StepOne(mark[..], old(mark[..]), CandidatesUpTo(row, f, j), false, epoch, id);
        if mark[id] == epoch {
          ghost var before: seq<nat> := mark[..];
          mark[id] := epoch + 1;
          assert mark[..] == before[id := epoch + 1];
          hits := hits + 1;
        }
      }
    }

    /** The loops over the rows, until a row moves no mark or the rows are done. */
    method Intersect(rows: seq<Row>, f: StaticFilter, n: nat) returns (count: nat, final: nat, ghost i: nat)
      requires n <= mark.Length && RowsOk(rows, n) && rows != []
      requires forall r :: 0 <= r < |rows| ==> |rows[r].toks| == |rows[r].ids|
      modifies mark
      ensures i == RowsRead(old(mark[..]), rows, f, base, 1) && final == base + i
      ensures mark[..] == MarksAt(old(mark[..]), rows, f, base, i)
      ensures count == |MovedBy(old(mark[..]), rows, f, base, i - 1)|
    {
      hide Candidates, CommonCandidate, Stepped, Moved, MarksAt;
      ghost var marks0 := mark[..];
      assert RowOk(rows[0], n);
      NoRowsYet(marks0, rows, f, base);
      count := MarkFirst(rows[0], f, n);
      NextRowMarks(mark[..], marks0, rows, f, base, 0);
      final := base + 1;
      i := 1;
      for k := 1 to |rows|
        invariant i == k && final == base + k
        invariant RowsRead(marks0, rows, f, base, 1) == RowsRead(marks0, rows, f, base, k)
        invariant mark[..] == MarksAt(marks0, rows, f, base, k)
        invariant count == |MovedBy(marks0, rows, f, base, k - 1)|
      {
        if count == 0 {
          break;
        }
        assert RowOk(rows[k], n);
        var epoch := base + k;
        count := Advance(rows[k], f, n, epoch);
        NextRowMarks(mark[..], marks0, rows, f, base, k);
        final := epoch + 1;
        i := k + 1;
      }
    }

    /** sharedSlices, whatever the marks are: the answers are a function of the marks from which the
        rows are read. If the marks of all ids are clean - as they stay for a fixed id space -
        they are the ids common to all rows. */
    method SharedSlices(rows: seq<Row>, f: StaticFilter, numIDs: nat) returns (common: CommonSet)
      requires Valid() && RowsOk(rows, numIDs) && |rows| <= MAX_INT32
      modifies this, mark
      ensures Valid() && (mark == old(mark) || fresh(mark)) && common.mark == mark && numIDs <= mark.Length
      ensures old(mark.Length < numIDs || numIDs <= clean) ==> numIDs <= clean
      ensures forall r :: 0 <= r < |rows| ==> |rows[r].toks| == |rows[r].ids|
      ensures rows == [] ==> common.final == 0
      ensures rows != [] ==>
        var start := StartMarks(old(mark[..]), old(base), |rows|, numIDs);
        var first := StartBase(old(mark[..]), old(base), |rows|, numIDs);
        mark[..] == MarksAt(start, rows, f, first, RowsRead(start, rows, f, first, 1)) && base == first + |rows| + 1
      ensures rows != [] ==> forall id: nat :: id < numIDs ==>
        (HoldsID(common, id) <==>
           SaysCommon(id, StartMarks(old(mark[..]), old(base), |rows|, numIDs), rows, f,
             StartBase(old(mark[..]), old(base), |rows|, numIDs)))
      ensures rows != [] && old(mark.Length < numIDs || numIDs <= clean) ==> Answers(common, CommonIds(rows, f), numIDs)
    {
      hide Candidates, CommonCandidate, CommonIds, RowsOk, MovedBy, RowsRead, MarkAfter, MarksAt, SaysCommon;
      RowLengths(rows, numIDs);
      ghost var fits := mark.Length < numIDs || numIDs <= clean;
      ghost var start, first := StartMarks(mark[..], base, |rows|, numIDs), StartBase(mark[..], base, |rows|, numIDs);
      if mark.Length < numIDs {
        mark := new nat[numIDs](_ => 0);
        base := 0;
        clean := numIDs;
      }
      if |rows| == 0 {
        return CommonSet(mark, 0);
      }
      if base > UINT32 - 1 - |rows| - 1 {
        forall id | 0 <= id < numIDs {
          mark[id] := 0;
        }
        base := 0;
        clean := numIDs;
      }
      assert mark[..] == start && base == first;
      ghost var i;
      var count, final;
      count, final, i := Intersect(rows, f, numIDs);
      MarksBound(start, rows, f, base, i, clean);
      base := base + |rows| + 1;
      if count == 0 {
        final := base;
      }
      common := CommonSet(mark, final);
      forall id: nat | id < numIDs ensures HoldsID(common, id) <==> SaysCommon(id, start, rows, f, first) {
        AnswerRead(mark[..], start, rows, f, first, count, final, id);
      }
      if fits {
        forall id: nat | id < numIDs ensures HoldsID(common, id) <==> id in CommonIds(rows, f) {
          CleanAnswer(id, start, rows, f, first, numIDs);
        }
      }
    }
  }

  // ------------------------------------------------------------- stale marks

  const FIRST_ROW: Row := Row([Token(Symbolic, "-")], [0])
  const SECOND_ROW: Row := Row([Token(Symbolic, "+")], [1])

  /** A row of a single symbol. */
  ghost predicate SymbolRow(row: Row) {
    |row.toks| == |row.ids| == 1 && row.toks[0].kind == Symbolic
  }

  lemma OneRow(row: Row, f: StaticFilter)
    requires SymbolRow(row)
    ensures RowsOk([row], row.ids[0] + 1) && Candidates(row, f) == {row.ids[0]} && CommonIds([row], f) == {row.ids[0]}
  {
    assert CandidatesUpTo(row, f, 0) == {};
    CandidatesStep(row, f, 0);
  }

  /** One row: its id's mark rises to the next level, and the ids at that level are the answers. */
  lemma OneRowMarks(row: Row, f: StaticFilter, marks0: seq<nat>, base: nat)
    requires SymbolRow(row) && row.ids[0] < |marks0| && marks0[row.ids[0]] <= base
    ensures RowsRead(marks0, [row], f, base, 1) == 1
    ensures MarksAt(marks0, [row], f, base, 1) == marks0[row.ids[0] := base + 1]
    ensures forall id: nat :: id < |marks0| ==>
      (SaysCommon(id, marks0, [row], f, base) <==> id == row.ids[0] || marks0[id] == base + 1)
  {
    OneRow(row, f);
    hide Candidates, CommonIds;
    forall id: nat | id < |marks0|
      ensures MarkAfter(marks0[id], id, [row], f, base, 1) == if id == row.ids[0] then base + 1 else marks0[id]
    {
      assert MarkAfter(marks0[id], id, [row], f, base, 0) == marks0[id];
    }
    assert MarksAt(marks0, [row], f, base, 0) == marks0;
    assert row.ids[0] in MovedBy(marks0, [row], f, base, 0);
  }

  /** One call that reads one row. */
  method ReadOne(scratch: CommonScratch, row: Row, f: StaticFilter, numIDs: nat) returns (common: CommonSet)
    requires scratch.Valid() && SymbolRow(row) && row.ids[0] < numIDs
    requires numIDs <= scratch.mark.Length ==> scratch.mark[row.ids[0]] <= scratch.base
    modifies scratch, scratch.mark
    ensures scratch.Valid() && (scratch.mark == old(scratch.mark) || fresh(scratch.mark)) && common.mark == scratch.mark
    ensures var start, first := StartMarks(old(scratch.mark[..]), old(scratch.base), 1, numIDs),
        StartBase(old(scratch.mark[..]), old(scratch.base), 1, numIDs);
      && scratch.base == first + 2 && row.ids[0] < |start| && scratch.mark[..] == start[row.ids[0] := first + 1]
      && forall id: nat :: id < numIDs ==> (HoldsID(common, id) <==> id == row.ids[0] || start[id] == first + 1)
  {
    OneRow(row, f);
    assert RowsOk([row], numIDs);
    OneRowMarks(row, f, StartMarks(scratch.mark[..], scratch.base, 1, numIDs),
      StartBase(scratch.mark[..], scratch.base, 1, numIDs));
    hide SaysCommon, RowsRead, MarksAt, RowsOk, CommonIds, SymbolRow;
    common := scratch.SharedSlices([row], f, numIDs);
  }

  /** A scratch reused over many parses: id 1 is marked once, many rows are read, the reset comes in
      a parse with a single id, and the next parse with two ids takes id 1 for common. */
  method StaleAnswer(f: StaticFilter) returns (common: CommonSet)
    ensures common.mark.Length == 2 && HoldsID(common, 1) && 1 !in CommonIds([FIRST_ROW], f)
  {
    hide SymbolRow, CommonIds;
    StaleRows(f);
    var scratch := new CommonScratch();
    common := ReadOne(scratch, FIRST_ROW, f, 2);
    common := ReadOne(scratch, SECOND_ROW, f, 2);
    while scratch.base < UINT32 - 2
      invariant scratch.Valid() && fresh(scratch) && fresh(scratch.mark) && scratch.mark.Length == 2
      invariant scratch.base % 2 == 0 && 4 <= scratch.base <= UINT32 - 2
      invariant scratch.mark[1] == 3 && scratch.mark[0] <= scratch.base
      decreases UINT32 - scratch.base
    {
      common := ReadOne(scratch, FIRST_ROW, f, 2);
    }
    common := ReadOne(scratch, FIRST_ROW, f, 1);
    common := ReadOne(scratch, FIRST_ROW, f, 2);
  }

  lemma StaleRows(f: StaticFilter)
    ensures SymbolRow(FIRST_ROW) && SymbolRow(SECOND_ROW) && FIRST_ROW.ids[0] == 0 && SECOND_ROW.ids[0] == 1
    ensures 1 !in CommonIds([FIRST_ROW], f)
  {
    OneRow(FIRST_ROW, f);
  }

  // ---------------------------------------------------------------- rendering

  function Slices(row: Row): seq<Str> {
    seq(|row.toks|, j requires 0 <= j < |row.toks| => row.toks[j].slice)
  }

  function FlagsOfRow(row: Row, common: set<nat>): seq<bool> {
    seq(|row.ids|, j requires 0 <= j < |row.ids| => row.ids[j] in common)
  }

  /** The row cut into its common text and its parameters. */
  function RowCut(row: Row, common: set<nat>): Cut
    requires |row.toks| == |row.ids|
  {
    CutOf(Slices(row), FlagsOfRow(row, common))
  }

  function RowTemplate(row: Row, common: set<nat>): Str
    requires |row.toks| == |row.ids|
  {
    Join(RowCut(row, common).parts)
  }

  function RowMask(row: Row, common: set<nat>): Str
    requires |row.toks| == |row.ids|
  {
    MaskOf(Slices(row), FlagsOfRow(row, common))
  }

  lemma {:induction false} TextIsConcat(toks: seq<Token>, ids: seq<nat>)
    ensures TextOf(toks) == Concat(Slices(Row(toks, ids)))
  {
    if toks != [] {
      TextIsConcat(toks[1..], ids);
      assert Slices(Row(toks, ids))[1..] == Slices(Row(toks[1..], ids));
    }
  }

  lemma SlicesNotEmpty(row: Row)
    requires NoneEmpty(row.toks)
    ensures NoEmptyChunk(Slices(row))
  {
  }

  /** Template and mask of a row say the same: the mask fits the row's text and describes
      the cut from which the template is rendered; the parameters are non-empty, fill the
      template's literals to the text, and no two placeholders touch. */
  lemma TemplateAndMaskAgree(row: Row, common: set<nat>)
    requires |row.toks| == |row.ids| && NoneEmpty(row.toks)
    ensures var text, mask := TextOf(row.toks), RowMask(row, common);
      && |mask| == |text| && ValidMask(mask)
      && MaskCut(text, mask) == RowCut(row, common)
      && RowTemplate(row, common) == Join(MaskCut(text, mask).parts)
      && Decomposes(MaskCut(text, mask).parts, MaskCut(text, mask).args, text)
      && Separated(MaskCut(text, mask).parts)
  {
    TextIsConcat(row.toks, row.ids);
    SlicesNotEmpty(row);
    MaskDescribesRow(Slices(row), FlagsOfRow(row, common));
    CutDecomposes(Slices(row), FlagsOfRow(row, common));
  }

  lemma {:induction false} MaskUpTo(row: Row, common: set<nat>, k: nat)
    requires k <= |row.toks| == |row.ids|
    ensures MaskOf(Slices(row)[..k], FlagsOfRow(row, common)[..k]) <= RowMask(row, common)
    ensures |MaskOf(Slices(row)[..k], FlagsOfRow(row, common)[..k])| == |TextOf(row.toks[..k])|
    decreases |row.toks| - k
  {
    hide TextOf;
    if k == |row.toks| {
      assert Slices(row)[..k] == Slices(row) && FlagsOfRow(row, common)[..k] == FlagsOfRow(row, common);
      assert row.toks[..k] == row.toks;
      MaskLength(row, common, k);
    } else {
      MaskUpTo(row, common, k + 1);
      MaskStep(row, common, k);
      MaskLength(row, common, k);
    }
  }

  lemma {:induction false} MaskLength(row: Row, common: set<nat>, k: nat)
    requires k <= |row.toks| == |row.ids|
    ensures |MaskOf(Slices(row)[..k], FlagsOfRow(row, common)[..k])| == |TextOf(row.toks[..k])|
  {
    if k == 0 {
      NoMask(row, common);
    } else {
      MaskLength(row, common, k - 1);
      MaskStep(row, common, k - 1);
      assert row.toks[..k] == row.toks[..k - 1] + [row.toks[k - 1]];
      TextAppend(row.toks[..k - 1], [row.toks[k - 1]]);
      assert [row.toks[k - 1]][1..] == [];
    }
  }

  /** Over the text of token k the mask has '0' if the token's id is common, and '1' otherwise. */
  lemma MaskOverToken(row: Row, common: set<nat>, k: nat, p: nat)
    requires k < |row.toks| == |row.ids|
    requires |TextOf(row.toks[..k])| <= p < |TextOf(row.toks[..k + 1])|
    ensures p < |RowMask(row, common)| && RowMask(row, common)[p] == if row.ids[k] in common then '0' else '1'
  {
    MaskStep(row, common, k);
    MaskUpTo(row, common, k + 1);
    MaskLength(row, common, k);
  }

  /** The cut of the row's first k tokens. */
  ghost function CutUpTo(row: Row, common: set<nat>, k: nat): (c: Cut)
    requires k <= |row.toks| == |row.ids|
    ensures c.parts != []
  {
    CutOf(Slices(row)[..k], FlagsOfRow(row, common)[..k])
  }

  lemma RenderStep(row: Row, common: set<nat>, k: nat)
    requires k < |row.toks| == |row.ids|
    ensures var open := k > 0 && row.ids[k - 1] !in common;
      Join(CutUpTo(row, common, k + 1).parts) ==
        Join(CutUpTo(row, common, k).parts)
        + (if row.ids[k] in common then row.toks[k].slice else if open then [] else PLACEHOLDER)
  {
    var chunks, flags := Slices(row), FlagsOfRow(row, common);
    assert chunks[..k + 1] == chunks[..k] + [chunks[k]] && flags[..k + 1] == flags[..k] + [flags[k]];
    CutSnoc(chunks[..k], flags[..k], chunks[k], flags[k]);
    var c := CutUpTo(row, common, k);
    JoinLiteral(c.parts, chunks[k]);
    JoinOpened(c.parts);
  }

  /** The loop that renders one row. */
  method RenderRow(row: Row, c: CommonSet, ghost common: set<nat>, ghost n: nat) returns (buf: Str)
    requires RowOk(row, n) && Answers(c, common, n)
    ensures buf == RowTemplate(row, common)
  {
    hide CutUpTo, Join;
    RenderStart(row, common);
    buf := [];
    var lastPlaceholder := false;
    for j := 0 to |row.toks|
      invariant buf == Join(CutUpTo(row, common, j).parts)
      invariant lastPlaceholder <==> j > 0 && row.ids[j - 1] !in common
    {
      RenderStep(row, common, j);
      if HoldsID(c, row.ids[j]) {
        buf := buf + row.toks[j].slice;
        lastPlaceholder := false;
      } else {
        if lastPlaceholder {
          continue;
        }
        buf := buf + PLACEHOLDER;
        lastPlaceholder := true;
      }
    }
    RenderDone(row, common);
  }

  lemma RenderStart(row: Row, common: set<nat>)
    requires |row.toks| == |row.ids|
    ensures Join(CutUpTo(row, common, 0).parts) == []
  {
  }

  lemma RenderDone(row: Row, common: set<nat>)
    requires |row.toks| == |row.ids|
    ensures CutUpTo(row, common, |row.toks|) == RowCut(row, common)
  {
    assert Slices(row)[..|row.toks|] == Slices(row);
    assert FlagsOfRow(row, common)[..|row.toks|] == FlagsOfRow(row, common);
  }

  ghost function TemplateSet(rows: seq<Row>, common: set<nat>, k: nat): set<Str>
    requires k <= |rows| && forall r :: 0 <= r < |rows| ==> |rows[r].toks| == |rows[r].ids|
  {
    set r | 0 <= r < k :: RowTemplate(rows[r], common)
  }

  lemma TemplateSetStep(rows: seq<Row>, common: set<nat>, k: nat)
    requires k < |rows| && forall r :: 0 <= r < |rows| ==> |rows[r].toks| == |rows[r].ids|
    ensures TemplateSet(rows, common, k + 1) == TemplateSet(rows, common, k) + {RowTemplate(rows[k], common)}
  {
    hide RowTemplate;
    forall x | x in TemplateSet(rows, common, k) ensures x in TemplateSet(rows, common, k + 1) {
    }
    assert RowTemplate(rows[k], common) in TemplateSet(rows, common, k + 1);
  }

  /** The cluster's templates: those of its rows, each once, in string order. */
  ghost predicate ClusterTemplates(out: seq<Str>, rows: seq<Row>, common: set<nat>)
    requires forall r :: 0 <= r < |rows| ==> |rows[r].toks| == |rows[r].ids|
  {
    Ascending<Str>(LessStr(), out) && Elements(out) == TemplateSet(rows, common, |rows|)
  }

  method TemplatesForCluster(rows: seq<Row>, c: CommonSet, ghost common: set<nat>, ghost n: nat)
    returns (out: seq<Str>)
    requires RowsOk(rows, n) && Answers(c, common, n)
    ensures ClusterTemplates(out, rows, common)
  {
    hide RowTemplate;
    var distinct: set<Str> := {};
    assert TemplateSet(rows, common, 0) == {};
    for i := 0 to |rows|
      invariant distinct == TemplateSet(rows, common, i)
    {
      assert RowOk(rows[i], n);
      var buf := RenderRow(rows[i], c, common, n);
      TemplateSetStep(rows, common, i);
      distinct := distinct + {buf};
    }
    var listed := Enumerate(distinct);
    LessStrOrders(Elements(listed));
    SortByAscends<Str>(listed, LessStr());
    out := SortBy(listed, LessStr());
  }

  // --------------------------------------------------------------------- masks

  lemma MaskStep(row: Row, common: set<nat>, k: nat)
    requires k < |row.toks| == |row.ids|
    ensures var chunks, flags := Slices(row), FlagsOfRow(row, common);
      MaskOf(chunks[..k + 1], flags[..k + 1])
      == MaskOf(chunks[..k], flags[..k]) + Repeat(MaskByte(row.ids[k] in common), |row.toks[k].slice|)
  {
    var chunks, flags := Slices(row), FlagsOfRow(row, common);
    assert chunks[..k + 1][..k] == chunks[..k] && flags[..k + 1][..k] == flags[..k];
  }

  lemma {:induction false} SliceTotal(chunks: seq<Str>, flags: seq<bool>, k: nat)
    requires |chunks| == |flags| && k <= |chunks|
    ensures |MaskOf(chunks, flags)| == TotalLen(chunks)
    ensures |MaskOf(chunks[..k], flags[..k])| <= TotalLen(chunks)
    decreases |chunks|
  {
    if chunks != [] {
      var n := |chunks| - 1;
      SliceTotal(chunks[..n], flags[..n], if k < n then k else n);
      TotalLenSnoc(chunks[..n], chunks[n]);
      assert chunks == chunks[..n] + [chunks[n]];
      if k < |chunks| {
        assert chunks[..n][..k] == chunks[..k] && flags[..n][..k] == flags[..k];
      } else {
        assert chunks[..k] == chunks && flags[..k] == flags;
      }
    }
  }

  /** The loops that write one row's mask into a byte buffer. */
  method MaskRow(row: Row, c: CommonSet, ghost common: set<nat>, ghost n: nat) returns (mask: Str)
    requires RowOk(row, n) && Answers(c, common, n)
    ensures mask == RowMask(row, common)
  {
    hide MaskOf;
    var total := 0;
    for j := 0 to |row.toks|
      invariant total == TotalLen(Slices(row)[..j])
    {
      assert Slices(row)[..j + 1] == Slices(row)[..j] + [Slices(row)[j]];
      TotalLenSnoc(Slices(row)[..j], Slices(row)[j]);
      total := total + |row.toks[j].slice|;
    }
    assert Slices(row)[..|row.toks|] == Slices(row);
    var buf := new Byte[total];
    var pos := 0;
    NoMask(row, common);
    for j := 0 to |row.toks|
      invariant 0 <= pos <= buf.Length
      invariant buf[..pos] == MaskOf(Slices(row)[..j], FlagsOfRow(row, common)[..j])
    {
      var b: Byte := '1';
      if HoldsID(c, row.ids[j]) {
        b := '0';
      }
      MaskStep(row, common, j);
      SliceTotal(Slices(row), FlagsOfRow(row, common), j + 1);
      var end := pos + |row.toks[j].slice|;
      FillRange(buf, pos, end, b);
      pos := end;
    }
    SliceTotal(Slices(row), FlagsOfRow(row, common), |row.toks|);
    assert FlagsOfRow(row, common)[..|row.toks|] == FlagsOfRow(row, common);
    mask := buf[..];
  }

  lemma NoMask(row: Row, common: set<nat>)
    requires |row.toks| == |row.ids|
    ensures MaskOf(Slices(row)[..0], FlagsOfRow(row, common)[..0]) == []
  {
  }

  method FillRange(buf: array<Byte>, pos: nat, end: nat, b: Byte)
    requires pos <= end <= buf.Length
    modifies buf
    ensures buf[..end] == old(buf[..pos]) + Repeat(b, end - pos)
    ensures buf[end..] == old(buf[end..])
  {
    for k := pos to end
      invariant forall i :: 0 <= i < pos ==> buf[i] == old(buf[i])
      invariant forall i :: pos <= i < k ==> buf[i] == b
      invariant forall i :: k <= i < buf.Length ==> buf[i] == old(buf[i])
    {
      buf[k] := b;
    }
  }

  method ParameterMasks(rows: seq<Row>, c: CommonSet, ghost common: set<nat>, ghost n: nat)
    returns (masks: seq<Str>)
    requires RowsOk(rows, n) && Answers(c, common, n)
    ensures |masks| == |rows|
    ensures forall i :: 0 <= i < |rows| ==> RowOk(rows[i], n) && masks[i] == RowMask(rows[i], common)
  {
    hide RowMask;
    masks := [];
    for i := 0 to |rows|
      invariant |masks| == i
      invariant forall k :: 0 <= k < i ==> RowOk(rows[k], n) && masks[k] == RowMask(rows[k], common)
    {
      assert RowOk(rows[i], n);
      var mask := MaskRow(rows[i], c, common, n);
      masks := masks + [mask];
    }
  }
}
