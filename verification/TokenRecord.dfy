/** Occurrence and co-occurrence counts of token_record.go: weighted counting over
    unique rows equals plain counting over all messages. */
module TokenRecord {
  import opened Tokens
  import opened Sorting

  const UINT32: nat := 0x1_0000_0000
  const MAX_INT32: nat := 0x7FFF_FFFF

  /** A row: its tokens and, index by index, their interned ids. */
  datatype Row = Row(toks: seq<Token>, ids: seq<nat>)

  ghost predicate RowOk(row: Row, numIDs: nat) {
    |row.ids| == |row.toks| && forall j :: 0 <= j < |row.ids| ==> row.ids[j] < numIDs
  }

  ghost predicate RowsOk(rows: seq<Row>, numIDs: nat) {
    forall r :: 0 <= r < |rows| ==> RowOk(rows[r], numIDs)
  }

  datatype Record = Record(occ: seq<nat>, co: map<nat, nat>)

  // --------------------------------------------------------------- pair ids

  /** newTokenPairID: the larger id in the high half of a 64-bit word. */
  function PairId(t1: nat, t2: nat): nat {
    if t1 < t2 then t2 * UINT32 + t1 else t1 * UINT32 + t2
  }

  /** Packing is injective on unordered pairs of 32-bit ids. */
  lemma PairIdInjective(a: nat, b: nat, c: nat, d: nat)
    requires a < UINT32 && b < UINT32 && c < UINT32 && d < UINT32
    ensures PairId(a, b) == PairId(c, d) <==> (a == c && b == d) || (a == d && b == c)
    ensures PairId(a, b) < UINT32 * UINT32
  {
    var h1, l1 := if a < b then b else a, if a < b then a else b;
    var h2, l2 := if c < d then d else c, if c < d then c else d;
    assert PairId(a, b) / UINT32 == h1 && PairId(a, b) % UINT32 == l1;
    assert PairId(c, d) / UINT32 == h2 && PairId(c, d) % UINT32 == l2;
  }

  function CoGet(co: map<nat, nat>, a: nat, b: nat): nat {
    if PairId(a, b) in co then co[PairId(a, b)] else 0
  }

  // ----------------------------------------------------------------- counts

  /** The ids of the row's tokens that pass the filter. */
  ghost function KeptIds(row: Row, f: StaticFilter): set<nat>
    requires |row.ids| == |row.toks|
  {
    set j | 0 <= j < |row.ids| && Keeps(f, row.toks[j]) :: row.ids[j]
  }

  /** The total weight of the first k rows with property p. */
  ghost function Weighted(weights: seq<nat>, k: nat, p: nat -> bool): nat
    requires k <= |weights|
  {
    if k == 0 then 0 else Weighted(weights, k - 1, p) + (if p(k - 1) then weights[k - 1] else 0)
  }

  ghost function HasId(rows: seq<Row>, f: StaticFilter, id: nat): nat -> bool {
    (r: nat) => r < |rows| && |rows[r].ids| == |rows[r].toks| && id in KeptIds(rows[r], f)
  }

  ghost function HasBoth(rows: seq<Row>, f: StaticFilter, a: nat, b: nat): nat -> bool {
    (r: nat) => HasId(rows, f, a)(r) && HasId(rows, f, b)(r)
  }

  /** The record of the first k rows holds exactly these weighted counts. */
  ghost predicate Counts(record: Record, rows: seq<Row>, weights: seq<nat>, f: StaticFilter, numIDs: nat, k: nat)
    requires k <= |weights|
  {
    && |record.occ| == numIDs
    && (forall id :: 0 <= id < numIDs ==> record.occ[id] == Weighted(weights, k, HasId(rows, f, id)))
    && (forall a: nat, b: nat :: a < numIDs && b < numIDs && a != b ==>
          CoGet(record.co, a, b) == Weighted(weights, k, HasBoth(rows, f, a, b)))
    && NoSelfPairs(record.co, numIDs)
  }

  /** No token co-occurs with itself. */
  ghost predicate NoSelfPairs(co: map<nat, nat>, numIDs: nat) {
    forall a: nat :: a < numIDs ==> CoGet(co, a, a) == 0
  }

  lemma {:induction false} WeightedMono(weights: seq<nat>, k: nat, p: nat -> bool, q: nat -> bool)
    requires k <= |weights| && forall r :: p(r) ==> q(r)
    ensures Weighted(weights, k, p) <= Weighted(weights, k, q)
  {
    if k > 0 {
      WeightedMono(weights, k - 1, p, q);
    }
  }

  function Total(weights: seq<nat>, k: nat): nat
    requires k <= |weights|
  {
    if k == 0 then 0 else Total(weights, k - 1) + weights[k - 1]
  }

  lemma {:induction false} WeightedBound(weights: seq<nat>, k: nat, p: nat -> bool)
    requires k <= |weights|
    ensures Weighted(weights, k, p) <= Total(weights, k)
  {
    if k > 0 {
      WeightedBound(weights, k - 1, p);
    }
  }

  lemma {:induction false} TotalMono(weights: seq<nat>, k: nat, m: nat)
    requires k <= m <= |weights|
    ensures Total(weights, k) <= Total(weights, m)
    decreases m
  {
    if k < m {
      TotalMono(weights, k, m - 1);
    }
  }

  /** No pair co-occurs more often than either of its tokens occurs. */
  lemma CoAtMostOcc(record: Record, rows: seq<Row>, weights: seq<nat>, f: StaticFilter, numIDs: nat, a: nat, b: nat)
    requires Counts(record, rows, weights, f, numIDs, |weights|) && a < numIDs && b < numIDs && a != b
    ensures CoGet(record.co, a, b) <= record.occ[a] && CoGet(record.co, a, b) <= record.occ[b]
    ensures record.occ[a] <= Total(weights, |weights|)
  {
    WeightedMono(weights, |weights|, HasBoth(rows, f, a, b), HasId(rows, f, a));
    WeightedMono(weights, |weights|, HasBoth(rows, f, a, b), HasId(rows, f, b));
    WeightedBound(weights, |weights|, HasId(rows, f, a));
  }

  // ---------------------------------------------------------------- counting

  /** Adds w to the pairs of x with each of `rest`. */
  ghost predicate PairWith(x: nat, rest: seq<nat>, a: nat, b: nat) {
    (a == x && b in rest) || (b == x && a in rest)
  }

  method AddPairsWith(co0: map<nat, nat>, ids: seq<nat>, i: nat, w: nat, numIDs: nat) returns (co: map<nat, nat>)
    requires i < |ids| && Distinct(ids) && numIDs <= UINT32
    requires forall j :: 0 <= j < |ids| ==> ids[j] < numIDs
    requires forall j :: i < j < |ids| ==> CoGet(co0, ids[i], ids[j]) + w < UINT32
    ensures forall a: nat, b: nat :: a < numIDs && b < numIDs ==>
      CoGet(co, a, b) == CoGet(co0, a, b) + (if PairWith(ids[i], ids[i + 1..], a, b) then w else 0)
  {
    co := co0;
    ghost var done: seq<nat> := [];
    for j := i + 1 to |ids|
      invariant done == ids[i + 1..j]
      invariant forall a: nat, b: nat :: a < numIDs && b < numIDs ==>
        CoGet(co, a, b) == CoGet(co0, a, b) + (if PairWith(ids[i], done, a, b) then w else 0)
    {
      var x, y := ids[i], ids[j];
      var key := PairId(x, y);
      assert y !in done;
      assert ids[i + 1..j + 1] == done + [y];
      assert CoGet(co, x, y) == CoGet(co0, x, y);
      var old_ := if key in co then co[key] else 0;
      ghost var before := co;
      co := co[key := (old_ + w) % UINT32];
      forall a: nat, b: nat | a < numIDs && b < numIDs
        ensures CoGet(co, a, b) == CoGet(co0, a, b) + (if PairWith(x, done + [y], a, b) then w else 0)
      {
        PairIdInjective(x, y, a, b);
        assert CoGet(before, a, b) == CoGet(co0, a, b) + (if PairWith(x, done, a, b) then w else 0);
      }
      done := done + [y];
    }
    assert ids[i + 1..|ids|] == ids[i + 1..];
  }

  ghost predicate BothIn(ids: seq<nat>, a: nat, b: nat) {
    a in ids && b in ids
  }

  /** The pair has a member among the first i ids. */
  ghost predicate PairFrom(ids: seq<nat>, i: nat, a: nat, b: nat)
    requires i <= |ids|
  {
    BothIn(ids, a, b) && (a in ids[..i] || b in ids[..i])
  }

  lemma PairFromStep(ids: seq<nat>, i: nat, a: nat, b: nat)
    requires i < |ids| && Distinct(ids) && a != b
    ensures PairFrom(ids, i + 1, a, b) <==> PairFrom(ids, i, a, b) || PairWith(ids[i], ids[i + 1..], a, b)
    ensures !(PairFrom(ids, i, a, b) && PairWith(ids[i], ids[i + 1..], a, b))
  {
    assert ids == ids[..i] + [ids[i]] + ids[i + 1..];
    assert ids[..i + 1] == ids[..i] + [ids[i]];
    assert forall x :: x in ids <==> x in ids[..i] || x == ids[i] || x in ids[i + 1..];
    assert forall x :: x in ids[..i] ==> x !in ids[i + 1..] && x != ids[i];
  }

  lemma NoSelfPair(ids: seq<nat>, i: nat, a: nat)
    requires i < |ids| && Distinct(ids)
    ensures !PairWith(ids[i], ids[i + 1..], a, a)
  {
  }

  /** The two nested loops over the ids of a row: every unordered pair gets w once. */
  method AddPairs(co0: map<nat, nat>, ids: seq<nat>, w: nat, numIDs: nat) returns (co: map<nat, nat>)
    requires Distinct(ids) && numIDs <= UINT32
    requires forall j :: 0 <= j < |ids| ==> ids[j] < numIDs
    requires forall a: nat, b: nat :: a < numIDs && b < numIDs && a != b ==> CoGet(co0, a, b) + w < UINT32
    requires NoSelfPairs(co0, numIDs)
    ensures NoSelfPairs(co, numIDs)
    ensures forall a: nat, b: nat :: a < numIDs && b < numIDs && a != b ==>
      CoGet(co, a, b) == CoGet(co0, a, b) + (if BothIn(ids, a, b) then w else 0)
  {
    hide CoGet;
    co := co0;
    for i := 0 to |ids|
      invariant NoSelfPairs(co, numIDs)
      invariant forall a: nat, b: nat :: a < numIDs && b < numIDs && a != b ==>
        CoGet(co, a, b) == CoGet(co0, a, b) + (if PairFrom(ids, i, a, b) then w else 0)
    {
      forall j | i < j < |ids| ensures CoGet(co, ids[i], ids[j]) + w < UINT32 {
        PairFromStep(ids, i, ids[i], ids[j]);
        assert ids[i + 1..][j - i - 1] == ids[j];
        assert PairWith(ids[i], ids[i + 1..], ids[i], ids[j]);
      }
      ghost var before := co;
      co := AddPairsWith(co, ids, i, w, numIDs);
      forall a: nat | a < numIDs ensures CoGet(co, a, a) == 0 {
        NoSelfPair(ids, i, a);
        assert CoGet(before, a, a) == 0;
      }
      forall a: nat, b: nat | a < numIDs && b < numIDs && a != b
        ensures CoGet(co, a, b) == CoGet(co0, a, b) + (if PairFrom(ids, i + 1, a, b) then w else 0)
      {
        PairFromStep(ids, i, a, b);
        assert CoGet(before, a, b) == CoGet(co0, a, b) + (if PairFrom(ids, i, a, b) then w else 0);
      }
    }
    forall a: nat, b: nat | a < numIDs && b < numIDs && a != b
      ensures PairFrom(ids, |ids|, a, b) == BothIn(ids, a, b)
    {
      assert ids[..|ids|] == ids;
    }
  }

  /** The kept ids among the first j tokens of the row. */
  ghost function KeptUpTo(row: Row, f: StaticFilter, j: nat): set<nat>
    requires j <= |row.ids| == |row.toks|
  {
    set i | 0 <= i < j && Keeps(f, row.toks[i]) :: row.ids[i]
  }

  lemma KeptStep(row: Row, f: StaticFilter, j: nat)
    requires j < |row.ids| == |row.toks|
    ensures KeptUpTo(row, f, j + 1) == KeptUpTo(row, f, j) + (if Keeps(f, row.toks[j]) then {row.ids[j]} else {})
  {
    if Keeps(f, row.toks[j]) {
      assert row.ids[j] in KeptUpTo(row, f, j + 1);
    }
    forall x | x in KeptUpTo(row, f, j) ensures x in KeptUpTo(row, f, j + 1) {
    }
  }

  /** The loop over the tokens of one row: each kept id is counted once. */
  method CountRow(row: Row, f: StaticFilter, w: nat, seenEpoch: array<nat>, epoch: nat, occ0: seq<nat>)
    returns (ids: seq<nat>, occ: seq<nat>)
    requires RowOk(row, seenEpoch.Length) && |occ0| == seenEpoch.Length
    requires forall i :: 0 <= i < seenEpoch.Length ==> seenEpoch[i] < epoch
    requires forall i :: 0 <= i < |occ0| ==> occ0[i] + w < UINT32
    modifies seenEpoch
    ensures forall i :: 0 <= i < seenEpoch.Length ==> seenEpoch[i] <= epoch
    ensures Distinct(ids) && Elements(ids) == KeptIds(row, f)
    ensures |occ| == |occ0|
    ensures forall id :: 0 <= id < |occ| ==> occ[id] == occ0[id] + (if id in KeptIds(row, f) then w else 0)
  {
    ids := [];
    occ := occ0;
    for j := 0 to |row.toks|
      invariant forall i :: 0 <= i < seenEpoch.Length ==> seenEpoch[i] <= epoch
      invariant forall i: nat :: i < seenEpoch.Length ==> (seenEpoch[i] == epoch <==> i in Elements(ids))
      invariant Distinct(ids) && Elements(ids) == KeptUpTo(row, f, j)
      invariant |occ| == |occ0|
      invariant forall id: nat :: id < |occ| ==> occ[id] == occ0[id] + (if id in Elements(ids) then w else 0)
    {
      KeptStep(row, f, j);
      if !Keeps(f, row.toks[j]) {
        continue;
      }
      var id := row.ids[j];
      if seenEpoch[id] == epoch {
        continue;
      }
      seenEpoch[id] := epoch;
      assert id !in Elements(ids);
      assert Elements(ids + [id]) == Elements(ids) + {id};
      ids := ids + [id];
      occ := occ[id := (occ[id] + w) % UINT32];
    }
    assert KeptUpTo(row, f, |row.toks|) == KeptIds(row, f);
  }

  function Ones(n: nat): seq<nat> {
    seq(n, _ => 1)
  }

  /** newTokenRecord; a nil counts slice stands for weight 1, that is Ones. The sum of the
      weights is the number of messages, which is at most MaxInt32, so the 32-bit additions
      never wrap. */
  method NewTokenRecord(rows: seq<Row>, counts: seq<nat>, numIDs: nat, f: StaticFilter) returns (record: Record)
    requires RowsOk(rows, numIDs) && numIDs <= UINT32 && |counts| == |rows|
    requires Total(counts, |counts|) <= MAX_INT32
    ensures Counts(record, rows, counts, f, numIDs, |counts|)
  {
    hide CoGet, KeptIds;
    record := Record(seq(numIDs, _ => 0), map[]);
    NoCounts(rows, counts, f, numIDs);
    var seenEpoch := new nat[numIDs](_ => 0);
    for idx := 0 to |rows|
      invariant Counts(record, rows, counts, f, numIDs, idx)
      invariant forall i :: 0 <= i < seenEpoch.Length ==> seenEpoch[i] <= idx
    {
      var w := counts[idx];
      var epoch := idx + 1;
      RoomForRow(record, rows, counts, f, numIDs, idx);
      var ids, occ := CountRow(rows[idx], f, w, seenEpoch, epoch, record.occ);
      IdsBelow(rows[idx], f, ids, numIDs);
      var co := AddPairs(record.co, ids, w, numIDs);
      CountsStep(record, Record(occ, co), rows, counts, f, numIDs, idx, ids);
      record := Record(occ, co);
    }
  }

  lemma NoCounts(rows: seq<Row>, counts: seq<nat>, f: StaticFilter, numIDs: nat)
    ensures Counts(Record(seq(numIDs, _ => 0), map[]), rows, counts, f, numIDs, 0)
  {
  }

  lemma RoomForRow(record: Record, rows: seq<Row>, counts: seq<nat>, f: StaticFilter, numIDs: nat, idx: nat)
    requires idx < |counts| && Counts(record, rows, counts, f, numIDs, idx)
    requires Total(counts, |counts|) <= MAX_INT32
    ensures |record.occ| == numIDs
    ensures forall i :: 0 <= i < |record.occ| ==> record.occ[i] + counts[idx] < UINT32
    ensures forall a: nat, b: nat :: a < numIDs && b < numIDs && a != b ==>
      CoGet(record.co, a, b) + counts[idx] < UINT32
  {
    TotalMono(counts, idx + 1, |counts|);
    forall i: nat | i < numIDs ensures record.occ[i] + counts[idx] < UINT32 {
      WeightedBound(counts, idx, HasId(rows, f, i));
    }
    forall a: nat, b: nat | a < numIDs && b < numIDs && a != b ensures CoGet(record.co, a, b) + counts[idx] < UINT32 {
      WeightedBound(counts, idx, HasBoth(rows, f, a, b));
    }
  }

  lemma IdsBelow(row: Row, f: StaticFilter, ids: seq<nat>, numIDs: nat)
    requires RowOk(row, numIDs) && Elements(ids) == KeptIds(row, f)
    ensures forall j :: 0 <= j < |ids| ==> ids[j] < numIDs
  {
    forall j | 0 <= j < |ids| ensures ids[j] < numIDs {
      assert ids[j] in Elements(ids);
    }
  }

  lemma CountsStep(before: Record, after: Record, rows: seq<Row>, counts: seq<nat>, f: StaticFilter, numIDs: nat,
      idx: nat, ids: seq<nat>)
    requires idx < |counts| == |rows| && RowsOk(rows, numIDs) && Counts(before, rows, counts, f, numIDs, idx)
    requires Elements(ids) == KeptIds(rows[idx], f)
    requires |after.occ| == |before.occ|
    requires forall id :: 0 <= id < |after.occ| ==>
      after.occ[id] == before.occ[id] + (if id in KeptIds(rows[idx], f) then counts[idx] else 0)
    requires forall a: nat, b: nat :: a < numIDs && b < numIDs && a != b ==>
      CoGet(after.co, a, b) == CoGet(before.co, a, b) + (if BothIn(ids, a, b) then counts[idx] else 0)
    requires NoSelfPairs(after.co, numIDs)
    ensures Counts(after, rows, counts, f, numIDs, idx + 1)
  {
    hide CoGet, KeptIds;
    assert RowOk(rows[idx], numIDs);
    forall a: nat, b: nat | a < numIDs && b < numIDs && a != b
      ensures CoGet(after.co, a, b) == Weighted(counts, idx + 1, HasBoth(rows, f, a, b))
    {
      assert BothIn(ids, a, b) <==> a in Elements(ids) && b in Elements(ids);
    }
  }

  // ------------------------------------------------------------ deduplication

  /** How many messages have unique row u. */
  function Multiplicity(rowOf: seq<nat>, k: nat, u: nat): nat
    requires k <= |rowOf|
  {
    if k == 0 then 0 else Multiplicity(rowOf, k - 1, u) + (if rowOf[k - 1] == u then 1 else 0)
  }

  ghost predicate CountsMultiplicities(counts: seq<nat>, rowOf: seq<nat>) {
    && (forall i :: 0 <= i < |rowOf| ==> rowOf[i] < |counts|)
    && (forall u :: 0 <= u < |counts| ==> counts[u] == Multiplicity(rowOf, |rowOf|, u))
  }

  function Multiplicities(rowOf: seq<nat>, k: nat, n: nat): seq<nat>
    requires k <= |rowOf|
  {
    seq(n, u requires 0 <= u => Multiplicity(rowOf, k, u))
  }

  /** The number of the first k messages whose row has property p. */
  ghost function Tally(rowOf: seq<nat>, k: nat, p: nat -> bool): nat
    requires k <= |rowOf|
  {
    if k == 0 then 0 else Tally(rowOf, k - 1, p) + (if p(rowOf[k - 1]) then 1 else 0)
  }

  lemma {:induction false} WeightedBump(a: seq<nat>, b: seq<nat>, m: nat, u: nat, p: nat -> bool)
    requires m <= |a| == |b| && u < |a|
    requires forall i :: 0 <= i < |a| ==> b[i] == a[i] + (if i == u then 1 else 0)
    ensures Weighted(b, m, p) == Weighted(a, m, p) + (if u < m && p(u) then 1 else 0)
  {
    if m > 0 {
      WeightedBump(a, b, m - 1, u, p);
    }
  }

  lemma {:induction false} WeightedZero(a: seq<nat>, m: nat, p: nat -> bool)
    requires m <= |a| && forall i :: 0 <= i < |a| ==> a[i] == 0
    ensures Weighted(a, m, p) == 0
  {
    if m > 0 {
      WeightedZero(a, m - 1, p);
    }
  }

  /** Weighting unique rows by multiplicity counts messages. */
  lemma {:induction false} WeightedIsTally(rowOf: seq<nat>, k: nat, n: nat, p: nat -> bool)
    requires k <= |rowOf| && forall i :: 0 <= i < |rowOf| ==> rowOf[i] < n
    ensures Weighted(Multiplicities(rowOf, k, n), n, p) == Tally(rowOf, k, p)
  {
    if k == 0 {
      WeightedZero(Multiplicities(rowOf, 0, n), n, p);
    } else {
      WeightedIsTally(rowOf, k - 1, n, p);
      WeightedBump(Multiplicities(rowOf, k - 1, n), Multiplicities(rowOf, k, n), n, rowOf[k - 1], p);
    }
  }

  /** The rows of all messages, duplicates included. */
  function Expanded(rows: seq<Row>, rowOf: seq<nat>): seq<Row>
    requires forall i :: 0 <= i < |rowOf| ==> rowOf[i] < |rows|
  {
    seq(|rowOf|, i requires 0 <= i < |rowOf| => rows[rowOf[i]])
  }

  lemma {:induction false} TallyIsWeighted(rowOf: seq<nat>, k: nat, p: nat -> bool, q: nat -> bool)
    requires k <= |rowOf| && forall i: nat :: i < |rowOf| ==> (q(i) <==> p(rowOf[i]))
    ensures Tally(rowOf, k, p) == Weighted(Ones(|rowOf|), k, q)
  {
    if k > 0 {
      TallyIsWeighted(rowOf, k - 1, p, q);
    }
  }

  lemma DedupWeighted(rows: seq<Row>, counts: seq<nat>, rowOf: seq<nat>, p: nat -> bool, q: nat -> bool)
    requires |counts| == |rows| && CountsMultiplicities(counts, rowOf)
    requires forall i: nat :: i < |rowOf| ==> (q(i) <==> p(rowOf[i]))
    ensures Weighted(counts, |counts|, p) == Weighted(Ones(|rowOf|), |rowOf|, q)
  {
    assert counts == Multiplicities(rowOf, |rowOf|, |counts|);
    WeightedIsTally(rowOf, |rowOf|, |counts|, p);
    TallyIsWeighted(rowOf, |rowOf|, p, q);
  }

  /** Counting unique rows with multiplicities gives the record of all messages
      counted one by one. */
  lemma DedupIsExact(record: Record, rows: seq<Row>, counts: seq<nat>, rowOf: seq<nat>, f: StaticFilter, numIDs: nat)
    requires |counts| == |rows| && CountsMultiplicities(counts, rowOf)
    ensures Counts(record, rows, counts, f, numIDs, |counts|)
       <==> Counts(record, Expanded(rows, rowOf), Ones(|rowOf|), f, numIDs, |rowOf|)
  {
    var all := Expanded(rows, rowOf);
    hide CoGet, KeptIds;
    forall id: nat | id < numIDs
      ensures Weighted(counts, |counts|, HasId(rows, f, id)) == Weighted(Ones(|rowOf|), |rowOf|, HasId(all, f, id))
    {
      DedupWeighted(rows, counts, rowOf, HasId(rows, f, id), HasId(all, f, id));
    }
    forall a: nat, b: nat | a < numIDs && b < numIDs && a != b
      ensures Weighted(counts, |counts|, HasBoth(rows, f, a, b)) == Weighted(Ones(|rowOf|), |rowOf|, HasBoth(all, f, a, b))
    {
      DedupWeighted(rows, counts, rowOf, HasBoth(rows, f, a, b), HasBoth(all, f, a, b));
    }
  }
}
