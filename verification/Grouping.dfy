/** Grouping rows by anchor set (groupByAnchorTokens of parser.go), serially or by
    workers whose steps interleave in any order. */
module Grouping {
  import opened Bytes
  import opened Tokens
  import opened TokenRecord
  import opened Sorting
  import opened Anchors
  import opened AnchorKey
  import opened Sharding

  datatype Group = Group(key: Str, anchors: seq<Token>, rows: seq<nat>, indices: seq<nat>)

  // ---------------------------------------------------------- specification

  /** The anchor set of each row. */
  ghost function AnchorSets(rows: seq<Row>, record: Record, threshold: real): seq<set<Token>>
    requires RowsOk(rows, |record.occ|)
  {
    seq(|rows|, r requires 0 <= r < |rows| => assert RowOk(rows[r], |record.occ|); AnchorSpec(rows[r], record, threshold))
  }

  /** Which of the first k rows have this key, ascending. */
  ghost function RowsWith(sets: seq<set<Token>>, k: nat, key: Str): seq<nat>
    requires k <= |sets|
  {
    if k == 0 then []
    else RowsWith(sets, k - 1, key) + (if KeyOfSet(sets[k - 1]) == key then [k - 1] else [])
  }

  ghost predicate RowsBelow(rowOf: seq<nat>, n: nat) {
    forall i :: 0 <= i < |rowOf| ==> rowOf[i] < n
  }

  /** Which of the first m messages have a row with this key, ascending. */
  ghost function IndicesWith(sets: seq<set<Token>>, rowOf: seq<nat>, m: nat, key: Str): seq<nat>
    requires m <= |rowOf| && RowsBelow(rowOf, |sets|)
  {
    if m == 0 then []
    else IndicesWith(sets, rowOf, m - 1, key) + (if KeyOfSet(sets[rowOf[m - 1]]) == key then [m - 1] else [])
  }

  lemma {:induction false} RowsWithExact(sets: seq<set<Token>>, k: nat, key: Str, r: nat)
    requires k <= |sets|
    ensures r in RowsWith(sets, k, key) <==> r < k && KeyOfSet(sets[r]) == key
  {
    if k > 0 {
      RowsWithExact(sets, k - 1, key, r);
    }
  }

  lemma {:induction false} IndicesWithExact(sets: seq<set<Token>>, rowOf: seq<nat>, m: nat, key: Str, i: nat)
    requires m <= |rowOf| && RowsBelow(rowOf, |sets|)
    ensures i in IndicesWith(sets, rowOf, m, key) <==> i < m && KeyOfSet(sets[rowOf[i]]) == key
  {
    if m > 0 {
      IndicesWithExact(sets, rowOf, m - 1, key, i);
    }
  }

  /** Ascending numbers below n. */
  ghost predicate AscendBelow(r: seq<nat>, n: nat) {
    (forall i :: 0 <= i < |r| ==> r[i] < n) && forall i, j :: 0 <= i < j < |r| ==> r[i] < r[j]
  }

  lemma Appended(r: seq<nat>, n: nat)
    requires AscendBelow(r, n)
    ensures AscendBelow(r, n + 1) && AscendBelow(r + [n], n + 1)
  {
  }

  /** Rows and messages of a key are listed in ascending order. */
  lemma {:induction false} RowsAscend(sets: seq<set<Token>>, k: nat, key: Str)
    requires k <= |sets|
    ensures AscendBelow(RowsWith(sets, k, key), k)
  {
    hide KeyOfSet;
    if k > 0 {
      RowsAscend(sets, k - 1, key);
      Appended(RowsWith(sets, k - 1, key), k - 1);
    }
  }

  lemma {:induction false} IndicesAscend(sets: seq<set<Token>>, rowOf: seq<nat>, m: nat, key: Str)
    requires m <= |rowOf| && RowsBelow(rowOf, |sets|)
    ensures AscendBelow(IndicesWith(sets, rowOf, m, key), m)
  {
    hide KeyOfSet;
    if m > 0 {
      IndicesAscend(sets, rowOf, m - 1, key);
      Appended(IndicesWith(sets, rowOf, m - 1, key), m - 1);
    }
  }

  /** The group holds the first k rows and first m messages with its key, and the anchors
      of its first row. */
  ghost predicate GroupUpTo(g: Group, sets: seq<set<Token>>, k: nat, rowOf: seq<nat>, m: nat)
    requires k <= |sets| && m <= |rowOf| && RowsBelow(rowOf, |sets|)
  {
    && g.rows == RowsWith(sets, k, g.key) && g.rows != []
    && g.rows[0] < |sets| && g.anchors == OrderedOf(sets[g.rows[0]])
    && g.indices == IndicesWith(sets, rowOf, m, g.key)
  }

  ghost predicate HasKey(groups: seq<Group>, key: Str) {
    exists i :: 0 <= i < |groups| && groups[i].key == key
  }

  /** One group for each key that occurs, in ascending key order. */
  ghost predicate GroupsOk(groups: seq<Group>, sets: seq<set<Token>>, rowOf: seq<nat>)
    requires RowsBelow(rowOf, |sets|)
  {
    && (forall i :: 0 <= i < |groups| ==> GroupUpTo(groups[i], sets, |sets|, rowOf, |rowOf|))
    && (forall i, j :: 0 <= i < j < |groups| ==> Less(groups[i].key, groups[j].key))
    && (forall r :: 0 <= r < |sets| ==> HasKey(groups, KeyOfSet(sets[r])))
  }

  // ------------------------------------------------------------------ merging

  /** The merged map after k rows and m messages. */
  ghost predicate Merged(merged: map<Str, Group>, sets: seq<set<Token>>, k: nat, rowOf: seq<nat>, m: nat)
    requires k <= |sets| && m <= |rowOf| && RowsBelow(rowOf, |sets|)
  {
    && (forall key :: key in merged ==> merged[key].key == key && GroupUpTo(merged[key], sets, k, rowOf, m))
    && (forall r :: 0 <= r < k ==> KeyOfSet(sets[r]) in merged)
  }

  /** rowGroup tells each row's group, by its key. */
  ghost predicate RowGroups(rowGroup: seq<Str>, sets: seq<set<Token>>, k: nat)
    requires k <= |sets|
  {
    |rowGroup| == k && forall r :: 0 <= r < k ==> rowGroup[r] == KeyOfSet(sets[r])
  }

  function WithRow(g: Group, row: nat): Group {
    g.(rows := g.rows + [row])
  }

  lemma NewKeyHasNoRows(merged: map<Str, Group>, sets: seq<set<Token>>, k: nat, rowOf: seq<nat>, key: Str)
    requires k <= |sets| && RowsBelow(rowOf, |sets|) && Merged(merged, sets, k, rowOf, 0) && key !in merged
    ensures RowsWith(sets, k, key) == []
  {
    hide GroupUpTo;
    var found := RowsWith(sets, k, key);
    if found != [] {
      assert found[0] in found;
      RowsWithExact(sets, k, key, found[0]);
    }
  }

  /** The group the row joins, before it does. */
  ghost function GroupBefore(merged: map<Str, Group>, key: Str, ordered: seq<Token>): Group {
    if key in merged then merged[key] else Group(key, ordered, [], [])
  }

  lemma GroupGrows(merged: map<Str, Group>, sets: seq<set<Token>>, k: nat, rowOf: seq<nat>)
    requires k < |sets| && RowsBelow(rowOf, |sets|) && Merged(merged, sets, k, rowOf, 0)
    ensures var key := KeyOfSet(sets[k]);
      GroupUpTo(WithRow(GroupBefore(merged, key, OrderedOf(sets[k])), k), sets, k + 1, rowOf, 0)
  {
    hide KeyOfSet;
    var key := KeyOfSet(sets[k]);
    if key !in merged {
      NewKeyHasNoRows(merged, sets, k, rowOf, key);
    }
  }

  lemma OtherGroupStays(g: Group, sets: seq<set<Token>>, k: nat, rowOf: seq<nat>)
    requires k < |sets| && RowsBelow(rowOf, |sets|) && GroupUpTo(g, sets, k, rowOf, 0) && g.key != KeyOfSet(sets[k])
    ensures GroupUpTo(g, sets, k + 1, rowOf, 0)
  {
    hide KeyOfSet;
    assert RowsWith(sets, k + 1, g.key) == RowsWith(sets, k, g.key);
  }

  lemma MergedGrows(merged: map<Str, Group>, sets: seq<set<Token>>, k: nat, rowOf: seq<nat>)
    requires k < |sets| && RowsBelow(rowOf, |sets|) && Merged(merged, sets, k, rowOf, 0)
    ensures var key := KeyOfSet(sets[k]);
      Merged(merged[key := WithRow(GroupBefore(merged, key, OrderedOf(sets[k])), k)], sets, k + 1, rowOf, 0)
  {
    hide GroupUpTo, KeyOfSet;
    var key := KeyOfSet(sets[k]);
    GroupGrows(merged, sets, k, rowOf);
    forall other | other in merged && other != key ensures GroupUpTo(merged[other], sets, k + 1, rowOf, 0) {
      OtherGroupStays(merged[other], sets, k, rowOf);
    }
  }

  /** addRow: the row joins the group of its key, or founds it. */
  method AddRow(merged0: map<Str, Group>, rowGroup0: seq<Str>, row: nat, key: Str, ordered: seq<Token>,
      ghost sets: seq<set<Token>>, ghost rowOf: seq<nat>)
    returns (merged: map<Str, Group>, rowGroup: seq<Str>)
    requires row < |sets| && RowsBelow(rowOf, |sets|)
    requires Merged(merged0, sets, row, rowOf, 0) && RowGroups(rowGroup0, sets, row)
    requires key == KeyOfSet(sets[row]) && ordered == OrderedOf(sets[row])
    ensures Merged(merged, sets, row + 1, rowOf, 0) && RowGroups(rowGroup, sets, row + 1)
  {
    hide Merged, KeyOfSet, OrderedOf;
    MergedGrows(merged0, sets, row, rowOf);
    merged := merged0;
    if key !in merged {
      merged := merged[key := Group(key, ordered, [], [])];
    }
    var g := merged[key];
    merged := merged[key := WithRow(g, row)];
    assert merged == merged0[key := WithRow(GroupBefore(merged0, key, ordered), row)];
    rowGroup := rowGroup0 + [key];
  }

  function WithIndex(g: Group, idx: nat): Group {
    g.(indices := g.indices + [idx])
  }

  lemma IndexAdded(merged: map<Str, Group>, sets: seq<set<Token>>, rowOf: seq<nat>, m: nat)
    requires m < |rowOf| && RowsBelow(rowOf, |sets|) && Merged(merged, sets, |sets|, rowOf, m)
    ensures var key := KeyOfSet(sets[rowOf[m]]);
      key in merged && Merged(merged[key := WithIndex(merged[key], m)], sets, |sets|, rowOf, m + 1)
  {
    hide KeyOfSet, OrderedOf, RowsWith;
    var key := KeyOfSet(sets[rowOf[m]]);
    var after := merged[key := WithIndex(merged[key], m)];
    forall other | other in after ensures GroupUpTo(after[other], sets, |sets|, rowOf, m + 1) {
      assert merged[other].key == other;
    }
  }

  /** The loop over the messages, and the final sort. */
  method Finish(merged0: map<Str, Group>, rowGroup: seq<Str>, rowOf: seq<nat>, ghost sets: seq<set<Token>>)
    returns (groups: seq<Group>)
    requires RowsBelow(rowOf, |sets|)
    requires Merged(merged0, sets, |sets|, rowOf, 0) && RowGroups(rowGroup, sets, |sets|)
    ensures GroupsOk(groups, sets, rowOf)
  {
    hide Merged, KeyOfSet, GroupsOk;
    var merged := merged0;
    for idx := 0 to |rowOf|
      invariant Merged(merged, sets, |sets|, rowOf, idx)
    {
      IndexAdded(merged, sets, rowOf, idx);
      var key := rowGroup[rowOf[idx]];
      merged := merged[key := WithIndex(merged[key], idx)];
    }
    var list := ListGroups(merged, sets, rowOf);
    GroupsOrdered(merged, list);
    SortByAscends<Group>(list, LessGroup());
    groups := SortBy(list, LessGroup());
    SortedIsOk(merged, groups, sets, rowOf);
  }

  function LessGroup(): (Group, Group) -> bool {
    (a: Group, b: Group) => Less(a.key, b.key)
  }

  /** The list holds each of the map's groups once. */
  ghost predicate Lists(list: set<Group>, merged: map<Str, Group>) {
    && (forall g :: g in list ==> g.key in merged && merged[g.key] == g)
    && (forall key :: key in merged ==> merged[key] in list)
  }

  method ListGroups(merged: map<Str, Group>, ghost sets: seq<set<Token>>, ghost rowOf: seq<nat>)
    returns (list: seq<Group>)
    requires RowsBelow(rowOf, |sets|) && Merged(merged, sets, |sets|, rowOf, |rowOf|)
    ensures Distinct(list) && Lists(Elements(list), merged)
  {
    hide GroupUpTo, KeyOfSet;
    var keys := Enumerate(merged.Keys);
    list := [];
    for i := 0 to |keys|
      invariant |list| == i
      invariant forall j :: 0 <= j < i ==> keys[j] in merged && list[j] == merged[keys[j]] && list[j].key == keys[j]
    {
      assert keys[i] in Elements(keys);
      list := list + [merged[keys[i]]];
    }
    forall key | key in merged ensures merged[key] in Elements(list) {
      assert key in Elements(keys);
      var i :| 0 <= i < |keys| && keys[i] == key;
      assert list[i] == merged[key];
    }
  }

  lemma GroupsOrdered(merged: map<Str, Group>, list: seq<Group>)
    requires Lists(Elements(list), merged)
    ensures OrdersAll<Group>(LessGroup(), Elements(list))
  {
    var s := Elements(list);
    forall x: Group, y: Group | x in s && y in s
      ensures !(Less(x.key, y.key) && Less(y.key, x.key)) && (x != y ==> Less(x.key, y.key) || Less(y.key, x.key))
    {
      LessTotal(x.key, y.key);
    }
    forall x: Group, y: Group, z: Group | x in s && y in s && z in s && Less(x.key, y.key) && Less(y.key, z.key)
      ensures Less(x.key, z.key)
    {
      LessTrans(x.key, y.key, z.key);
    }
  }

  lemma SortedIsOk(merged: map<Str, Group>, groups: seq<Group>, sets: seq<set<Token>>, rowOf: seq<nat>)
    requires RowsBelow(rowOf, |sets|) && Merged(merged, sets, |sets|, rowOf, |rowOf|)
    requires Ascending<Group>(LessGroup(), groups) && Lists(Elements(groups), merged)
    ensures GroupsOk(groups, sets, rowOf)
  {
    hide GroupUpTo, KeyOfSet;
    forall i | 0 <= i < |groups| ensures GroupUpTo(groups[i], sets, |sets|, rowOf, |rowOf|) {
      assert groups[i] in Elements(groups);
    }
    forall i, j | 0 <= i < j < |groups| ensures Less(groups[i].key, groups[j].key) {
      assert LessGroup()(groups[i], groups[j]);
    }
    forall r | 0 <= r < |sets| ensures HasKey(groups, KeyOfSet(sets[r])) {
      var key := KeyOfSet(sets[r]);
      assert merged[key] in Elements(groups);
      var i :| 0 <= i < |groups| && groups[i] == merged[key];
      assert groups[i].key == key;
    }
  }

  /** The serial loop over the rows. */
  method GroupSerially(rows: seq<Row>, record: Record, threshold: real, rowOf: seq<nat>) returns (groups: seq<Group>)
    requires RowsOk(rows, |record.occ|) && RowsBelow(rowOf, |rows|) && |rows| <= MAX_INT32
    ensures GroupsOk(groups, AnchorSets(rows, record, threshold), rowOf)
  {
    hide AnchorSpec;
    ghost var sets := AnchorSets(rows, record, threshold);
    var scratch := new AnchorScratch(|record.occ|);
    var merged: map<Str, Group> := map[];
    var rowGroup: seq<Str> := [];
    for row := 0 to |rows|
      invariant scratch.Valid() && scratch.epoch == row
      invariant fresh(scratch) && fresh(scratch.nodeEpoch) && fresh(scratch.nodeKinds)
      invariant scratch.nodeEpoch.Length == |record.occ|
      invariant Merged(merged, sets, row, rowOf, 0) && RowGroups(rowGroup, sets, row)
    {
      assert RowOk(rows[row], |record.occ|);
      var anchors := scratch.AnchorTokens(rows[row], record, threshold);
      var key, ordered := CanonicalAnchorKey(anchors);
      merged, rowGroup := AddRow(merged, rowGroup, row, key, ordered, sets, rowOf);
    }
    groups := Finish(merged, rowGroup, rowOf, sets);
  }

  // ----------------------------------------------------------------- workers

  /** Items laid end to end, with the table of their offsets. */
  ghost predicate Arena<T>(flat: seq<T>, off: seq<nat>, items: seq<seq<T>>) {
    && |off| == |items| + 1 && off[|items|] == |flat|
    && (forall j :: 0 <= j <= |items| ==> off[j] <= |flat|)
    && (forall j {:trigger items[j]} :: 0 <= j < |items| ==> off[j] <= off[j + 1] && flat[off[j]..off[j + 1]] == items[j])
  }

  lemma ArenaGrows<T>(flat: seq<T>, off: seq<nat>, items: seq<seq<T>>, x: seq<T>)
    requires Arena(flat, off, items)
    ensures Arena(flat + x, off + [|flat + x|], items + [x])
  {
    var f, o, all := flat + x, off + [|flat + x|], items + [x];
    forall j | 0 <= j < |all| ensures o[j] <= o[j + 1] && f[o[j]..o[j + 1]] == all[j] {
      if j < |items| {
        assert all[j] == items[j] && off[j + 1] <= |flat|;
        assert f[o[j]..o[j + 1]] == flat[off[j]..off[j + 1]];
      } else {
        assert f[|flat|..|f|] == x;
      }
    }
  }

  ghost function KeysFrom(sets: seq<set<Token>>, lo: nat, hi: nat): seq<Str>
    requires lo <= hi <= |sets|
  {
    seq(hi - lo, j requires 0 <= j < hi - lo => KeyOfSet(sets[lo + j]))
  }

  ghost function AnchorsFrom(sets: seq<set<Token>>, lo: nat, hi: nat): seq<seq<Token>>
    requires lo <= hi <= |sets|
  {
    seq(hi - lo, j requires 0 <= j < hi - lo => OrderedOf(sets[lo + j]))
  }

  /** One goroutine: its shard of the rows, its own scratch and its result arenas. */
  class Worker {
    const lo: nat
    const hi: nat
    const scratch: AnchorScratch
    var row: nat
    var keys: Str
    var keyOff: seq<nat>
    var ancs: seq<Token>
    var ancOff: seq<nat>

    ghost function Footprint(): set<object> {
      {this, scratch, scratch.nodeEpoch, scratch.nodeKinds}
    }

    ghost predicate Valid(sets: seq<set<Token>>, numIDs: nat)
      reads Footprint()
    {
      && lo <= row <= hi <= |sets| <= MAX_INT32
      && scratch.Valid() && scratch.epoch == row - lo && scratch.nodeEpoch.Length == numIDs
      && Arena(keys, keyOff, KeysFrom(sets, lo, row))
      && Arena(ancs, ancOff, AnchorsFrom(sets, lo, row))
    }

    constructor (range: Range, ghost sets: seq<set<Token>>, numIDs: nat)
      requires range.lo <= range.hi <= |sets| <= MAX_INT32
      ensures Valid(sets, numIDs) && fresh(Footprint())
      ensures lo == range.lo && hi == range.hi && row == range.lo
    {
      lo, hi, row := range.lo, range.hi, range.lo;
      scratch := new AnchorScratch(numIDs);
      keys, keyOff := [], [0];
      ancs, ancOff := [], [0];
    }

    /** The body of the worker's loop. */
    method Step(rows: seq<Row>, record: Record, threshold: real, ghost sets: seq<set<Token>>)
      requires RowsOk(rows, |record.occ|) && sets == AnchorSets(rows, record, threshold)
      requires Valid(sets, |record.occ|) && row < hi
      modifies Footprint()
      ensures Valid(sets, |record.occ|) && row == old(row) + 1
    {
      hide AnchorSpec, Arena;
      assert RowOk(rows[row], |record.occ|);
      var anchors := scratch.AnchorTokens(rows[row], record, threshold);
      var keyBytes, ordered := CanonicalAnchorKey(anchors);
      ArenaGrows(keys, keyOff, KeysFrom(sets, lo, row), keyBytes);
      ArenaGrows(ancs, ancOff, AnchorsFrom(sets, lo, row), ordered);
      assert KeysFrom(sets, lo, row + 1) == KeysFrom(sets, lo, row) + [keyBytes];
      assert AnchorsFrom(sets, lo, row + 1) == AnchorsFrom(sets, lo, row) + [ordered];
      keys := keys + keyBytes;
      ancs := ancs + ordered;
      keyOff := keyOff + [|keys|];
      ancOff := ancOff + [|ancs|];
      row := row + 1;
    }
  }

  /** One valid worker for each of the first ranges, all inside `memory`, with nothing
      shared between two workers. */
  ghost predicate Team(team: seq<Worker>, memory: set<object>, ranges: seq<Range>, sets: seq<set<Token>>, numIDs: nat)
    reads memory
  {
    && |team| <= |ranges|
    && (forall s :: 0 <= s < |team| ==> team[s].Footprint() <= memory)
    && (forall s :: 0 <= s < |team| ==> team[s].Valid(sets, numIDs))
    && (forall s :: 0 <= s < |team| ==> team[s].lo == ranges[s].lo && team[s].hi == ranges[s].hi)
    && (forall s, t :: 0 <= s < t < |team| ==> team[s].Footprint() !! team[t].Footprint())
  }

  /** Every worker stands where `next` says. */
  ghost predicate Standing(team: seq<Worker>, next: seq<nat>)
    reads team
  {
    |next| == |team| && forall s :: 0 <= s < |team| ==> team[s].row == next[s]
  }

  lemma TeamGrows(team: seq<Worker>, memory: set<object>, worker: Worker, ranges: seq<Range>, sets: seq<set<Token>>,
      numIDs: nat)
    requires Team(team, memory, ranges, sets, numIDs) && |team| < |ranges|
    requires worker.Valid(sets, numIDs) && worker.lo == ranges[|team|].lo && worker.hi == ranges[|team|].hi
    requires worker.Footprint() !! memory
    ensures Team(team + [worker], memory + worker.Footprint(), ranges, sets, numIDs)
  {
    hide Worker.Valid, Worker.Footprint;
  }

  method Spawn(ranges: seq<Range>, ghost sets: seq<set<Token>>, numIDs: nat)
    returns (team: seq<Worker>, ghost memory: set<object>)
    requires Chained(ranges, |sets|) && |sets| <= MAX_INT32
    ensures |team| == |ranges| && Team(team, memory, ranges, sets, numIDs) && fresh(memory)
    ensures Standing(team, Starts(ranges))
  {
    hide Worker.Valid;
    team, memory := [], {};
    for s := 0 to |ranges|
      invariant |team| == s && Team(team, memory, ranges, sets, numIDs) && fresh(memory)
      invariant forall t :: 0 <= t < s ==> team[t].row == ranges[t].lo
    {
      var worker := new Worker(ranges[s], sets, numIDs);
      TeamGrows(team, memory, worker, ranges, sets, numIDs);
      team, memory := team + [worker], memory + worker.Footprint();
    }
  }

  /** One step of worker s leaves the other workers as they were. */
  method StepOf(team: seq<Worker>, ghost memory: set<object>, s: nat, rows: seq<Row>, record: Record, threshold: real,
      ghost ranges: seq<Range>, ghost sets: seq<set<Token>>, ghost next: seq<nat>)
    requires RowsOk(rows, |record.occ|) && sets == AnchorSets(rows, record, threshold)
    requires Team(team, memory, ranges, sets, |record.occ|) && Standing(team, next)
    requires s < |team| && team[s].row < team[s].hi
    modifies memory
    ensures Team(team, memory, ranges, sets, |record.occ|) && Standing(team, next[s := next[s] + 1])
  {
    team[s].Step(rows, record, threshold, sets);
    assert forall t :: 0 <= t < |team| && t != s ==> team[t].Footprint() !! team[s].Footprint();
  }

  /** All steps of all workers, in an arbitrary interleaving. */
  method RunTeam(team: seq<Worker>, ghost memory: set<object>, rows: seq<Row>, record: Record, threshold: real,
      ghost ranges: seq<Range>, ghost sets: seq<set<Token>>)
    requires RowsOk(rows, |record.occ|) && sets == AnchorSets(rows, record, threshold)
    requires Chained(ranges, |sets|) && |team| == |ranges|
    requires Team(team, memory, ranges, sets, |record.occ|) && Standing(team, Starts(ranges))
    modifies memory
    ensures Team(team, memory, ranges, sets, |record.occ|)
    ensures forall s :: 0 <= s < |team| ==> team[s].row == team[s].hi
  {
    hide RowsLeft, AnchorSets;
    ghost var next: seq<nat> := Starts(ranges);
    while exists s :: 0 <= s < |team| && team[s].row < team[s].hi
      invariant Team(team, memory, ranges, sets, |record.occ|) && Standing(team, next)
      invariant InProgress(ranges, next)
      decreases RowsLeft(ranges, next, 0)
    {
      var s :| 0 <= s < |team| && team[s].row < team[s].hi;
      StepLeavesLess(ranges, next, 0, s);
      StepOf(team, memory, s, rows, record, threshold, ranges, sets, next);
      next := next[s := next[s] + 1];
    }
  }

  /** The row range of the merge loop's next shard starts here. */
  function RowsMerged(ranges: seq<Range>, s: nat, n: nat): nat {
    if s < |ranges| then ranges[s].lo else n
  }

  /** Merging one worker's results in row order. */
  method MergeWorker(merged0: map<Str, Group>, rowGroup0: seq<Str>, worker: Worker, ghost sets: seq<set<Token>>,
      ghost rowOf: seq<nat>, ghost numIDs: nat)
    returns (merged: map<Str, Group>, rowGroup: seq<Str>)
    requires worker.Valid(sets, numIDs) && worker.row == worker.hi && RowsBelow(rowOf, |sets|)
    requires Merged(merged0, sets, worker.lo, rowOf, 0) && RowGroups(rowGroup0, sets, worker.lo)
    ensures Merged(merged, sets, worker.hi, rowOf, 0) && RowGroups(rowGroup, sets, worker.hi)
  {
    hide Merged;
    merged, rowGroup := merged0, rowGroup0;
    for row := worker.lo to worker.hi
      invariant Merged(merged, sets, row, rowOf, 0) && RowGroups(rowGroup, sets, row)
    {
      var j := row - worker.lo;
      ghost var keyItems, ancItems := KeysFrom(sets, worker.lo, worker.hi), AnchorsFrom(sets, worker.lo, worker.hi);
      assert keyItems[j] == KeyOfSet(sets[row]) && ancItems[j] == OrderedOf(sets[row]);
      var keyBytes := worker.keys[worker.keyOff[j]..worker.keyOff[j + 1]];
      var ordered := worker.ancs[worker.ancOff[j]..worker.ancOff[j + 1]];
      merged, rowGroup := AddRow(merged, rowGroup, row, keyBytes, ordered, sets, rowOf);
    }
  }

  method MergeTeam(team: seq<Worker>, ghost memory: set<object>, ghost ranges: seq<Range>,
      ghost sets: seq<set<Token>>, ghost rowOf: seq<nat>, ghost numIDs: nat)
    returns (merged: map<Str, Group>, rowGroup: seq<Str>)
    requires Chained(ranges, |sets|) && |team| == |ranges| && RowsBelow(rowOf, |sets|)
    requires Team(team, memory, ranges, sets, numIDs)
    requires forall s :: 0 <= s < |team| ==> team[s].row == team[s].hi
    ensures Merged(merged, sets, |sets|, rowOf, 0) && RowGroups(rowGroup, sets, |sets|)
  {
    hide Merged, KeyOfSet, Worker.Valid;
    merged, rowGroup := map[], [];
    NothingMerged(sets, rowOf);
    for s := 0 to |team|
      invariant Merged(merged, sets, RowsMerged(ranges, s, |sets|), rowOf, 0)
      invariant RowGroups(rowGroup, sets, RowsMerged(ranges, s, |sets|))
    {
      merged, rowGroup := MergeWorker(merged, rowGroup, team[s], sets, rowOf, numIDs);
    }
  }

  /** The parallel path: sharded workers, then a merge in row order. */
  method GroupInParallel(rows: seq<Row>, record: Record, threshold: real, rowOf: seq<nat>, workers: nat)
    returns (groups: seq<Group>)
    requires RowsOk(rows, |record.occ|) && RowsBelow(rowOf, |rows|) && |rows| <= MAX_INT32 && workers >= 1
    ensures GroupsOk(groups, AnchorSets(rows, record, threshold), rowOf)
  {
    hide Merged, GroupsOk, AnchorSpec, KeyOfSet, Worker.Valid;
    ghost var sets := AnchorSets(rows, record, threshold);
    var ranges := ShardRanges(|rows|, workers);
    var team, memory := Spawn(ranges, sets, |record.occ|);
    RunTeam(team, memory, rows, record, threshold, ranges, sets);
    var merged, rowGroup := MergeTeam(team, memory, ranges, sets, rowOf, |record.occ|);
    groups := Finish(merged, rowGroup, rowOf, sets);
  }

  lemma NothingMerged(sets: seq<set<Token>>, rowOf: seq<nat>)
    requires RowsBelow(rowOf, |sets|)
    ensures Merged(map[], sets, 0, rowOf, 0) && RowGroups([], sets, 0)
  {
  }

  /** groupByAnchorTokens: whatever the number of workers and the order of their steps,
      the groups are those of the rows' anchor sets. */
  method GroupByAnchorTokens(rows: seq<Row>, record: Record, threshold: real, rowOf: seq<nat>, workers: nat)
    returns (groups: seq<Group>)
    requires RowsOk(rows, |record.occ|) && RowsBelow(rowOf, |rows|) && |rows| <= MAX_INT32 && workers >= 1
    ensures GroupsOk(groups, AnchorSets(rows, record, threshold), rowOf)
  {
    if |rows| == 0 {
      return [];
    }
    if workers > 1 {
      groups := GroupInParallel(rows, record, threshold, rowOf, workers);
    } else {
      groups := GroupSerially(rows, record, threshold, rowOf);
    }
  }

  // -------------------------------------------------------------- consequences

  function KeysOfGroups(groups: seq<Group>): seq<Str> {
    seq(|groups|, i requires 0 <= i < |groups| => groups[i].key)
  }

  lemma GroupKeyOccurs(g: Group, sets: seq<set<Token>>, rowOf: seq<nat>)
    requires RowsBelow(rowOf, |sets|) && GroupUpTo(g, sets, |sets|, rowOf, |rowOf|)
    ensures g.rows[0] < |sets| && KeyOfSet(sets[g.rows[0]]) == g.key
  {
    assert g.rows[0] in g.rows;
    RowsWithExact(sets, |sets|, g.key, g.rows[0]);
  }

  lemma SameKeys(a: seq<Group>, b: seq<Group>, sets: seq<set<Token>>, rowOf: seq<nat>)
    requires RowsBelow(rowOf, |sets|) && GroupsOk(a, sets, rowOf) && GroupsOk(b, sets, rowOf)
    ensures Elements(KeysOfGroups(a)) <= Elements(KeysOfGroups(b))
  {
    forall key | key in Elements(KeysOfGroups(a)) ensures key in Elements(KeysOfGroups(b)) {
      var i :| 0 <= i < |a| && KeysOfGroups(a)[i] == key;
      GroupKeyOccurs(a[i], sets, rowOf);
      assert HasKey(b, KeyOfSet(sets[a[i].rows[0]]));
      var j :| 0 <= j < |b| && b[j].key == key;
      assert KeysOfGroups(b)[j] == key;
    }
  }

  /** The anchor sets and the message rows determine the groups completely: serial and
      parallel runs cannot differ. */
  lemma GroupsDetermined(a: seq<Group>, b: seq<Group>, sets: seq<set<Token>>, rowOf: seq<nat>)
    requires RowsBelow(rowOf, |sets|) && GroupsOk(a, sets, rowOf) && GroupsOk(b, sets, rowOf)
    ensures a == b
  {
    hide KeyOfSet, OrderedOf;
    SameKeys(a, b, sets, rowOf);
    SameKeys(b, a, sets, rowOf);
    var ka, kb := KeysOfGroups(a), KeysOfGroups(b);
    LessStrOrders(Elements(ka));
    AscendingUnique<Str>(ka, kb, LessStr());
    assert |ka| == |a| && |kb| == |b|;
    forall i | 0 <= i < |a| ensures a[i] == b[i] {
      assert ka[i] == kb[i];
    }
  }
}
