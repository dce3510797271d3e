/** The runtime matcher of matcher.go: table, ranks and indexes built once, then
    string-to-template matching through the indexes. */
module Matcher {
  import opened Bytes
  import opened Placeholder
  import opened GreedyMatch
  import opened Sorting
  import opened AhoTrie
  import opened AhoCorasick
  import opened MatcherSpec

  // -------------------------------------------------------- template table

  ghost function NormalForm(raw: Str): Str {
    Join(Squeezed(Split(raw)))
  }

  /** The distinct normal forms of raws[..k], in order of first appearance. */
  ghost function KeptUpTo(raws: seq<Str>, k: nat): seq<Str>
    requires k <= |raws|
  {
    if k == 0 then []
    else
      var kept := KeptUpTo(raws, k - 1);
      var t := NormalForm(raws[k - 1]);
      if t in kept then kept else kept + [t]
  }

  ghost function Kept(raws: seq<Str>): seq<Str> {
    KeptUpTo(raws, |raws|)
  }

  /** Every template of the input is represented by its normal form. */
  lemma {:induction false} KeptHasAll(raws: seq<Str>, k: nat, i: nat)
    requires i < k <= |raws|
    ensures NormalForm(raws[i]) in KeptUpTo(raws, k)
  {
    hide NormalForm;
    if i < k - 1 {
      KeptHasAll(raws, k - 1, i);
    }
  }

  lemma {:induction false} KeptPrefix(raws: seq<Str>, i: nat, j: nat)
    requires i <= j <= |raws|
    ensures KeptUpTo(raws, i) <= KeptUpTo(raws, j)
    ensures |KeptUpTo(raws, i)| <= i
    decreases j
  {
    hide NormalForm;
    if i < j {
      KeptPrefix(raws, i, j - 1);
    } else if i > 0 {
      KeptPrefix(raws, i - 1, i - 1);
    }
  }

  lemma {:induction false} KeptFrom(raws: seq<Str>, k: nat, t: Str)
    requires k <= |raws| && t in KeptUpTo(raws, k)
    ensures exists i :: 0 <= i < k && t == NormalForm(raws[i])
  {
    hide NormalForm;
    if t in KeptUpTo(raws, k - 1) {
      KeptFrom(raws, k - 1, t);
    }
  }

  /** The normal form of raws[i] is new. */
  ghost predicate NewForm(raws: seq<Str>, i: nat)
    requires i < |raws|
  {
    forall h :: 0 <= h < i ==> NormalForm(raws[h]) != NormalForm(raws[i])
  }

  /** A new normal form gets the next id; ids follow the order of first appearance. */
  lemma KeptInOrder(raws: seq<Str>, i: nat, j: nat)
    requires i < j < |raws| && NewForm(raws, i) && NewForm(raws, j)
    ensures var p, q := |KeptUpTo(raws, i)|, |KeptUpTo(raws, j)|;
      p < q < |Kept(raws)| && Kept(raws)[p] == NormalForm(raws[i]) && Kept(raws)[q] == NormalForm(raws[j])
  {
    hide NormalForm;
    forall k: nat | k == i || k == j ensures KeptUpTo(raws, k + 1) == KeptUpTo(raws, k) + [NormalForm(raws[k])] {
      if NormalForm(raws[k]) in KeptUpTo(raws, k) {
        KeptFrom(raws, k, NormalForm(raws[k]));
      }
    }
    KeptPrefix(raws, i + 1, j);
    KeptPrefix(raws, i + 1, |raws|);
    KeptPrefix(raws, j + 1, |raws|);
  }

  ghost predicate TableOf(entries: seq<Compiled>, kept: seq<Str>) {
    |entries| == |kept| && forall i :: 0 <= i < |kept| ==> entries[i] == CompiledFor(i, kept[i])
  }

  lemma NoTable()
    ensures TableOf([], []) && Table([])
  {
  }

  lemma TableGrows(entries: seq<Compiled>, kept: seq<Str>, tmpl: Str)
    requires TableOf(entries, kept) && Table(entries) && Normalized(tmpl) && tmpl !in kept
    ensures TableOf(entries + [CompiledFor(|kept|, tmpl)], kept + [tmpl])
    ensures Table(entries + [CompiledFor(|kept|, tmpl)])
  {
    assert forall i :: 0 <= i < |kept| ==> entries[i].template == kept[i] && kept[i] in kept;
  }

  method BuildTable(raws: seq<Str>) returns (entries: seq<Compiled>, kept: seq<Str>)
    ensures kept == Kept(raws) && TableOf(entries, kept) && Table(entries)
  {
    hide Table, TableOf, CompiledFor, Normalized;
    NoTable();
    entries, kept := [], [];
    var seen: map<Str, nat> := map[];
    for k := 0 to |raws|
      invariant kept == KeptUpTo(raws, k) && TableOf(entries, kept) && Table(entries)
      invariant forall s :: s in seen <==> s in kept
    {
      var tmpl := NormalizeTemplate(raws[k]);
      JoinSplit(tmpl);
      if tmpl in seen {
        continue;
      }
      TableGrows(entries, kept, tmpl);
      var id := |kept|;
      kept := kept + [tmpl];
      seen := seen[tmpl := id];
      var c := CompileTemplate(id, tmpl);
      entries := entries + [c];
    }
  }

  // ---------------------------------------------------------------- ranking

  function BetterIds(entries: seq<Compiled>): (nat, nat) -> bool {
    (i: nat, j: nat) => i < |entries| && j < |entries| && Better(entries[i], entries[j])
  }

  lemma BetterOrders(entries: seq<Compiled>, s: set<nat>)
    requires Table(entries) && forall i :: i in s ==> i < |entries|
    ensures OrdersAll<nat>(BetterIds(entries), s)
  {
    assert forall i :: i in s ==> entries[i] == CompiledFor(i, entries[i].template);
    assert forall i :: i in s ==> entries[i].id == i;
    hide Table, CompiledFor, Better;
    forall i, j | i in s && j in s
      ensures !(Better(entries[i], entries[j]) && Better(entries[j], entries[i]))
      ensures i != j ==> Better(entries[i], entries[j]) || Better(entries[j], entries[i])
    {
      BetterTotal(entries[i], entries[j]);
    }
    forall i, j, k | i in s && j in s && k in s && Better(entries[i], entries[j]) && Better(entries[j], entries[k])
      ensures Better(entries[i], entries[k])
    {
      BetterTrans(entries[i], entries[j], entries[k]);
    }
  }

  lemma BetterTotal(a: Compiled, b: Compiled)
    ensures !(Better(a, b) && Better(b, a)) && (a.id != b.id ==> Better(a, b) || Better(b, a))
  {
  }

  lemma BetterTrans(a: Compiled, b: Compiled, c: Compiled)
    requires Better(a, b) && Better(b, c)
    ensures Better(a, c)
  {
  }

  /** sort.SliceStable over the ids, and the rank of each id in the result. */
  method RankTemplates(entries: seq<Compiled>) returns (rankByID: seq<nat>)
    requires Table(entries)
    ensures Ranks(entries, rankByID)
    ensures |rankByID| == |entries|
    ensures forall i, j :: 0 <= i < |entries| && 0 <= j < |entries| ==>
      var p, q := Split(entries[i].template), Split(entries[j].template);
      (rankByID[i] < rankByID[j] <==>
         (TotalLen(p) > TotalLen(q)
          || (TotalLen(p) == TotalLen(q) && |p| < |q|)
          || (TotalLen(p) == TotalLen(q) && |p| == |q| && i < j)))
  {
    hide Table, Ranks, Ascending, BetterIds, SortBy, OrdersAll, Split, TotalLen;
    var n := |entries|;
    var order: seq<nat> := [];
    for i := 0 to n
      invariant |order| == i && forall k :: 0 <= k < i ==> order[k] == k
    {
      order := order + [i];
    }
    var less := BetterIds(entries);
    var sorted := SortBy(order, less);
    BetterOrders(entries, Elements(order));
    SortByAscends<nat>(order, less);
    SortedIsPermutation(entries, order, sorted);
    rankByID := seq(n, _ => 0);
    for rank := 0 to n
      invariant |rankByID| == n
      invariant forall r :: 0 <= r < rank ==> rankByID[sorted[r]] == r
    {
      rankByID := rankByID[sorted[rank] := rank];
    }
    RanksFromOrder(entries, sorted, rankByID);
    RanksOnTexts(entries, rankByID);
  }

  /** Ranks say, on the texts: more literal bytes first, then fewer placeholders, then the earlier one. */
  lemma RanksOnTexts(entries: seq<Compiled>, rank: seq<nat>)
    requires Table(entries) && Ranks(entries, rank)
    ensures forall i, j :: 0 <= i < |entries| && 0 <= j < |entries| ==>
      var p, q := Split(entries[i].template), Split(entries[j].template);
      (rank[i] < rank[j] <==>
         (TotalLen(p) > TotalLen(q)
          || (TotalLen(p) == TotalLen(q) && |p| < |q|)
          || (TotalLen(p) == TotalLen(q) && |p| == |q| && i < j)))
  {
    hide Table, Split, TotalLen, Better;
    forall i: nat, j: nat | i < |entries| && j < |entries|
      ensures var p, q := Split(entries[i].template), Split(entries[j].template);
        rank[i] < rank[j] <==>
        (TotalLen(p) > TotalLen(q)
         || (TotalLen(p) == TotalLen(q) && |p| < |q|)
         || (TotalLen(p) == TotalLen(q) && |p| == |q| && i < j))
    {
      BetterOnTexts(entries, i, j);
    }
  }

  lemma SortedIsPermutation(entries: seq<Compiled>, order: seq<nat>, sorted: seq<nat>)
    requires Table(entries) && |order| == |entries| == |sorted|
    requires forall k :: 0 <= k < |order| ==> order[k] == k
    requires Elements(sorted) == Elements(order) && Ascending(BetterIds(entries), sorted)
    ensures forall r :: 0 <= r < |sorted| ==> sorted[r] < |entries|
    ensures forall q, r :: 0 <= q < r < |sorted| ==> sorted[q] != sorted[r]
    ensures forall i: nat :: i < |entries| ==> i in sorted
  {
    forall r | 0 <= r < |sorted| ensures sorted[r] < |entries| {
      assert sorted[r] in Elements(order);
    }
    BetterOrders(entries, Elements(sorted));
    AscendingDistinct<nat>(sorted, BetterIds(entries));
    forall i: nat | i < |entries| ensures i in sorted {
      assert order[i] in Elements(sorted);
    }
  }

  lemma RanksFromOrder(entries: seq<Compiled>, sorted: seq<nat>, rank: seq<nat>)
    requires Table(entries) && |rank| == |entries| == |sorted|
    requires forall r :: 0 <= r < |sorted| ==> sorted[r] < |entries| && rank[sorted[r]] == r
    requires forall i: nat :: i < |entries| ==> i in sorted
    requires Ascending(BetterIds(entries), sorted)
    ensures Ranks(entries, rank)
  {
    forall i: nat | i < |rank| ensures rank[i] < |rank| && sorted[rank[i]] == i {
      assert i in sorted;
      var r :| 0 <= r < |sorted| && sorted[r] == i;
    }
    forall i, j | 0 <= i < |rank| && 0 <= j < |rank| ensures rank[i] < rank[j] <==> Better(entries[i], entries[j]) {
      var a, b := rank[i], rank[j];
      assert sorted[a] == i && sorted[b] == j;
      assert a < b ==> BetterIds(entries)(sorted[a], sorted[b]);
      assert b < a ==> BetterIds(entries)(sorted[b], sorted[a]);
    }
  }

  // ---------------------------------------------------------------- indexes

  type Index = map<Str, seq<nat>>

  /** A list of distinct ids below k, all filed under their anchor `key`. */
  ghost predicate ListFiled(entries: seq<Compiled>, list: seq<nat>, side: Side, key: Str, k: nat)
    requires k <= |entries|
  {
    && list != [] && Distinct(list)
    && (forall i :: 0 <= i < |list| ==>
          list[i] < k && AnchoredAt(side, entries[list[i]]) && AnchorOf(side, entries[list[i]]) == key)
  }

  ghost predicate FoundIn(index: Index, side: Side, t: Compiled, id: nat) {
    AnchoredAt(side, t) ==> AnchorOf(side, t) in index && id in index[AnchorOf(side, t)]
  }

  /** The ids below k that belong to this side, each listed once under its anchor. */
  ghost predicate Filed(entries: seq<Compiled>, index: Index, side: Side, k: nat) {
    && k <= |entries|
    && (forall key :: key in index ==> ListFiled(entries, index[key], side, key, k))
    && (forall id: nat :: id < k ==> FoundIn(index, side, entries[id], id))
  }

  function AddTo(index: Index, key: Str, id: nat): Index {
    index[key := (if key in index then index[key] else []) + [id]]
  }

  lemma FiledAdd(entries: seq<Compiled>, index: Index, side: Side, id: nat)
    requires id < |entries| && Filed(entries, index, side, id) && AnchoredAt(side, entries[id])
    ensures Filed(entries, AddTo(index, AnchorOf(side, entries[id]), id), side, id + 1)
  {
    var key := AnchorOf(side, entries[id]);
    var index' := AddTo(index, key, id);
    ListGrows(entries, index, side, id);
    hide ListFiled, AnchoredAt, AnchorOf;
    forall other | other in index' ensures ListFiled(entries, index'[other], side, other, id + 1) {
      if other != key {
        ListFiledMore(entries, index[other], side, other, id);
      }
    }
    forall i: nat | i < id + 1 ensures FoundIn(index', side, entries[i], i) {
      if i < id {
        assert FoundIn(index, side, entries[i], i);
      }
    }
  }

  lemma ListFiledMore(entries: seq<Compiled>, list: seq<nat>, side: Side, key: Str, k: nat)
    requires k < |entries| && ListFiled(entries, list, side, key, k)
    ensures ListFiled(entries, list, side, key, k + 1)
  {
  }

  lemma ListGrows(entries: seq<Compiled>, index: Index, side: Side, id: nat)
    requires id < |entries| && Filed(entries, index, side, id) && AnchoredAt(side, entries[id])
    ensures var key := AnchorOf(side, entries[id]);
      && ListFiled(entries, AddTo(index, key, id)[key], side, key, id + 1)
      && id in AddTo(index, key, id)[key]
      && (key in index ==> forall i :: i in index[key] ==> i in AddTo(index, key, id)[key])
  {
    hide FoundIn;
    var key := AnchorOf(side, entries[id]);
    var before: seq<nat> := if key in index then index[key] else [];
    assert key in index ==> ListFiled(entries, before, side, key, id);
    hide AnchoredAt, AnchorOf, Filed, ListFiled, Distinct;
    ListSnoc(entries, before, side, key, id);
  }

  lemma ListSnoc(entries: seq<Compiled>, before: seq<nat>, side: Side, key: Str, id: nat)
    requires id < |entries| && (before == [] || ListFiled(entries, before, side, key, id))
    requires AnchoredAt(side, entries[id]) && AnchorOf(side, entries[id]) == key
    ensures ListFiled(entries, before + [id], side, key, id + 1)
  {
    hide AnchoredAt, AnchorOf;
    assert (before + [id])[|before|] == id;
    assert forall i :: 0 <= i < |before| ==> before[i] < id;
  }

  lemma FiledSkip(entries: seq<Compiled>, index: Index, side: Side, id: nat)
    requires id < |entries| && Filed(entries, index, side, id) && !AnchoredAt(side, entries[id])
    ensures Filed(entries, index, side, id + 1)
  {
    forall key | key in index ensures ListFiled(entries, index[key], side, key, id + 1) {
      ListFiledMore(entries, index[key], side, key, id);
    }
  }

  function ByRank(rank: seq<nat>): (nat, nat) -> bool {
    (i: nat, j: nat) => i < |rank| && j < |rank| && rank[i] < rank[j]
  }

  /** A complete index whose lists are sorted by rank. */
  ghost predicate IndexOk(entries: seq<Compiled>, rank: seq<nat>, index: Index, side: Side) {
    && Filed(entries, index, side, |entries|)
    && (forall key :: key in index ==> ListOk(entries, rank, index[key]))
  }

  lemma AnchoredIsNotPlaceholder(t: Compiled, id: nat, side: Side)
    requires t == CompiledFor(id, t.template) && AnchoredAt(side, t)
    ensures t.template != PLACEHOLDER && AnchorOf(side, t) != []
  {
    PlaceholderParts();
  }

  lemma ByRankOrders(entries: seq<Compiled>, rank: seq<nat>, s: set<nat>)
    requires Table(entries) && Ranks(entries, rank) && forall id :: id in s ==> id < |entries|
    ensures OrdersAll<nat>(ByRank(rank), s)
  {
    var less := ByRank(rank);
    forall i, j | i in s && j in s && i != j ensures less(i, j) || less(j, i) {
      assert entries[i] == CompiledFor(i, entries[i].template) && entries[j] == CompiledFor(j, entries[j].template);
      assert Better(entries[i], entries[j]) || Better(entries[j], entries[i]);
    }
  }

  /** Sorting a list by rank keeps its ids and makes it fit for pruning. */
  lemma SortedList(entries: seq<Compiled>, rank: seq<nat>, side: Side, key: Str, list: seq<nat>)
    requires Table(entries) && Ranks(entries, rank) && ListFiled(entries, list, side, key, |entries|)
    ensures var r := SortBy(list, ByRank(rank));
      && ListOk(entries, rank, r) && ListFiled(entries, r, side, key, |entries|)
      && Elements(r) == Elements(list)
  {
    var less := ByRank(rank);
    ByRankOrders(entries, rank, Elements(list));
    SortByAscends<nat>(list, less);
    var r := SortBy(list, less);
    AscendingDistinct<nat>(r, less);
    forall i | 0 <= i < |r|
      ensures r[i] < |entries| && AnchoredAt(side, entries[r[i]]) && AnchorOf(side, entries[r[i]]) == key
      ensures entries[r[i]].template != PLACEHOLDER
    {
      assert r[i] in Elements(list);
      var id := r[i];
      assert entries[id] == CompiledFor(id, entries[id].template);
      AnchoredIsNotPlaceholder(entries[id], id, side);
    }
    forall i, j | 0 <= i < j < |r| ensures rank[r[i]] < rank[r[j]] {
      assert less(r[i], r[j]);
    }
  }

  /** sortIDsByRank */
  method SortIDsByRank(entries: seq<Compiled>, index: Index, rank: seq<nat>, ghost side: Side) returns (r: Index)
    requires Table(entries) && Ranks(entries, rank) && Filed(entries, index, side, |entries|)
    ensures r.Keys == index.Keys && IndexOk(entries, rank, r, side)
  {
    hide Filed, Table, Ranks, SortBy, IndexOk, Distinct;
    r := index;
    var keys := Enumerate(index.Keys);
    for k := 0 to |keys|
      invariant r.Keys == index.Keys
      invariant forall i :: 0 <= i < k ==> keys[i] in index && r[keys[i]] == SortBy(index[keys[i]], ByRank(rank))
      invariant forall i :: k <= i < |keys| ==> keys[i] in index && r[keys[i]] == index[keys[i]]
    {
      var key := keys[k];
      assert key in Elements(keys);
      r := r[key := SortBy(r[key], ByRank(rank))];
    }
    forall key | key in index
      ensures r[key] == SortBy(index[key], ByRank(rank))
    {
      assert key in Elements(keys);
    }
    SortedIndexOk(entries, index, r, rank, side);
  }

  lemma SortedIndexOk(entries: seq<Compiled>, index: Index, r: Index, rank: seq<nat>, side: Side)
    requires Table(entries) && Ranks(entries, rank) && Filed(entries, index, side, |entries|)
    requires r.Keys == index.Keys && forall key :: key in index ==> r[key] == SortBy(index[key], ByRank(rank))
    ensures IndexOk(entries, rank, r, side)
  {
    hide Table, Ranks, ListOk, ListFiled, FoundIn;
    forall key | key in r
      ensures ListOk(entries, rank, r[key]) && ListFiled(entries, r[key], side, key, |entries|)
      ensures Elements(r[key]) == Elements(index[key])
    {
      SortedList(entries, rank, side, key, index[key]);
    }
    forall id: nat | id < |entries| ensures FoundIn(r, side, entries[id], id) {
      FoundKept(index, r, side, entries[id], id);
    }
  }

  lemma FoundKept(index: Index, r: Index, side: Side, t: Compiled, id: nat)
    requires FoundIn(index, side, t, id) && r.Keys == index.Keys
    requires forall key :: key in index ==> Elements(r[key]) == Elements(index[key])
    ensures FoundIn(r, side, t, id)
  {
    if AnchoredAt(side, t) {
      assert id in Elements(index[AnchorOf(side, t)]);
    }
  }

  ghost predicate LensOk(index: Index, lens: seq<nat>) {
    && (forall i, j :: 0 <= i < j < |lens| ==> lens[i] < lens[j])
    && (forall key :: key in index ==> |key| in lens)
  }

  function LessNat(): (nat, nat) -> bool {
    (i: nat, j: nat) => i < j
  }

  /** distinctKeyLens: the distinct key lengths, ascending. */
  method DistinctKeyLens(index: Index) returns (sorted: seq<nat>)
    ensures LensOk(index, sorted)
    ensures forall n :: n in sorted ==> exists key :: key in index && |key| == n
  {
    var keys := Enumerate(index.Keys);
    var lens: seq<nat> := [];
    var seen: set<nat> := {};
    for k := 0 to |keys|
      invariant Distinct(lens) && Elements(lens) == seen
      invariant forall i :: 0 <= i < k ==> |keys[i]| in seen
      invariant forall n :: n in seen ==> exists key :: key in index && |key| == n
    {
      var key := keys[k];
      assert key in Elements(keys);
      if |key| in seen {
        continue;
      }
      seen := seen + {|key|};
      assert |key| !in Elements(lens);
      assert Elements(lens + [|key|]) == Elements(lens) + {|key|};
      lens := lens + [|key|];
    }
    SortByAscends<nat>(lens, LessNat());
    sorted := SortBy(lens, LessNat());
    forall i, j | 0 <= i < j < |sorted| ensures sorted[i] < sorted[j] {
      assert LessNat()(sorted[i], sorted[j]);
    }
    forall key | key in index ensures |key| in sorted {
      assert key in Elements(keys);
      assert |key| in Elements(sorted);
    }
    forall n | n in sorted ensures exists key :: key in index && |key| == n {
      assert n in Elements(sorted);
    }
  }

  ghost predicate ExactOk(entries: seq<Compiled>, exact: map<Str, nat>, k: nat) {
    && k <= |entries|
    && (forall s :: s in exact ==>
          exact[s] < k && entries[exact[s]].placeholderCount == 0 && entries[exact[s]].template == s)
    && (forall id :: 0 <= id < k && entries[id].placeholderCount == 0 ==> entries[id].template in exact)
  }

  /** strongestMiddleLiteral */
  method StrongestMiddleLiteral(parts: seq<Str>) returns (best: Str)
    ensures best == Strongest(parts)
  {
    if |parts| <= 2 {
      return [];
    }
    best := [];
    for i := 1 to |parts| - 1
      invariant best == StrongestUpTo(parts, i)
    {
      var part := parts[i];
      if |part| > |best| {
        best := part;
      }
    }
  }

  /** The exact map and the three anchor indexes, before sorting. */
  method BuildIndexes(entries: seq<Compiled>)
    returns (exact: map<Str, nat>, prefixIndex: Index, suffixIndex: Index, middleIndex: Index)
    requires Table(entries)
    ensures ExactOk(entries, exact, |entries|)
    ensures Filed(entries, prefixIndex, Prefix, |entries|)
    ensures Filed(entries, suffixIndex, Suffix, |entries|)
    ensures Filed(entries, middleIndex, Middle, |entries|)
  {
    hide Filed, Table, ExactOk;
    exact, prefixIndex, suffixIndex, middleIndex := map[], map[], map[], map[];
    NothingFiled(entries);
    for k := 0 to |entries|
      invariant ExactOk(entries, exact, k)
      invariant Filed(entries, prefixIndex, Prefix, k)
      invariant Filed(entries, suffixIndex, Suffix, k)
      invariant Filed(entries, middleIndex, Middle, k)
    {
      var entry := entries[k];
      EntryId(entries, k);
      ExactStep(entries, exact, k);
      if entry.placeholderCount == 0 {
        exact := exact[entry.template := entry.id];
        FiledSkip(entries, prefixIndex, Prefix, k);
        FiledSkip(entries, suffixIndex, Suffix, k);
        FiledSkip(entries, middleIndex, Middle, k);
        continue;
      }
      if entry.firstLiteral != [] {
        FiledAdd(entries, prefixIndex, Prefix, k);
        FiledSkip(entries, suffixIndex, Suffix, k);
        FiledSkip(entries, middleIndex, Middle, k);
        prefixIndex := AddTo(prefixIndex, entry.firstLiteral, entry.id);
        continue;
      }
      FiledSkip(entries, prefixIndex, Prefix, k);
      if entry.lastLiteral != [] {
        FiledAdd(entries, suffixIndex, Suffix, k);
        FiledSkip(entries, middleIndex, Middle, k);
        suffixIndex := AddTo(suffixIndex, entry.lastLiteral, entry.id);
        continue;
      }
      FiledSkip(entries, suffixIndex, Suffix, k);
      var anchor := StrongestMiddleLiteral(entry.parts);
      if anchor == [] {
        FiledSkip(entries, middleIndex, Middle, k);
        continue;
      }
      FiledAdd(entries, middleIndex, Middle, k);
      middleIndex := AddTo(middleIndex, anchor, entry.id);
    }
  }

  lemma NothingFiled(entries: seq<Compiled>)
    ensures ExactOk(entries, map[], 0)
    ensures forall side :: Filed(entries, map[], side, 0)
  {
  }

  lemma EntryId(entries: seq<Compiled>, k: nat)
    requires Table(entries) && k < |entries|
    ensures entries[k].id == k
  {
    assert entries[k] == CompiledFor(k, entries[k].template);
  }

  lemma ExactStep(entries: seq<Compiled>, exact: map<Str, nat>, k: nat)
    requires k < |entries| && ExactOk(entries, exact, k)
    ensures if entries[k].placeholderCount == 0 then ExactOk(entries, exact[entries[k].template := k], k + 1)
            else ExactOk(entries, exact, k + 1)
  {
  }

  /** The automaton's patterns and their candidate lists. */
  ghost predicate MiddleOk(entries: seq<Compiled>, rank: seq<nat>, patterns: seq<Str>, lists: seq<seq<nat>>) {
    && |lists| == |patterns|
    && (forall p :: 0 <= p < |lists| ==> ListOk(entries, rank, lists[p]))
    && (forall id: nat :: id < |entries| && AnchoredAt(Middle, entries[id]) ==>
          Filer(patterns, lists, AnchorOf(Middle, entries[id]), id))
  }

  ghost predicate Filer(patterns: seq<Str>, lists: seq<seq<nat>>, anchor: Str, id: nat)
    requires |lists| == |patterns|
  {
    exists p :: 0 <= p < |patterns| && patterns[p] == anchor && id in lists[p]
  }

  /** The sorted middle anchors and the list of each. */
  method MiddlePatterns(entries: seq<Compiled>, rank: seq<nat>, middleIndex: Index)
    returns (patterns: seq<Str>, lists: seq<seq<nat>>)
    requires IndexOk(entries, rank, middleIndex, Middle)
    ensures MiddleOk(entries, rank, patterns, lists)
  {
    var keys := Enumerate(middleIndex.Keys);
    LessStrOrders(Elements(keys));
    SortByAscends<Str>(keys, LessStr());
    patterns := SortBy(keys, LessStr());
    lists := [];
    for i := 0 to |patterns|
      invariant |lists| == i
      invariant forall p :: 0 <= p < i ==> patterns[p] in middleIndex && lists[p] == middleIndex[patterns[p]]
    {
      assert patterns[i] in Elements(patterns);
      lists := lists + [middleIndex[patterns[i]]];
    }
    forall id: nat | id < |entries| && AnchoredAt(Middle, entries[id])
      ensures Filer(patterns, lists, AnchorOf(Middle, entries[id]), id)
    {
      assert FoundIn(middleIndex, Middle, entries[id], id);
      assert AnchorOf(Middle, entries[id]) in Elements(patterns);
      var p :| 0 <= p < |patterns| && patterns[p] == AnchorOf(Middle, entries[id]);
    }
  }

  // -------------------------------------------------------------- searching

  /** Ids of this side whose anchor is seen in msg and is shorter than a bound. */
  ghost predicate SideSeen(entries: seq<Compiled>, msg: Str, side: Side, id: nat) {
    id < |entries| && AnchoredAt(side, entries[id]) && SeenAt(side, msg, AnchorOf(side, entries[id]))
  }

  /** The key of a given length that a side looks up. */
  function KeyIn(side: Side, msg: Str, n: nat): Str
    requires n <= |msg|
  {
    if side == Prefix then msg[..n] else msg[|msg| - n..]
  }

  lemma NoPatterns(entries: seq<Compiled>, rank: seq<nat>, patterns: seq<Str>, lists: seq<seq<nat>>)
    requires MiddleOk(entries, rank, patterns, lists)
    ensures |patterns| == 0 ==> MiddleOk(entries, rank, [], [])
  {
  }

  /** Every id of this side with one of the first k key lengths has been seen. */
  ghost predicate SeenUpTo(entries: seq<Compiled>, msg: Str, side: Side, lens: seq<nat>, k: nat, seen: set<nat>)
    requires k <= |lens|
  {
    forall id: nat :: SideSeen(entries, msg, side, id) && |AnchorOf(side, entries[id])| in lens[..k] ==> id in seen
  }

  /** Looking up one key length finds all ids whose anchor has that length. */
  lemma SideStep(entries: seq<Compiled>, rank: seq<nat>, index: Index, msg: Str, side: Side,
      lens: seq<nat>, k: nat, seen: set<nat>)
    requires side != Middle && IndexOk(entries, rank, index, side)
    requires k < |lens| && lens[k] <= |msg| && SeenUpTo(entries, msg, side, lens, k, seen)
    ensures var key := KeyIn(side, msg, lens[k]);
      if key in index
      then ListOk(entries, rank, index[key]) && SeenUpTo(entries, msg, side, lens, k + 1, seen + Members(index[key]))
      else SeenUpTo(entries, msg, side, lens, k + 1, seen)
  {
    var key := KeyIn(side, msg, lens[k]);
    assert lens[..k + 1] == lens[..k] + [lens[k]];
    forall id: nat | SideSeen(entries, msg, side, id) && |AnchorOf(side, entries[id])| == lens[k]
      ensures key in index && id in index[key]
    {
      assert AnchorOf(side, entries[id]) == key;
      assert FoundIn(index, side, entries[id], id);
    }
  }

  /** Key lengths beyond the message cannot be those of a seen anchor. */
  lemma SideDone(entries: seq<Compiled>, rank: seq<nat>, index: Index, msg: Str, side: Side,
      lens: seq<nat>, k: nat, seen: set<nat>)
    requires side != Middle && IndexOk(entries, rank, index, side) && LensOk(index, lens)
    requires k <= |lens| && (k == |lens| || lens[k] > |msg|) && SeenUpTo(entries, msg, side, lens, k, seen)
    ensures forall id: nat :: SideSeen(entries, msg, side, id) ==> id in seen
  {
    forall id: nat | SideSeen(entries, msg, side, id) ensures id in seen {
      assert FoundIn(index, side, entries[id], id);
      var n := |AnchorOf(side, entries[id])|;
      assert n in lens && n <= |msg|;
      var j :| 0 <= j < |lens| && lens[j] == n;
      assert j < k;
      assert lens[..k][j] == n;
    }
  }

  lemma NothingSeen(entries: seq<Compiled>, rank: seq<nat>, msg: Str)
    requires Ranks(entries, rank)
    ensures Covers(entries, rank, msg, BestSoFar(-1, |entries| + 1), {})
  {
  }

  lemma ExactIsBest(entries: seq<Compiled>, exact: map<Str, nat>, msg: Str)
    requires Table(entries) && ExactOk(entries, exact, |entries|) && msg in exact
    ensures Best(entries, msg, exact[msg])
  {
    var id := exact[msg];
    LiteralHit(entries, msg, id);
    forall j | Candidate(entries, msg, j) && j != id ensures Better(entries[id], entries[j]) {
      ExactBeats(entries, msg, id, j);
    }
  }

  lemma NoHits(patterns: seq<Str>, msg: Str)
    requires patterns == [] || msg == []
    ensures Hits(patterns, msg, |msg|) == []
  {
    var hits := Hits(patterns, msg, |msg|);
    if hits != [] {
      assert hits[0] in hits;
      HitsAreOccurrences(patterns, msg, hits[0]);
    }
  }

  lemma RunCoversHits(entries: seq<Compiled>, rank: seq<nat>, msg: Str, patterns: seq<Str>, lists: seq<seq<nat>>,
      st: BestSoFar, seen: set<nat>)
    requires Table(entries) && MiddleOk(entries, rank, patterns, lists) && Covers(entries, rank, msg, st, seen)
    ensures var hits := Hits(patterns, msg, |msg|);
      Covers(entries, rank, msg, Run(MiddleVisitor(entries, rank, msg, lists), st, hits).0, seen + Listed(lists, hits))
  {
    var hits := Hits(patterns, msg, |msg|);
    forall i | 0 <= i < |hits| ensures hits[i] < |lists| {
      assert hits[i] in hits;
      HitsAreOccurrences(patterns, msg, hits[i]);
    }
    RunCovers(entries, rank, msg, lists, hits, st, seen);
  }

  /** Without an exact hit every candidate was found through its anchor. */
  lemma AllSeen(entries: seq<Compiled>, rank: seq<nat>, exact: map<Str, nat>, msg: Str,
      patterns: seq<Str>, lists: seq<seq<nat>>, seen: set<nat>)
    requires Table(entries) && ExactOk(entries, exact, |entries|) && msg !in exact
    requires MiddleOk(entries, rank, patterns, lists)
    requires forall id: nat :: SideSeen(entries, msg, Prefix, id) || SideSeen(entries, msg, Suffix, id) ==> id in seen
    ensures forall c :: Candidate(entries, msg, c) ==> c in seen + Listed(lists, Hits(patterns, msg, |msg|))
  {
    forall c | Candidate(entries, msg, c) ensures c in seen + Listed(lists, Hits(patterns, msg, |msg|)) {
      if entries[c].placeholderCount == 0 {
        LiteralHit(entries, msg, c);
        assert false;
      }
      EveryTemplateIsAnchored(entries, c);
      var side :| AnchoredAt(side, entries[c]);
      MatchShowsAnchor(entries, msg, c, side);
      if side == Middle {
        MiddleSeen(entries, rank, msg, patterns, lists, c);
      } else {
        assert SideSeen(entries, msg, side, c);
      }
    }
  }

  lemma MiddleSeen(entries: seq<Compiled>, rank: seq<nat>, msg: Str, patterns: seq<Str>, lists: seq<seq<nat>>, c: nat)
    requires MiddleOk(entries, rank, patterns, lists) && c < |entries| && AnchoredAt(Middle, entries[c])
    requires AnchorOf(Middle, entries[c]) != [] && Occurs(msg, AnchorOf(Middle, entries[c]))
    ensures c in Listed(lists, Hits(patterns, msg, |msg|))
  {
    var anchor := AnchorOf(Middle, entries[c]);
    assert Filer(patterns, lists, anchor, c);
    var p: nat :| p < |patterns| && patterns[p] == anchor && c in lists[p];
    HitsAreOccurrences(patterns, msg, p);
  }

  lemma StateId(entries: seq<Compiled>, rank: seq<nat>, msg: Str, st: BestSoFar, seen: set<nat>)
    requires Covers(entries, rank, msg, st, seen)
    ensures st.id >= -1
  {
  }

  /** A template other than the lone placeholder that matches msg. */
  ghost predicate Matches(template: Str, msg: Str) {
    template != PLACEHOLDER && MatchOf(Split(template), msg).Some?
  }

  /** What the best candidate is, on the texts of the templates. */
  lemma BestOnTexts(entries: seq<Compiled>, kept: seq<Str>, msg: Str, id: int)
    requires Table(entries) && TableOf(entries, kept)
    ensures Best(entries, msg, id) ==> 0 <= id < |kept| && Matches(kept[id], msg)
    ensures Best(entries, msg, id) ==> forall j :: 0 <= j < |kept| && j != id && Matches(kept[j], msg) ==>
      var p, q := Split(kept[id]), Split(kept[j]);
      TotalLen(p) > TotalLen(q)
      || (TotalLen(p) == TotalLen(q) && |p| < |q|)
      || (TotalLen(p) == TotalLen(q) && |p| == |q| && id < j)
    ensures (forall c :: !Candidate(entries, msg, c)) ==> forall j :: 0 <= j < |kept| ==> !Matches(kept[j], msg)
  {
    hide Table, Split, MatchOf, TotalLen, Better;
    if Best(entries, msg, id) {
      forall j | 0 <= j < |kept| && j != id && Matches(kept[j], msg)
        ensures var p, q := Split(kept[id]), Split(kept[j]);
          TotalLen(p) > TotalLen(q)
          || (TotalLen(p) == TotalLen(q) && |p| < |q|)
          || (TotalLen(p) == TotalLen(q) && |p| == |q| && id < j)
      {
        assert Candidate(entries, msg, j);
        BetterOnTexts(entries, id, j);
      }
    }
    if forall c :: !Candidate(entries, msg, c) {
      forall j | 0 <= j < |kept| ensures !Matches(kept[j], msg) {
        assert !Candidate(entries, msg, j);
      }
    }
  }

  class Matcher {
    var templates: seq<Str>
    var byID: seq<Compiled>
    var rankByID: seq<nat>
    var exact: map<Str, nat>
    var prefixIndex: Index
    var suffixIndex: Index
    var middleAC: Automaton?
    var middleLists: seq<seq<nat>>
    var prefixLens: seq<nat>
    var suffixLens: seq<nat>

    ghost predicate Valid()
      reads this, middleAC
    {
      && Table(byID) && TableOf(byID, templates) && Ranks(byID, rankByID)
      && ExactOk(byID, exact, |byID|)
      && IndexOk(byID, rankByID, prefixIndex, Prefix) && LensOk(prefixIndex, prefixLens)
      && IndexOk(byID, rankByID, suffixIndex, Suffix) && LensOk(suffixIndex, suffixLens)
      && (if middleAC == null then MiddleOk(byID, rankByID, [], [])
          else middleAC.Valid() && MiddleOk(byID, rankByID, middleAC.patterns, middleLists))
    }

    /** NewMatcher */
    constructor (raws: seq<Str>)
      ensures Valid() && templates == Kept(raws)
    {
      hide Table, TableOf, Ranks, ExactOk, IndexOk, Filed, LensOk, MiddleOk, AllNodesFinal;
      var entries, kept := BuildTable(raws);
      var ranks := RankTemplates(entries);
      var ex, pre, suf, mid := BuildIndexes(entries);
      pre := SortIDsByRank(entries, pre, ranks, Prefix);
      suf := SortIDsByRank(entries, suf, ranks, Suffix);
      mid := SortIDsByRank(entries, mid, ranks, Middle);
      var patterns, lists := MiddlePatterns(entries, ranks, mid);
      var automaton: Automaton? := null;
      NoPatterns(entries, ranks, patterns, lists);
      if |patterns| > 0 {
        automaton := new Automaton(patterns);
      }
      var preLens := DistinctKeyLens(pre);
      var sufLens := DistinctKeyLens(suf);
      templates, byID, rankByID, exact := kept, entries, ranks, ex;
      prefixIndex, suffixIndex, middleAC, middleLists := pre, suf, automaton, lists;
      prefixLens, suffixLens := preLens, sufLens;
    }

    /** The evaluateList closure: scans one list, updating the best so far. */
    method EvaluateList(msg: Str, list: seq<nat>, st0: BestSoFar) returns (st: BestSoFar)
      requires Table(byID) && ListOk(byID, rankByID, list)
      ensures st == Evaluate(byID, rankByID, msg, list, st0)
    {
      st := st0;
      var i := 0;
      while i < |list|
        invariant 0 <= i <= |list|
        invariant Evaluate(byID, rankByID, msg, list, st0) == Evaluate(byID, rankByID, msg, list[i..], st)
      {
        var id := list[i];
        EntryFacts(byID, msg, id);
        assert list[i..][0] == id && list[i..][1..] == list[i + 1..];
        var rank := rankByID[id];
        if rank >= st.rank {
          break;
        }
        var entry := byID[id];
        i := i + 1;
        if |msg| < entry.minMsgLen {
          continue;
        }
        assert byID[id] == CompiledFor(id, entry.template);
        var _, ok := MatchInternal(entry, msg, false);
        if !ok {
          continue;
        }
        st := BestSoFar(id, rank);
      }
    }

    /** The loop over the key lengths of the prefix or the suffix index. */
    method SearchSide(msg: Str, side: Side, index: Index, lens: seq<nat>, st0: BestSoFar, ghost seen0: set<nat>)
      returns (st: BestSoFar, ghost seen: set<nat>)
      requires side != Middle && Table(byID) && IndexOk(byID, rankByID, index, side) && LensOk(index, lens)
      requires Covers(byID, rankByID, msg, st0, seen0)
      ensures Covers(byID, rankByID, msg, st, seen) && seen0 <= seen
      ensures forall id: nat :: SideSeen(byID, msg, side, id) ==> id in seen
    {
      hide Table, Covers, Evaluate, ListOk;
      st, seen := st0, seen0;
      var k := 0;
      while k < |lens|
        invariant 0 <= k <= |lens| && seen0 <= seen
        invariant Covers(byID, rankByID, msg, st, seen)
        invariant SeenUpTo(byID, msg, side, lens, k, seen)
      {
        var n := lens[k];
        if n > |msg| {
          break;
        }
        SideStep(byID, rankByID, index, msg, side, lens, k, seen);
        k := k + 1;
        var key := KeyIn(side, msg, n);
        if key !in index {
          continue;
        }
        EvaluateCovers(byID, rankByID, msg, index[key], st, seen);
        st := EvaluateList(msg, index[key], st);
        seen := seen + Members(index[key]);
      }
      SideDone(byID, rankByID, index, msg, side, lens, k, seen);
    }

    /** bestMatchID: the best candidate through exact lookup and the three indexes. */
    method BestMatchID(msg: Str) returns (id: int, ok: bool)
      requires Valid()
      ensures ok ==> Best(byID, msg, id)
      ensures !ok ==> id == -1 && forall c :: !Candidate(byID, msg, c)
      ensures ok ==> 0 <= id < |templates| && Matches(templates[id], msg)
      ensures ok ==> forall j :: 0 <= j < |templates| && j != id && Matches(templates[j], msg) ==>
        var p, q := Split(templates[id]), Split(templates[j]);
        TotalLen(p) > TotalLen(q)
        || (TotalLen(p) == TotalLen(q) && |p| < |q|)
        || (TotalLen(p) == TotalLen(q) && |p| == |q| && id < j)
      ensures !ok ==> forall j :: 0 <= j < |templates| ==> !Matches(templates[j], msg)
    {
      hide Matches, Split, TotalLen, TableOf;
      hide Table, Ranks, IndexOk, LensOk, MiddleOk, Covers, AllNodesFinal, Best, Candidate, Hits;
      if msg in exact {
        ExactIsBest(byID, exact, msg);
        BestOnTexts(byID, templates, msg, exact[msg]);
        return exact[msg], true;
      }
      var st := BestSoFar(-1, |byID| + 1);
      ghost var seen: set<nat> := {};
      NothingSeen(byID, rankByID, msg);
      st, seen := SearchSide(msg, Prefix, prefixIndex, prefixLens, st, seen);
      ghost var seen1 := seen;
      st, seen := SearchSide(msg, Suffix, suffixIndex, suffixLens, st, seen);
      ghost var patterns: seq<Str> := if middleAC == null then [] else middleAC.patterns;
      ghost var lists: seq<seq<nat>> := if middleAC == null then [] else middleLists;
      ghost var hits := Hits(patterns, msg, |msg|);
      RunCoversHits(byID, rankByID, msg, patterns, lists, st, seen);
      if middleAC != null && |msg| > 0 {
        ghost var steps: nat;
        st, steps := middleAC.Search(msg, st, MiddleVisitor(byID, rankByID, msg, middleLists));
      } else {
        NoHits(patterns, msg);
      }
      AllSeen(byID, rankByID, exact, msg, patterns, lists, seen);
      CoveredIsBest(byID, rankByID, msg, st, seen + Listed(lists, hits));
      StateId(byID, rankByID, msg, st, seen + Listed(lists, hits));
      BestOnTexts(byID, templates, msg, st.id);
      if st.id >= 0 {
        return st.id, true;
      }
      return -1, false;
    }

    /** MatchID */
    method MatchID(msg: Str) returns (templateID: int, ok: bool)
      requires Valid()
      ensures ok ==> Best(byID, msg, templateID)
      ensures !ok ==> templateID == -1 && forall c :: !Candidate(byID, msg, c)
      ensures templateID == AnswerOf(byID, msg)
    {
      templateID, ok := BestMatchID(msg);
      AnswerIs(byID, msg, templateID, ok);
      AnswerOfIs(byID, msg, templateID);
      if !ok {
        return -1, false;
      }
    }

    /** Match: the best template and the leftmost decomposition of msg by it. */
    method Match(msg: Str) returns (templateID: int, args: seq<Str>, ok: bool)
      requires Valid()
      ensures ok ==> Best(byID, msg, templateID)
                     && Decomposes(byID[templateID].parts, args, msg) && Leftmost(byID[templateID].parts, args)
      ensures !ok ==> templateID == -1 && args == [] && forall c :: !Candidate(byID, msg, c)
    {
      var id;
      id, ok := MatchID(msg);
      if !ok {
        return -1, [], false;
      }
      assert byID[id] == CompiledFor(id, byID[id].template);
      args, ok := MatchInternal(byID[id], msg, true);
      MatchIsLeftmost(byID[id].parts, msg, args);
      if !ok {
        return -1, [], false;
      }
      return id, args, true;
    }

    /** MatchAllIDs: duplicates are answered from the cache, with the same result
        as matching every message on its own. */
    method MatchAllIDs(messages: seq<Str>) returns (ids: seq<int>)
      requires Valid()
      ensures |ids| == |messages|
      ensures forall i :: 0 <= i < |messages| ==> Answer(byID, messages[i], ids[i])
      ensures forall i :: 0 <= i < |messages| ==> ids[i] == AnswerOf(byID, messages[i])
    {
      hide Answer, AnswerOf;
      ids := seq(|messages|, _ => -1);
      var cache: map<Str, int> := map[];
      for i := 0 to |messages|
        invariant |ids| == |messages|
        invariant forall j :: 0 <= j < i ==> Answer(byID, messages[j], ids[j])
        invariant forall j :: i <= j < |messages| ==> ids[j] == -1
        invariant forall m :: m in cache ==> Answer(byID, m, cache[m])
      {
        var msg := messages[i];
        if msg in cache {
          ids := ids[i := cache[msg]];
          continue;
        }
        var id, ok := MatchID(msg);
        AnswerIs(byID, msg, id, ok);
        if !ok {
          cache := cache[msg := -1];
          continue;
        }
        ids := ids[i := id];
        cache := cache[msg := id];
      }
      forall i | 0 <= i < |messages| ensures ids[i] == AnswerOf(byID, messages[i]) {
        AnswerOfIs(byID, messages[i], ids[i]);
      }
    }
  }

  /** The id of the best candidate, or -1 if there is none. */
  ghost predicate Answer(entries: seq<Compiled>, msg: Str, id: int) {
    if id == -1 then forall c :: !Candidate(entries, msg, c) else Best(entries, msg, id)
  }

  lemma AnswerIs(entries: seq<Compiled>, msg: Str, id: int, ok: bool)
    requires ok ==> Best(entries, msg, id)
    requires !ok ==> id == -1 && forall c :: !Candidate(entries, msg, c)
    ensures Answer(entries, msg, id)
  {
  }

  /** The answer is determined by the table and the message. */
  lemma AnswerUnique(entries: seq<Compiled>, msg: Str, id: int, other: int)
    requires Answer(entries, msg, id) && Answer(entries, msg, other)
    ensures id == other
  {
  }

  /** The answer, as a function of table and message. */
  ghost function AnswerOf(entries: seq<Compiled>, msg: Str): int {
    if id: int :| Answer(entries, msg, id) then id else -1
  }

  lemma AnswerOfIs(entries: seq<Compiled>, msg: Str, id: int)
    requires Answer(entries, msg, id)
    ensures AnswerOf(entries, msg) == id
  {
    AnswerUnique(entries, msg, AnswerOf(entries, msg), id);
  }

  /** All template sets, end to end. */
  function Flattened(sets: seq<seq<Str>>): seq<Str> {
    if sets == [] then [] else Flattened(sets[..|sets| - 1]) + sets[|sets| - 1]
  }

  /** The sets follow one another. */
  lemma {:induction false} FlattenedCons(first: seq<Str>, sets: seq<seq<Str>>)
    ensures Flattened([first] + sets) == first + Flattened(sets)
  {
    if sets == [] {
      assert ([first] + sets)[..0] == [];
    } else {
      assert ([first] + sets)[..|sets|] == [first] + sets[..|sets| - 1];
      FlattenedCons(first, sets[..|sets| - 1]);
    }
  }

  lemma {:induction false} InFlattened(sets: seq<seq<Str>>, c: nat, t: Str)
    requires c < |sets| && t in sets[c]
    ensures t in Flattened(sets)
  {
    if c < |sets| - 1 {
      InFlattened(sets[..|sets| - 1], c, t);
    }
  }

  /** NewMatcherFromTemplateSets */
  method NewMatcherFromTemplateSets(sets: seq<seq<Str>>) returns (m: Matcher)
    ensures fresh(m) && m.Valid() && m.templates == Kept(Flattened(sets))
  {
    var flat: seq<Str> := [];
    for i := 0 to |sets|
      invariant flat == Flattened(sets[..i])
    {
      assert sets[..i + 1][..i] == sets[..i];
      flat := flat + sets[i];
    }
    assert sets[..|sets|] == sets;
    m := new Matcher(flat);
  }
}
