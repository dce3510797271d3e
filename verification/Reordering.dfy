/** The results of a parse depend on the bag of messages, not on their order: reordered messages
    keep their anchors, clusters and masks, and the templates stay as they are. */
module Reordering {
  import opened Bytes
  import opened Tokens
  import opened TokenRecord
  import opened Sorting
  import opened Scc
  import opened Anchors
  import opened AnchorKey
  import opened Dedup
  import opened Interner
  import opened Grouping
  import opened Clusters
  import opened Placeholder
  import opened Pieces
  import opened Template
  import opened Outcomes
  import opened Parser

  // ------------------------------------------------------------ counting bags

  /** How many of the messages have the property. */
  ghost function CountIf(messages: seq<Str>, p: Str -> bool): nat {
    if messages == [] then 0
    else CountIf(messages[..|messages| - 1], p) + (if p(messages[|messages| - 1]) then 1 else 0)
  }

  lemma {:induction false} CountAppend(a: seq<Str>, b: seq<Str>, p: Str -> bool)
    ensures CountIf(a + b, p) == CountIf(a, p) + CountIf(b, p)
    decreases |b|
  {
    if b == [] {
      assert a + b == a;
    } else {
      var n := |b| - 1;
      assert (a + b)[..|a| + n] == a + b[..n];
      CountAppend(a, b[..n], p);
    }
  }

  lemma CountOne(x: Str, p: Str -> bool)
    ensures CountIf([x], p) == if p(x) then 1 else 0
  {
    assert [x][..0] == [];
  }

  lemma CountRemove(b: seq<Str>, k: nat, p: Str -> bool)
    requires k < |b|
    ensures CountIf(b, p) == CountIf(b[..k] + b[k + 1..], p) + (if p(b[k]) then 1 else 0)
  {
    hide CountIf;
    assert b == b[..k] + [b[k]] + b[k + 1..];
    CountAppend(b[..k] + [b[k]], b[k + 1..], p);
    CountAppend(b[..k], [b[k]], p);
    CountAppend(b[..k], b[k + 1..], p);
    CountOne(b[k], p);
  }

  /** Two lists with one bag: dropping the last of the first and its match in the second. */
  lemma DropMatch(a: seq<Str>, b: seq<Str>) returns (k: nat)
    requires multiset(a) == multiset(b) && a != []
    ensures k < |b| && b[k] == a[|a| - 1] && multiset(b[..k] + b[k + 1..]) == multiset(a[..|a| - 1])
  {
    var n := |a| - 1;
    assert a[n] in multiset(b);
    k :| 0 <= k < |b| && b[k] == a[n];
    WithoutOne(a, n);
    WithoutOne(b, k);
    assert a[..n] + a[n + 1..] == a[..n];
  }

  lemma WithoutOne(s: seq<Str>, k: nat)
    requires k < |s|
    ensures multiset(s[..k] + s[k + 1..]) == multiset(s) - multiset{s[k]}
  {
    assert s == s[..k] + [s[k]] + s[k + 1..];
  }

  /** Counting ignores the order. */
  lemma {:induction false} CountBag(a: seq<Str>, b: seq<Str>, p: Str -> bool)
    requires multiset(a) == multiset(b)
    ensures CountIf(a, p) == CountIf(b, p)
    decreases |a|
  {
    if a == [] {
      assert |multiset(b)| == 0;
    } else {
      var k := DropMatch(a, b);
      CountBag(a[..|a| - 1], b[..k] + b[k + 1..], p);
      CountRemove(b, k, p);
    }
  }

  /** The message keeps both slices. */
  ghost function KeepsBoth(cfg: Config, x: Str, y: Str): Str -> bool
    requires ConfigOk(cfg)
  {
    (msg: Str) =>
      KeptIn(RowTokens(cfg, cfg.symbols, msg), cfg.filter, x) && KeptIn(RowTokens(cfg, cfg.symbols, msg), cfg.filter, y)
  }

  /** A property of rows, counted with weights, is the property of messages, counted one by one. */
  lemma {:induction false} TallyIsCount(messages: seq<Str>, rowOf: seq<nat>, k: nat, p: nat -> bool, q: Str -> bool)
    requires k <= |rowOf| == |messages| && forall i :: 0 <= i < |rowOf| ==> (p(rowOf[i]) <==> q(messages[i]))
    ensures Tally(rowOf, k, p) == CountIf(messages[..k], q)
  {
    if k > 0 {
      TallyIsCount(messages, rowOf, k - 1, p, q);
      assert messages[..k][..k - 1] == messages[..k - 1];
    }
  }

  lemma WeightedIsCount(messages: seq<Str>, rowOf: seq<nat>, counts: seq<nat>, p: nat -> bool, q: Str -> bool)
    requires |rowOf| == |messages| && CountsMultiplicities(counts, rowOf)
    requires forall i :: 0 <= i < |rowOf| ==> (p(rowOf[i]) <==> q(messages[i]))
    ensures Weighted(counts, |counts|, p) == CountIf(messages, q)
  {
    assert counts == Multiplicities(rowOf, |rowOf|, |counts|);
    WeightedIsTally(rowOf, |rowOf|, |counts|, p);
    TallyIsCount(messages, rowOf, |rowOf|, p, q);
    assert messages[..|rowOf|] == messages;
  }

  // ------------------------------------------------------------- the counts

  lemma RowIsMessage(cfg: Config, messages: seq<Str>, run: Run, i: nat)
    requires ConfigOk(cfg) && PrimaryOk(cfg, messages, run) && i < |messages|
    ensures |run.rowOf| == |messages| && run.rowOf[i] < |run.rows| && RowOk(run.rows[run.rowOf[i]], |run.record.occ|)
    ensures run.rows[run.rowOf[i]].toks == RowTokens(cfg, cfg.symbols, messages[i])
  {
    hide RowTokens, GroupsOk, InternerOk, IdsFit;
    RunSizes(cfg, messages, run);
    RowOfMessage(messages, run, i);
    assert TokensOfRows(run.rows)[run.rowOf[i]] == run.rows[run.rowOf[i]].toks;
    assert RowOk(run.rows[run.rowOf[i]], run.numPrimary);
  }

  /** Row h counts for a token's id iff its message keeps the token's slice. */
  lemma CountsForMessage(cfg: Config, messages: seq<Str>, run: Run, r: nat, j: nat, h: nat)
    requires ConfigOk(cfg) && PrimaryOk(cfg, messages, run) && h < |messages| == |run.rowOf|
    requires r < |run.rows| && j < |run.rows[r].toks| && Told(run.rows)
    ensures |run.rows[r].ids| == |run.rows[r].toks|
    ensures HasId(run.rows, cfg.filter, run.rows[r].ids[j])(run.rowOf[h])
       <==> KeptIn(RowTokens(cfg, cfg.symbols, messages[h]), cfg.filter, run.rows[r].toks[j].slice)
  {
    hide RowTokens, PrimaryOk, KeptIn, HasId, Told;
    RowIsMessage(cfg, messages, run, h);
    CountsForSlice(run.rows, cfg.filter, r, j, run.rowOf[h]);
  }

  /** Occurrences count the messages that keep the slice, co-occurrences those that keep both. */
  lemma RecordCounts(cfg: Config, messages: seq<Str>, run: Run, r: nat, j: nat, k: nat)
    requires ConfigOk(cfg) && PrimaryOk(cfg, messages, run)
    requires r < |run.rows| && j < |run.rows[r].toks| && k < |run.rows[r].toks| && RowOk(run.rows[r], |run.record.occ|)
    ensures var row := run.rows[r];
      && run.record.occ[row.ids[j]] == CountIf(messages, KeepsBoth(cfg, row.toks[j].slice, row.toks[j].slice))
      && CoGet(run.record.co, row.ids[j], row.ids[k])
         == if row.toks[j].slice == row.toks[k].slice then 0
            else CountIf(messages, KeepsBoth(cfg, row.toks[j].slice, row.toks[k].slice))
  {
    RunIsCounted(cfg, messages, run);
    RunSizes(cfg, messages, run);
    var row := run.rows[r];
    var a, b := row.ids[j], row.ids[k];
    assert a == b <==> row.toks[j].slice == row.toks[k].slice;
    hide RowTokens, KeptIn, GroupsOk, InternerOk, Tokenized, RowsInterned, CoGet, KeptIds;
    forall h | 0 <= h < |messages|
      ensures HasId(run.rows, cfg.filter, a)(run.rowOf[h])
         <==> KeepsBoth(cfg, row.toks[j].slice, row.toks[j].slice)(messages[h])
      ensures HasBoth(run.rows, cfg.filter, a, b)(run.rowOf[h])
         <==> KeepsBoth(cfg, row.toks[j].slice, row.toks[k].slice)(messages[h])
    {
      CountsForMessage(cfg, messages, run, r, j, h);
      CountsForMessage(cfg, messages, run, r, k, h);
    }
    WeightedIsCount(messages, run.rowOf, run.counts, HasId(run.rows, cfg.filter, a),
      KeepsBoth(cfg, row.toks[j].slice, row.toks[j].slice));
    WeightedIsCount(messages, run.rowOf, run.counts, HasBoth(run.rows, cfg.filter, a, b),
      KeepsBoth(cfg, row.toks[j].slice, row.toks[k].slice));
  }

  // ---------------------------------------------------------------- anchors

  /** The two rows have the same tokens; wherever a token is counted, both records say the same. */
  ghost predicate SameRow(a: Row, ra: Record, b: Row, rb: Record) {
    && RowOk(a, |ra.occ|) && RowOk(b, |rb.occ|) && a.toks == b.toks
    && (forall j, k :: 0 <= j < |a.toks| && 0 <= k < |a.toks| ==> (a.ids[j] == a.ids[k] <==> b.ids[j] == b.ids[k]))
    && (forall j :: 0 <= j < |a.toks| ==> ra.occ[a.ids[j]] == rb.occ[b.ids[j]])
    && (forall j, k :: 0 <= j < |a.toks| && 0 <= k < |a.toks| ==>
          CoGet(ra.co, a.ids[j], a.ids[k]) == CoGet(rb.co, b.ids[j], b.ids[k]))
  }

  /** The nodes stand for the same positions of the two rows. */
  ghost predicate NodesMatch(a: Row, na: seq<Node>, b: Row, nb: seq<Node>) {
    |a.ids| == |a.toks| == |b.ids| == |b.toks| && |na| == |nb| &&
    forall i :: 0 <= i < |na| ==> SamePosition(a, na[i], b, nb[i])
  }

  ghost predicate SamePosition(a: Row, x: Node, b: Row, y: Node) {
    exists j :: NodesAtPosition(a, x, b, y, j)
  }

  ghost predicate NodesAtPosition(a: Row, x: Node, b: Row, y: Node, j: int) {
    0 <= j < |a.toks| && |a.ids| == |a.toks| == |b.ids| == |b.toks|
    && x == Node(a.toks[j], a.ids[j]) && y == Node(b.toks[j], b.ids[j])
  }

  lemma MatchHas(a: Row, ra: Record, na: seq<Node>, b: Row, rb: Record, nb: seq<Node>, k: nat)
    requires SameRow(a, ra, b, rb) && NodesMatch(a, na, b, nb) && k < |a.toks|
    ensures HasNode(na, a.ids[k], a.toks[k].kind) <==> HasNode(nb, b.ids[k], b.toks[k].kind)
  {
    hide CoGet;
    if i :| 0 <= i < |na| && na[i].id == a.ids[k] && na[i].tok.kind == a.toks[k].kind {
      assert SamePosition(a, na[i], b, nb[i]);
      var j :| NodesAtPosition(a, na[i], b, nb[i], j);
      assert nb[i].id == b.ids[k] && nb[i].tok.kind == b.toks[k].kind;
    }
    if i :| 0 <= i < |nb| && nb[i].id == b.ids[k] && nb[i].tok.kind == b.toks[k].kind {
      assert SamePosition(a, na[i], b, nb[i]);
      var j :| NodesAtPosition(a, na[i], b, nb[i], j);
      assert na[i].id == a.ids[k] && na[i].tok.kind == a.toks[k].kind;
    }
  }

  lemma {:induction false} SameNodes(a: Row, ra: Record, b: Row, rb: Record, k: nat)
    requires SameRow(a, ra, b, rb) && k <= |a.toks|
    ensures NodesMatch(a, NodesOf(a, ra.occ, k), b, NodesOf(b, rb.occ, k))
  {
    if k == 0 {
      assert NodesOf(a, ra.occ, k) == [] == NodesOf(b, rb.occ, k);
    } else {
      hide NodesMatch, CoGet, HasNode, NodesOf;
      SameNodes(a, ra, b, rb, k - 1);
      NodesStep(a, ra, b, rb, k - 1);
    }
  }

  lemma NodesStep(a: Row, ra: Record, b: Row, rb: Record, k: nat)
    requires SameRow(a, ra, b, rb) && k < |a.toks| && NodesMatch(a, NodesOf(a, ra.occ, k), b, NodesOf(b, rb.occ, k))
    ensures NodesMatch(a, NodesOf(a, ra.occ, k + 1), b, NodesOf(b, rb.occ, k + 1))
  {
    var na, nb := NodesOf(a, ra.occ, k), NodesOf(b, rb.occ, k);
    assert ra.occ[a.ids[k]] == rb.occ[b.ids[k]];
    hide HasNode, NodesMatch, CoGet;
    MatchHas(a, ra, na, b, rb, nb, k);
    MatchMore(a, na, b, nb, k);
  }

  lemma MatchMore(a: Row, na: seq<Node>, b: Row, nb: seq<Node>, k: nat)
    requires NodesMatch(a, na, b, nb) && k < |a.toks|
    ensures NodesMatch(a, na + [Node(a.toks[k], a.ids[k])], b, nb + [Node(b.toks[k], b.ids[k])])
  {
    var x, y := Node(a.toks[k], a.ids[k]), Node(b.toks[k], b.ids[k]);
    var na', nb' := na + [x], nb + [y];
    assert |b.toks| == |a.toks|;
    assert NodesAtPosition(a, x, b, y, k);
    assert SamePosition(a, x, b, y);
    hide SamePosition;
    forall i | 0 <= i < |na'| ensures SamePosition(a, na'[i], b, nb'[i]) {
      if i < |na| {
        assert SamePosition(a, na[i], b, nb[i]);
      }
    }
  }

  lemma SameEdge(a: Row, ra: Record, na: seq<Node>, b: Row, rb: Record, nb: seq<Node>, threshold: real, u: nat, v: nat)
    requires SameRow(a, ra, b, rb) && NodesMatch(a, na, b, nb) && NodesIn(na, ra) && NodesIn(nb, rb)
    requires u < |na| && v < |na|
    ensures HasEdge(na, ra, threshold, u, v) == HasEdge(nb, rb, threshold, u, v)
  {
    hide CoGet;
    assert SamePosition(a, na[u], b, nb[u]) && SamePosition(a, na[v], b, nb[v]);
    var j :| NodesAtPosition(a, na[u], b, nb[u], j);
    var k :| NodesAtPosition(a, na[v], b, nb[v], k);
  }

  lemma {:induction false} SameOut(a: Row, ra: Record, na: seq<Node>, b: Row, rb: Record, nb: seq<Node>, threshold: real,
      u: nat, k: nat)
    requires SameRow(a, ra, b, rb) && NodesMatch(a, na, b, nb) && NodesIn(na, ra) && NodesIn(nb, rb)
    requires u < |na| && k <= |na|
    ensures OutEdges(na, ra, threshold, u, k) == OutEdges(nb, rb, threshold, u, k)
  {
    hide SameRow, HasEdge;
    assert |na| == |nb|;
    if k > 0 {
      SameOut(a, ra, na, b, rb, nb, threshold, u, k - 1);
      SameEdge(a, ra, na, b, rb, nb, threshold, u, k - 1);
    }
  }

  lemma SameGraph(a: Row, ra: Record, na: seq<Node>, b: Row, rb: Record, nb: seq<Node>, threshold: real)
    requires SameRow(a, ra, b, rb) && NodesMatch(a, na, b, nb) && NodesIn(na, ra) && NodesIn(nb, rb)
    ensures EdgesOf(na, ra, threshold) == EdgesOf(nb, rb, threshold)
  {
    hide SameRow, OutEdges;
    assert |na| == |nb|;
    forall u | 0 <= u < |na| ensures OutEdges(na, ra, threshold, u, |na|) == OutEdges(nb, rb, threshold, u, |nb|) {
      SameOut(a, ra, na, b, rb, nb, threshold, u, |na|);
    }
  }

  lemma SameSpec(a: Row, ra: Record, b: Row, rb: Record, threshold: real)
    requires RowOk(a, |ra.occ|) && RowOk(b, |rb.occ|) && a.toks == b.toks && |RowNodes(a, ra)| == |RowNodes(b, rb)|
    requires forall i :: 0 <= i < |RowNodes(a, ra)| ==> RowNodes(a, ra)[i].tok == RowNodes(b, rb)[i].tok
    requires EdgesOf(RowNodes(a, ra), ra, threshold) == EdgesOf(RowNodes(b, rb), rb, threshold)
    ensures AnchorSpec(a, ra, threshold) == AnchorSpec(b, rb, threshold)
  {
    hide RowNodes, LargestSpec, EdgesOf, OfKind, RowOk, NodesIn;
  }

  lemma MatchingNodes(a: Row, ra: Record, b: Row, rb: Record)
    requires SameRow(a, ra, b, rb)
    ensures RowOk(a, |ra.occ|) && RowOk(b, |rb.occ|) && a.toks == b.toks
    ensures NodesMatch(a, RowNodes(a, ra), b, RowNodes(b, rb))
  {
    SameNodes(a, ra, b, rb, |a.toks|);
    hide NodesOf, NodesMatch;
  }

  /** Rows with the same tokens and the same counts have the same anchors. */
  lemma SameRowAnchors(a: Row, ra: Record, b: Row, rb: Record, threshold: real)
    requires SameRow(a, ra, b, rb)
    ensures AnchorSpec(a, ra, threshold) == AnchorSpec(b, rb, threshold)
  {
    hide *;
    MatchingNodes(a, ra, b, rb);
    SameGraph(a, ra, RowNodes(a, ra), b, rb, RowNodes(b, rb), threshold);
    SameNodeTokens(a, RowNodes(a, ra), b, RowNodes(b, rb));
    SameSpec(a, ra, b, rb, threshold);
  }

  lemma SameNodeTokens(a: Row, na: seq<Node>, b: Row, nb: seq<Node>)
    requires NodesMatch(a, na, b, nb) && a.toks == b.toks
    ensures |na| == |nb| && forall i :: 0 <= i < |na| ==> na[i].tok == nb[i].tok
  {
    forall i | 0 <= i < |na| ensures na[i].tok == nb[i].tok {
      assert SamePosition(a, na[i], b, nb[i]);
      var j :| NodesAtPosition(a, na[i], b, nb[i], j);
    }
  }

  /** Two tokens of one message are counted alike in both runs. */
  lemma TokensAgree(cfg: Config, a: seq<Str>, b: seq<Str>, ra: Run, rb: Run, x: Row, y: Row, r: nat, q: nat, u: nat,
      v: nat)
    requires ConfigOk(cfg) && PrimaryOk(cfg, a, ra) && PrimaryOk(cfg, b, rb) && multiset(a) == multiset(b)
    requires r < |ra.rows| && x == ra.rows[r] && q < |rb.rows| && y == rb.rows[q] && x.toks == y.toks
    requires RowOk(x, |ra.record.occ|) && RowOk(y, |rb.record.occ|) && u < |x.toks| && v < |x.toks|
    ensures x.ids[u] == x.ids[v] <==> y.ids[u] == y.ids[v]
    ensures ra.record.occ[x.ids[u]] == rb.record.occ[y.ids[u]]
    ensures CoGet(ra.record.co, x.ids[u], x.ids[v]) == CoGet(rb.record.co, y.ids[u], y.ids[v])
  {
    SameIds(cfg, a, ra, r, u, v);
    SameIds(cfg, b, rb, q, u, v);
    hide PrimaryOk, KeepsBoth, CoGet, CountIf;
    RecordCounts(cfg, a, ra, r, u, v);
    RecordCounts(cfg, b, rb, q, u, v);
    CountBag(a, b, KeepsBoth(cfg, x.toks[u].slice, x.toks[u].slice));
    CountBag(a, b, KeepsBoth(cfg, x.toks[u].slice, x.toks[v].slice));
  }

  lemma SameIds(cfg: Config, messages: seq<Str>, run: Run, r: nat, u: nat, v: nat)
    requires ConfigOk(cfg) && PrimaryOk(cfg, messages, run) && r < |run.rows|
    requires u < |run.rows[r].toks| && v < |run.rows[r].toks|
    ensures |run.rows[r].ids| == |run.rows[r].toks|
    ensures run.rows[r].ids[u] == run.rows[r].ids[v] <==> run.rows[r].toks[u].slice == run.rows[r].toks[v].slice
  {
    RunIsCounted(cfg, messages, run);
    hide PrimaryOk, Counts;
  }

  /** A row of one run and a row of a run over the reordered messages, of one message. */
  lemma RowsAgree(cfg: Config, a: seq<Str>, b: seq<Str>, ra: Run, rb: Run, i: nat, j: nat)
    requires ConfigOk(cfg) && PrimaryOk(cfg, a, ra) && PrimaryOk(cfg, b, rb) && multiset(a) == multiset(b)
    requires i < |a| && j < |b| && a[i] == b[j]
    ensures |ra.rowOf| == |a| && ra.rowOf[i] < |ra.rows| && |rb.rowOf| == |b| && rb.rowOf[j] < |rb.rows|
    ensures SameRow(ra.rows[ra.rowOf[i]], ra.record, rb.rows[rb.rowOf[j]], rb.record)
  {
    hide PrimaryOk, RowTokens, CoGet;
    RowIsMessage(cfg, a, ra, i);
    RowIsMessage(cfg, b, rb, j);
    var r, q := ra.rowOf[i], rb.rowOf[j];
    var x, y := ra.rows[r], rb.rows[q];
    forall u, v | 0 <= u < |x.toks| && 0 <= v < |x.toks|
      ensures x.ids[u] == x.ids[v] <==> y.ids[u] == y.ids[v]
      ensures ra.record.occ[x.ids[u]] == rb.record.occ[y.ids[u]]
      ensures CoGet(ra.record.co, x.ids[u], x.ids[v]) == CoGet(rb.record.co, y.ids[u], y.ids[v])
    {
      TokensAgree(cfg, a, b, ra, rb, x, y, r, q, u, v);
    }
  }

  /** Reordering the messages leaves their anchors as they are. */
  lemma SameMessageAnchors(cfg: Config, a: seq<Str>, b: seq<Str>, ra: Run, rb: Run, i: nat, j: nat)
    requires ConfigOk(cfg) && PrimaryOk(cfg, a, ra) && PrimaryOk(cfg, b, rb) && multiset(a) == multiset(b)
    requires i < |a| && j < |b| && a[i] == b[j]
    ensures |ra.rowOf| == |a| && |rb.rowOf| == |b| && AnchorsAt(cfg, ra, i) == AnchorsAt(cfg, rb, j)
  {
    RunSizes(cfg, a, ra);
    RunSizes(cfg, b, rb);
    hide SameRow, AnchorSpec, RowTokens, Counts, Deduped, GroupsOk, InternerOk;
    RowsAgree(cfg, a, b, ra, rb, i, j);
    RowIsMessage(cfg, a, ra, i);
    RowIsMessage(cfg, b, rb, j);
    SameRowAnchors(ra.rows[ra.rowOf[i]], ra.record, rb.rows[rb.rowOf[j]], rb.record, cfg.threshold);
  }

  // ---------------------------------------------------------------- clusters

  /** Anchor sets of two runs: every one of either run is one of the other. */
  ghost predicate SameSets(sa: seq<set<Token>>, sb: seq<set<Token>>) {
    forall x :: x in sa <==> x in sb
  }

  lemma SetsAgree(cfg: Config, a: seq<Str>, b: seq<Str>, ra: Run, rb: Run)
    requires ConfigOk(cfg) && PrimaryOk(cfg, a, ra) && PrimaryOk(cfg, b, rb) && multiset(a) == multiset(b)
    ensures RowsOk(ra.rows, |ra.record.occ|) && RowsOk(rb.rows, |rb.record.occ|)
    ensures forall x :: x in RunSets(cfg, ra) ==> x in RunSets(cfg, rb)
  {
    RunSizes(cfg, a, ra);
    RunSizes(cfg, b, rb);
    hide AnchorSets, RowTokens, Counts, Deduped, GroupsOk, InternerOk;
    forall x | x in RunSets(cfg, ra) ensures x in RunSets(cfg, rb) {
      var r: nat :| r < |RunSets(cfg, ra)| && RunSets(cfg, ra)[r] == x;
      var i := MessageOfRow(a, ra.rowOf, ra.unique, ra.counts, r);
      assert a[i] in multiset(b);
      var j: nat :| j < |b| && b[j] == a[i];
      SameMessageAnchors(cfg, a, b, ra, rb, i, j);
      assert AnchorsAt(cfg, rb, j) == RunSets(cfg, rb)[rb.rowOf[j]];
    }
  }

  /** The groups of two runs have the same keys, in the same places. */
  lemma GroupKeysIn(ga: seq<Group>, sa: seq<set<Token>>, rowOfA: seq<nat>, gb: seq<Group>, sb: seq<set<Token>>,
      rowOfB: seq<nat>)
    requires RowsBelow(rowOfA, |sa|) && GroupsOk(ga, sa, rowOfA) && RowsBelow(rowOfB, |sb|) && GroupsOk(gb, sb, rowOfB)
    requires forall x :: x in sa ==> x in sb
    ensures Elements(KeysOfGroups(ga)) <= Elements(KeysOfGroups(gb))
  {
    hide KeyOfSet;
    forall key | key in Elements(KeysOfGroups(ga)) ensures key in Elements(KeysOfGroups(gb)) {
      var i :| 0 <= i < |ga| && KeysOfGroups(ga)[i] == key;
      GroupKeyOccurs(ga[i], sa, rowOfA);
      var x := sa[ga[i].rows[0]];
      assert x in sa;
      var r :| 0 <= r < |sb| && sb[r] == x;
      assert HasKey(gb, KeyOfSet(sb[r]));
      var j :| 0 <= j < |gb| && gb[j].key == key;
      assert KeysOfGroups(gb)[j] == key;
    }
  }

  lemma SameGroupKeys(ga: seq<Group>, sa: seq<set<Token>>, rowOfA: seq<nat>, gb: seq<Group>, sb: seq<set<Token>>,
      rowOfB: seq<nat>)
    requires RowsBelow(rowOfA, |sa|) && GroupsOk(ga, sa, rowOfA) && RowsBelow(rowOfB, |sb|) && GroupsOk(gb, sb, rowOfB)
    requires SameSets(sa, sb)
    ensures |ga| == |gb| && forall g :: 0 <= g < |ga| ==> ga[g].key == gb[g].key
    ensures forall g :: 0 <= g < |ga| ==> (ga[g].anchors == [] <==> gb[g].anchors == [])
  {
    hide KeyOfSet, GroupUpTo;
    GroupKeysIn(ga, sa, rowOfA, gb, sb, rowOfB);
    GroupKeysIn(gb, sb, rowOfB, ga, sa, rowOfA);
    var ka, kb := KeysOfGroups(ga), KeysOfGroups(gb);
    LessStrOrders(Elements(ka));
    AscendingUnique<Str>(ka, kb, LessStr());
    assert |ka| == |ga| && |kb| == |gb|;
    forall g | 0 <= g < |ga| ensures ga[g].key == gb[g].key && (ga[g].anchors == [] <==> gb[g].anchors == []) {
      assert ka[g] == kb[g];
      GroupAnchors(ga[g], sa, rowOfA);
      GroupAnchors(gb[g], sb, rowOfB);
    }
  }

  lemma {:induction false} SameNextID(ga: seq<Group>, gb: seq<Group>, g: nat)
    requires |ga| == |gb| && g <= |ga| && forall h :: 0 <= h < |ga| ==> (ga[h].anchors == [] <==> gb[h].anchors == [])
    ensures NextID(ga, g) == NextID(gb, g)
  {
    if g > 0 {
      SameNextID(ga, gb, g - 1);
    }
  }

  /** The messages of a cluster. */
  ghost function Members(messages: seq<Str>, clusters: seq<int>, c: int): set<Str>
    requires |clusters| == |messages|
  {
    set h | 0 <= h < |messages| && clusters[h] == c :: messages[h]
  }

  lemma NumberOf(cfg: Config, messages: seq<Str>, run: Run, clusters: seq<int>, templates: seq<seq<Str>>,
      masks: seq<Str>, wantTemplates: bool, wantMasks: bool, i: nat) returns (g: nat)
    requires ConfigOk(cfg) && ParseOk(cfg, messages, run, clusters, templates, masks, wantTemplates, wantMasks)
    requires i < |messages|
    ensures |clusters| == |messages| == |run.rowOf| && g < |run.groups| && clusters[i] == Number(run.groups, g)
    ensures RowsOk(run.rows, |run.record.occ|) && RowsBelow(run.rowOf, |RunSets(cfg, run)|)
    ensures run.groups[g].key == KeyOfSet(AnchorsAt(cfg, run, i))
  {
    hide KeyOfSet, AnchorSets, GroupUpTo, TemplatesUpTo, MasksUpTo, CanRender, RichOk;
    RunSizes(cfg, messages, run);
    g := GroupOfMessage(run.groups, RunSets(cfg, run), run.rowOf, i);
  }

  lemma RunGroups(cfg: Config, messages: seq<Str>, run: Run)
    requires ConfigOk(cfg) && PrimaryOk(cfg, messages, run)
    ensures RowsOk(run.rows, |run.record.occ|) && RowsBelow(run.rowOf, |RunSets(cfg, run)|)
    ensures GroupsOk(run.groups, RunSets(cfg, run), run.rowOf)
  {
  }

  /** The groups of the two runs stand for the same keys. */
  lemma RunsGroupAlike(cfg: Config, a: seq<Str>, b: seq<Str>, ra: Run, rb: Run)
    requires ConfigOk(cfg) && PrimaryOk(cfg, a, ra) && PrimaryOk(cfg, b, rb) && multiset(a) == multiset(b)
    ensures |ra.groups| == |rb.groups|
    ensures forall g :: 0 <= g < |ra.groups| ==>
      ra.groups[g].key == rb.groups[g].key && (ra.groups[g].anchors == [] <==> rb.groups[g].anchors == [])
  {
    hide PrimaryOk, GroupsOk, RunSets, RowsBelow;
    RunGroups(cfg, a, ra);
    RunGroups(cfg, b, rb);
    SetsAgree(cfg, a, b, ra, rb);
    SetsAgree(cfg, b, a, rb, ra);
    SameGroupKeys(ra.groups, RunSets(cfg, ra), ra.rowOf, rb.groups, RunSets(cfg, rb), rb.rowOf);
  }

  /** Message i of one corpus and the same message, j, of the reordered one have the same cluster id. */
  lemma SameID(cfg: Config, a: seq<Str>, b: seq<Str>, ra: Run, rb: Run,
      ca: seq<int>, ta: seq<seq<Str>>, ma: seq<Str>, cb: seq<int>, tb: seq<seq<Str>>, mb: seq<Str>,
      wantTemplates: bool, wantMasks: bool, i: nat, j: nat)
    requires ConfigOk(cfg) && multiset(a) == multiset(b)
    requires ParseOk(cfg, a, ra, ca, ta, ma, wantTemplates, wantMasks)
    requires ParseOk(cfg, b, rb, cb, tb, mb, wantTemplates, wantMasks)
    requires i < |a| && j < |b| && a[i] == b[j]
    ensures |ca| == |a| && |cb| == |b| && ca[i] == cb[j]
  {
    assert PrimaryOk(cfg, a, ra) && PrimaryOk(cfg, b, rb);
    hide ParseOk, PrimaryOk, KeyOfSet, AnchorsAt, RunSets, RowsBelow, NextID;
    var g := NumberOf(cfg, a, ra, ca, ta, ma, wantTemplates, wantMasks, i);
    var h := NumberOf(cfg, b, rb, cb, tb, mb, wantTemplates, wantMasks, j);
    SameMessageAnchors(cfg, a, b, ra, rb, i, j);
    RunsGroupAlike(cfg, a, b, ra, rb);
    KeysAreDistinct(cfg, b, rb, g, h);
    SameNextID(ra.groups, rb.groups, g);
  }

  lemma KeysAreDistinct(cfg: Config, messages: seq<Str>, run: Run, g: nat, h: nat)
    requires ConfigOk(cfg) && PrimaryOk(cfg, messages, run) && g < |run.groups| && h < |run.groups|
    ensures run.groups[g].key == run.groups[h].key ==> g == h
  {
    hide KeyOfSet, AnchorSets;
    RunGroups(cfg, messages, run);
    KeysDiffer(run.groups, RunSets(cfg, run), run.rowOf, g, h);
  }

  /** The clusters have the same members. */
  lemma SameMembersOf(a: seq<Str>, b: seq<Str>, ca: seq<int>, cb: seq<int>, c: int)
    requires |ca| == |a| && |cb| == |b| && multiset(a) == multiset(b)
    requires forall i: nat, j: nat :: i < |a| && j < |b| && a[i] == b[j] ==> ca[i] == cb[j]
    ensures Members(a, ca, c) == Members(b, cb, c)
  {
    forall m ensures m in Members(a, ca, c) <==> m in Members(b, cb, c) {
      if m in Members(a, ca, c) {
        var i :| 0 <= i < |a| && ca[i] == c && a[i] == m;
        assert m in multiset(b);
        var j :| 0 <= j < |b| && b[j] == m;
      }
      if m in Members(b, cb, c) {
        var j :| 0 <= j < |b| && cb[j] == c && b[j] == m;
        assert m in multiset(a);
        var i :| 0 <= i < |a| && a[i] == m;
      }
    }
  }

  // --------------------------------------------- what a cluster's members give

  /** The slice is a literal of the cluster: a candidate of every member. */
  ghost predicate LiteralOf(cfg: Config, members: set<Str>, slice: Str)
    requires ConfigOk(cfg)
  {
    forall m :: m in members ==> CandidateIn(RichTokens(cfg, m), cfg.filter, slice)
  }

  ghost function MemberFlags(cfg: Config, members: set<Str>, msg: Str): (flags: seq<bool>)
    requires ConfigOk(cfg)
    ensures |flags| == |RichTokens(cfg, msg)|
  {
    var toks := RichTokens(cfg, msg);
    seq(|toks|, j requires 0 <= j < |toks| => LiteralOf(cfg, members, toks[j].slice))
  }

  /** The template that a member gives, from the cluster's members alone. */
  ghost function MemberTemplate(cfg: Config, members: set<Str>, msg: Str): Str
    requires ConfigOk(cfg)
  {
    Join(CutOf(SlicesOf(RichTokens(cfg, msg)), MemberFlags(cfg, members, msg)).parts)
  }

  ghost function MemberMask(cfg: Config, members: set<Str>, msg: Str): Str
    requires ConfigOk(cfg)
  {
    MaskOf(SlicesOf(RichTokens(cfg, msg)), MemberFlags(cfg, members, msg))
  }

  /** The rows of a group are the rich rows of the members. */
  ghost predicate RowsOfMembers(cfg: Config, rows: seq<Row>, ids: seq<nat>, members: set<Str>)
    requires ConfigOk(cfg)
  {
    && RowsBelow(ids, |rows|)
    && (forall r :: r in ids ==> IsMember(cfg, rows[r], members))
    && (forall m :: m in members ==> HasRow(cfg, rows, ids, m))
  }

  ghost predicate IsMember(cfg: Config, row: Row, members: set<Str>)
    requires ConfigOk(cfg)
  {
    exists m :: m in members && row.toks == RichTokens(cfg, m)
  }

  ghost predicate HasRow(cfg: Config, rows: seq<Row>, ids: seq<nat>, m: Str)
    requires ConfigOk(cfg)
  {
    exists r :: r in ids && r < |rows| && rows[r].toks == RichTokens(cfg, m)
  }

  lemma LiteralIsCommon(cfg: Config, rows: seq<Row>, ids: seq<nat>, members: set<Str>, r: nat, j: nat)
    requires ConfigOk(cfg) && Told(rows) && RowsOfMembers(cfg, rows, ids, members) && r < |rows| && j < |rows[r].toks|
    ensures |rows[r].ids| == |rows[r].toks|
    ensures CandidateOfAll(rows, ids, cfg.filter, rows[r].ids[j]) <==> LiteralOf(cfg, members, rows[r].toks[j].slice)
  {
    hide Candidates, CandidateIn, RowTokens, IsMember, HasRow;
    var id, slice := rows[r].ids[j], rows[r].toks[j].slice;
    if CandidateOfAll(rows, ids, cfg.filter, id) {
      forall m | m in members ensures CandidateIn(RichTokens(cfg, m), cfg.filter, slice) {
        var q := RowHaving(cfg, rows, ids, m);
        CandidateBySlice(rows, cfg.filter, r, j, q);
      }
    }
    if LiteralOf(cfg, members, slice) {
      forall q | q in ids ensures q < |rows| && |rows[q].ids| == |rows[q].toks| && id in Candidates(rows[q], cfg.filter) {
        var m := MemberBeing(cfg, rows[q], members);
        CandidateBySlice(rows, cfg.filter, r, j, q);
      }
    }
  }

  lemma RowHaving(cfg: Config, rows: seq<Row>, ids: seq<nat>, m: Str) returns (r: nat)
    requires ConfigOk(cfg) && HasRow(cfg, rows, ids, m)
    ensures r in ids && r < |rows| && rows[r].toks == RichTokens(cfg, m)
  {
    hide RowTokens;
    r :| r in ids && r < |rows| && rows[r].toks == RichTokens(cfg, m);
  }

  lemma MemberBeing(cfg: Config, row: Row, members: set<Str>) returns (m: Str)
    requires ConfigOk(cfg) && IsMember(cfg, row, members)
    ensures m in members && row.toks == RichTokens(cfg, m)
  {
    hide RowTokens;
    m :| m in members && row.toks == RichTokens(cfg, m);
  }

  lemma FlagFromMembers(cfg: Config, rows: seq<Row>, ids: seq<nat>, members: set<Str>, common: set<nat>, r: nat, j: nat)
    requires ConfigOk(cfg) && Told(rows) && RowsOfMembers(cfg, rows, ids, members) && ids != [] && RowsBelow(ids, |rows|)
    requires forall x :: 0 <= x < |ids| ==> |RowsAt(ids, rows)[x].toks| == |RowsAt(ids, rows)[x].ids|
    requires common == CommonIds(RowsAt(ids, rows), cfg.filter) && r < |rows| && j < |rows[r].toks|
    ensures |rows[r].toks| == |rows[r].ids|
    ensures rows[r].ids[j] in common <==> LiteralOf(cfg, members, rows[r].toks[j].slice)
  {
    hide CommonIds, CandidateOfAll, LiteralOf, RowsOfMembers, RowTokens;
    LiteralIsCommon(cfg, rows, ids, members, r, j);
    CommonToAll(rows, ids, cfg.filter, rows[r].ids[j]);
  }

  lemma FlagsFromMembers(cfg: Config, rows: seq<Row>, ids: seq<nat>, members: set<Str>, common: set<nat>, r: nat,
      msg: Str)
    requires ConfigOk(cfg) && Told(rows) && RowsOfMembers(cfg, rows, ids, members) && ids != [] && RowsBelow(ids, |rows|)
    requires forall x :: 0 <= x < |ids| ==> |RowsAt(ids, rows)[x].toks| == |RowsAt(ids, rows)[x].ids|
    requires common == CommonIds(RowsAt(ids, rows), cfg.filter)
    requires r < |rows| && rows[r].toks == RichTokens(cfg, msg)
    ensures |rows[r].toks| == |rows[r].ids|
    ensures FlagsOfRow(rows[r], common) == MemberFlags(cfg, members, msg)
    ensures Slices(rows[r]) == SlicesOf(RichTokens(cfg, msg))
  {
    assert |rows[r].toks| == |rows[r].ids|;
    hide CommonIds, LiteralOf, RowsOfMembers, Told, RowTokens;
    forall j | 0 <= j < |rows[r].toks|
      ensures rows[r].ids[j] in common <==> LiteralOf(cfg, members, rows[r].toks[j].slice)
    {
      FlagFromMembers(cfg, rows, ids, members, common, r, j);
    }
  }

  /** A row of the group renders as its message does from the members alone. */
  lemma RowFromMembers(cfg: Config, rows: seq<Row>, ids: seq<nat>, members: set<Str>, common: set<nat>, r: nat, msg: Str)
    requires ConfigOk(cfg) && Told(rows) && RowsOfMembers(cfg, rows, ids, members) && ids != [] && RowsBelow(ids, |rows|)
    requires forall x :: 0 <= x < |ids| ==> |RowsAt(ids, rows)[x].toks| == |RowsAt(ids, rows)[x].ids|
    requires common == CommonIds(RowsAt(ids, rows), cfg.filter)
    requires r < |rows| && rows[r].toks == RichTokens(cfg, msg)
    ensures |rows[r].toks| == |rows[r].ids|
    ensures RowTemplate(rows[r], common) == MemberTemplate(cfg, members, msg)
    ensures RowMask(rows[r], common) == MemberMask(cfg, members, msg)
  {
    FlagsFromMembers(cfg, rows, ids, members, common, r, msg);
    hide CommonIds, RowsOfMembers, Told, RowTokens, MemberFlags, FlagsOfRow, Slices, SlicesOf, CutOf, MaskOf, Join;
  }

  /** The group's rows, told by the messages of the cluster. */
  ghost predicate RowsByIndex(cfg: Config, messages: seq<Str>, clusters: seq<int>, rowOf: seq<nat>, rows: seq<Row>,
      ids: seq<nat>, i: nat)
    requires ConfigOk(cfg) && i < |messages| == |clusters|
  {
    && |rowOf| == |messages| && RowsBelow(ids, |rows|)
    && (forall h: nat :: h < |messages| ==> rowOf[h] < |rows| && rows[rowOf[h]].toks == RichTokens(cfg, messages[h]))
    && (forall r :: r in ids ==> exists h: nat :: h < |messages| && rowOf[h] == r && clusters[h] == clusters[i])
    && (forall h: nat :: h < |messages| && clusters[h] == clusters[i] ==> rowOf[h] in ids)
  }

  lemma IndexedAreMembers(cfg: Config, messages: seq<Str>, clusters: seq<int>, rowOf: seq<nat>, rows: seq<Row>,
      ids: seq<nat>, i: nat)
    requires ConfigOk(cfg) && i < |messages| == |clusters| && RowsByIndex(cfg, messages, clusters, rowOf, rows, ids, i)
    ensures RowsOfMembers(cfg, rows, ids, Members(messages, clusters, clusters[i]))
  {
    hide RowTokens, IsMember, HasRow;
    var members := Members(messages, clusters, clusters[i]);
    forall r | r in ids ensures IsMember(cfg, rows[r], members) {
      var h: nat :| h < |messages| && rowOf[h] == r && clusters[h] == clusters[i];
      assert messages[h] in members;
      ShowMember(cfg, rows[r], members, messages[h]);
    }
    forall m | m in members ensures HasRow(cfg, rows, ids, m) {
      var h: nat :| h < |messages| && clusters[h] == clusters[i] && messages[h] == m;
      ShowRow(cfg, rows, ids, m, rowOf[h]);
    }
  }

  lemma ShowMember(cfg: Config, row: Row, members: set<Str>, m: Str)
    requires ConfigOk(cfg) && m in members && row.toks == RichTokens(cfg, m)
    ensures IsMember(cfg, row, members)
  {
    hide RowTokens;
  }

  lemma ShowRow(cfg: Config, rows: seq<Row>, ids: seq<nat>, m: Str, r: nat)
    requires ConfigOk(cfg) && r in ids && r < |rows| && rows[r].toks == RichTokens(cfg, m)
    ensures HasRow(cfg, rows, ids, m)
  {
    hide RowTokens;
  }

  lemma RowsAreMembers(cfg: Config, messages: seq<Str>, run: Run, clusters: seq<int>, templates: seq<seq<Str>>,
      masks: seq<Str>, i: nat, g: nat)
    requires ConfigOk(cfg) && ParseOk(cfg, messages, run, clusters, templates, masks, true, true)
    requires i < |messages| == |clusters| && |run.rowOf| == |messages| && g < |run.groups|
    requires RowsBelow(run.rowOf, |RunSets(cfg, run)|) && RowsBelow(run.groups[g].rows, |run.richRows|)
    requires InGroup(run.groups, RunSets(cfg, run), run.rowOf, i, g)
    ensures RowsOfMembers(cfg, run.richRows, run.groups[g].rows, Members(messages, clusters, clusters[i]))
  {
    RichRowsAll(cfg, messages, run, clusters, templates, masks);
    hide *;
    GroupIsCluster(cfg, messages, run, clusters, templates, masks, i, g);
    IndexedRows(cfg, messages, clusters, run.rowOf, run.richRows, run.groups[g].rows, i);
    IndexedAreMembers(cfg, messages, clusters, run.rowOf, run.richRows, run.groups[g].rows, i);
  }

  lemma IndexedRows(cfg: Config, messages: seq<Str>, clusters: seq<int>, rowOf: seq<nat>, rows: seq<Row>,
      ids: seq<nat>, i: nat)
    requires ConfigOk(cfg) && i < |messages| == |clusters| && |rowOf| == |messages| && RowsBelow(ids, |rows|)
    requires forall h: nat :: h < |messages| ==> rowOf[h] < |rows| && rows[rowOf[h]].toks == RichTokens(cfg, messages[h])
    requires forall r :: r in ids ==> exists h: nat :: h < |messages| && rowOf[h] == r && clusters[h] == clusters[i]
    requires forall h: nat :: h < |messages| && clusters[h] == clusters[i] ==> rowOf[h] in ids
    ensures RowsByIndex(cfg, messages, clusters, rowOf, rows, ids, i)
  {
    hide RowTokens;
  }

  lemma RichRowsAll(cfg: Config, messages: seq<Str>, run: Run, clusters: seq<int>, templates: seq<seq<Str>>,
      masks: seq<Str>)
    requires ConfigOk(cfg) && ParseOk(cfg, messages, run, clusters, templates, masks, true, true)
    ensures |run.rowOf| == |messages|
    ensures forall h: nat :: h < |messages| ==>
      run.rowOf[h] < |run.richRows| && run.richRows[run.rowOf[h]].toks == RichTokens(cfg, messages[h])
  {
    assert PrimaryOk(cfg, messages, run) && RichOk(cfg, run);
    hide PrimaryOk, RichOk, RowTokens, ParseOk;
    forall h: nat | h < |messages|
      ensures run.rowOf[h] < |run.richRows| && run.richRows[run.rowOf[h]].toks == RichTokens(cfg, messages[h])
    {
      RichRowAt(cfg, messages, run, h);
    }
    if messages == [] {
      RunSizesOf(cfg, messages, run);
    } else {
      RichRowAt(cfg, messages, run, 0);
    }
  }

  lemma RunSizesOf(cfg: Config, messages: seq<Str>, run: Run)
    requires ConfigOk(cfg) && PrimaryOk(cfg, messages, run)
    ensures |run.rowOf| == |messages|
  {
    RunSizes(cfg, messages, run);
  }

  /** The templates of a group, from its members alone. */
  lemma GroupFromMembers(cfg: Config, run: Run, g: nat, members: set<Str>, common: set<nat>, out: seq<Str>)
    requires ConfigOk(cfg) && cfg.patternSample >= 1.0 && g < |run.groups| && Told(run.richRows)
    requires RowsOk(run.richRows, run.numIDs) && CanPick(run.groups[g], run.richRows, PolicyOf(cfg, run))
    requires RowsOfMembers(cfg, run.richRows, run.groups[g].rows, members)
    requires common == CommonOf(run.groups[g], run.richRows, PolicyOf(cfg, run), run.numIDs)
    requires TemplatesOfGroup(out, run.groups[g], run.richRows, PolicyOf(cfg, run), run.numIDs)
    ensures var ids := run.groups[g].rows;
      && ids != [] && RowsBelow(ids, |run.richRows|)
      && (forall x :: 0 <= x < |ids| ==> |RowsAt(ids, run.richRows)[x].toks| == |RowsAt(ids, run.richRows)[x].ids|)
      && common == CommonIds(RowsAt(ids, run.richRows), cfg.filter)
    ensures Ascending<Str>(LessStr(), out)
    ensures Elements(out) == set m | m in members :: MemberTemplate(cfg, members, m)
  {
    var ids, rows := run.groups[g].rows, run.richRows;
    AllRowsPicked(run.groups[g], rows, PolicyOf(cfg, run), run.numIDs);
    assert PatternRows(run.groups[g], rows, PolicyOf(cfg, run)) == RowsAt(ids, rows);
    assert Elements(out) == TemplateSet(RowsAt(ids, rows), common, |ids|);
    hide TemplatesOfGroup, CommonIds, CanPick, RowTemplate, MemberTemplate, RowTokens, Told, RowsOk, Ascending, CommonOf;
    hide Elements;
    TemplatesFromMembers(cfg, rows, ids, members, common);
  }

  lemma MemberOfRow(cfg: Config, rows: seq<Row>, ids: seq<nat>, members: set<Str>, x: nat) returns (m: Str)
    requires ConfigOk(cfg) && RowsOfMembers(cfg, rows, ids, members) && x < |ids| && RowsBelow(ids, |rows|)
    ensures m in members && rows[ids[x]].toks == RichTokens(cfg, m) && RowsAt(ids, rows)[x] == rows[ids[x]]
  {
    hide RowTokens, IsMember, HasRow;
    assert ids[x] in ids;
    m := MemberBeing(cfg, rows[ids[x]], members);
  }

  lemma RowOfMember(cfg: Config, rows: seq<Row>, ids: seq<nat>, members: set<Str>, m: Str) returns (x: nat)
    requires ConfigOk(cfg) && RowsOfMembers(cfg, rows, ids, members) && m in members && RowsBelow(ids, |rows|)
    ensures x < |ids| && rows[ids[x]].toks == RichTokens(cfg, m) && RowsAt(ids, rows)[x] == rows[ids[x]]
  {
    hide RowTokens, IsMember, HasRow;
    var r := RowHaving(cfg, rows, ids, m);
    x :| 0 <= x < |ids| && ids[x] == r;
  }

  lemma TemplatesFromMembers(cfg: Config, rows: seq<Row>, ids: seq<nat>, members: set<Str>, common: set<nat>)
    requires ConfigOk(cfg) && Told(rows) && RowsOfMembers(cfg, rows, ids, members) && ids != [] && RowsBelow(ids, |rows|)
    requires forall x :: 0 <= x < |ids| ==> |RowsAt(ids, rows)[x].toks| == |RowsAt(ids, rows)[x].ids|
    requires common == CommonIds(RowsAt(ids, rows), cfg.filter)
    ensures TemplateSet(RowsAt(ids, rows), common, |ids|) == set m | m in members :: MemberTemplate(cfg, members, m)
  {
    hide CommonIds, RowTemplate, MemberTemplate, RowTokens, Told, RowMask, MemberMask, RowsOfMembers;
    var picked := RowsAt(ids, rows);
    var left, right := TemplateSet(picked, common, |ids|), set m | m in members :: MemberTemplate(cfg, members, m);
    forall t | t in left ensures t in right {
      var x :| 0 <= x < |ids| && RowTemplate(picked[x], common) == t;
      var m := MemberOfRow(cfg, rows, ids, members, x);
      RowFromMembers(cfg, rows, ids, members, common, ids[x], m);
    }
    forall t | t in right ensures t in left {
      var m :| m in members && MemberTemplate(cfg, members, m) == t;
      var x := RowOfMember(cfg, rows, ids, members, m);
      RowFromMembers(cfg, rows, ids, members, common, ids[x], m);
      assert RowTemplate(picked[x], common) == t;
    }
  }

  /** With all rows used, a cluster's templates and its members' masks are functions of the set of
      its messages: a slice is literal iff it is a candidate of every member. */
  lemma ClusterFromMembers(cfg: Config, messages: seq<Str>, run: Run, clusters: seq<int>, templates: seq<seq<Str>>,
      masks: seq<Str>, i: nat)
    requires ConfigOk(cfg) && ParseOk(cfg, messages, run, clusters, templates, masks, true, true)
    requires i < |messages| && cfg.patternSample >= 1.0
    ensures |clusters| == |messages| == |masks|
    ensures clusters[i] == -1 ==> masks[i] == []
    ensures clusters[i] != -1 ==>
      var members := Members(messages, clusters, clusters[i]);
      && 0 <= clusters[i] < |templates| && masks[i] == MemberMask(cfg, members, messages[i])
      && Ascending<Str>(LessStr(), templates[clusters[i]])
      && Elements(templates[clusters[i]]) == set m | m in members :: MemberTemplate(cfg, members, m)
  {
    hide ParseOk, RowTokens, KeyOfSet, InGroup, CommonOf, RowsOk, Ascending, MemberMask, MemberTemplate, PatternIDs;
    var g, row, common := MaskOfMessage(cfg, messages, run, clusters, templates, masks, i);
    if clusters[i] != -1 {
      var members := Members(messages, clusters, clusters[i]);
      ParsedGroup(cfg, messages, run, clusters, templates, masks, g);
      RowsAreMembers(cfg, messages, run, clusters, templates, masks, i, g);
      hide Members, MaskOf;
      GroupFromMembers(cfg, run, g, members, common, templates[clusters[i]]);
      RowFromMembers(cfg, run.richRows, run.groups[g].rows, members, common, run.rowOf[i], messages[i]);
    }
  }

  lemma ParsedGroup(cfg: Config, messages: seq<Str>, run: Run, clusters: seq<int>, templates: seq<seq<Str>>,
      masks: seq<Str>, g: nat)
    requires ConfigOk(cfg) && ParseOk(cfg, messages, run, clusters, templates, masks, true, true)
    requires g < |run.groups| && run.groups[g].anchors != []
    ensures PrimaryOk(cfg, messages, run) && RichOk(cfg, run) && Told(run.richRows)
    ensures RowsOk(run.richRows, run.numIDs) && CanPick(run.groups[g], run.richRows, PolicyOf(cfg, run))
    ensures NextID(run.groups, g) < |templates|
    ensures TemplatesOfGroup(templates[NextID(run.groups, g)], run.groups[g], run.richRows, PolicyOf(cfg, run), run.numIDs)
  {
    hide PrimaryOk, TemplatesOfGroup, MasksUpTo, ClustersUpTo, Told;
    RichTold(cfg, messages, run);
    assert TemplatesAt(templates, run.groups, run.richRows, PolicyOf(cfg, run), run.numIDs, g);
  }

  // ------------------------------------------------------------ the theorem

  /** Templates of a cluster number in both runs. */
  lemma SameTemplatesAt(cfg: Config, a: seq<Str>, b: seq<Str>, ra: Run, rb: Run,
      ca: seq<int>, ta: seq<seq<Str>>, ma: seq<Str>, cb: seq<int>, tb: seq<seq<Str>>, mb: seq<Str>, i: nat, j: nat)
    requires ConfigOk(cfg) && multiset(a) == multiset(b) && cfg.patternSample >= 1.0
    requires ParseOk(cfg, a, ra, ca, ta, ma, true, true) && ParseOk(cfg, b, rb, cb, tb, mb, true, true)
    requires i < |a| && j < |b| && a[i] == b[j]
    ensures |ca| == |a| == |ma| && |cb| == |b| == |mb| && ca[i] == cb[j] && ma[i] == mb[j]
    ensures ca[i] != -1 ==> 0 <= ca[i] < |ta| && ca[i] < |tb| && ta[ca[i]] == tb[ca[i]]
  {
    hide ParseOk, Ascending, Elements, MemberMask, MemberTemplate, Members;
    ClusterFromMembers(cfg, a, ra, ca, ta, ma, i);
    ClusterFromMembers(cfg, b, rb, cb, tb, mb, j);
    forall h: nat, k: nat | h < |a| && k < |b| && a[h] == b[k] ensures ca[h] == cb[k] {
      SameID(cfg, a, b, ra, rb, ca, ta, ma, cb, tb, mb, true, true, h, k);
    }
    SameMembersOf(a, b, ca, cb, ca[i]);
    if ca[i] != -1 {
      LessStrOrders(Elements(ta[ca[i]]));
      AscendingUnique<Str>(ta[ca[i]], tb[ca[i]], LessStr());
    }
  }

  lemma MatchingMessage(a: seq<Str>, b: seq<Str>, i: nat) returns (j: nat)
    requires multiset(a) == multiset(b) && i < |a|
    ensures j < |b| && b[j] == a[i]
  {
    assert a[i] in multiset(b);
    j :| 0 <= j < |b| && b[j] == a[i];
  }

  lemma ClusterCount(cfg: Config, messages: seq<Str>, run: Run, clusters: seq<int>, templates: seq<seq<Str>>,
      masks: seq<Str>)
    requires ConfigOk(cfg) && ParseOk(cfg, messages, run, clusters, templates, masks, true, true)
    ensures |clusters| == |messages| && |templates| == NextID(run.groups, |run.groups|)
    ensures forall c: nat :: c < |templates| ==> c in clusters
  {
    hide AnchorSets, GroupsOk, KeyOfSet;
    ClustersOfMessages(cfg, messages, run, clusters, templates, masks, true, true);
  }

  /** Reordering the messages of a corpus, all rows used for patterns: every message keeps its cluster
      id and its mask, and the template lists are the same. */
  lemma ParseIgnoresOrder(cfg: Config, a: seq<Str>, b: seq<Str>, ra: Run, rb: Run,
      ca: seq<int>, ta: seq<seq<Str>>, ma: seq<Str>, cb: seq<int>, tb: seq<seq<Str>>, mb: seq<Str>)
    requires ConfigOk(cfg) && multiset(a) == multiset(b) && cfg.patternSample >= 1.0
    requires ParseOk(cfg, a, ra, ca, ta, ma, true, true) && ParseOk(cfg, b, rb, cb, tb, mb, true, true)
    ensures |ca| == |a| && |cb| == |b| && (a != [] ==> |ma| == |a| && |mb| == |b|) && ta == tb
    ensures forall i: nat, j: nat :: i < |a| && j < |b| && a[i] == b[j] ==>
      ca[i] == cb[j] && |ma| == |a| && |mb| == |b| && ma[i] == mb[j]
  {
    hide ParseOk;
    ClusterCount(cfg, a, ra, ca, ta, ma);
    ClusterCount(cfg, b, rb, cb, tb, mb);
    SameClusterCount(cfg, a, b, ra, rb, ca, ta, ma, cb, tb, mb);
    forall i: nat, j: nat | i < |a| && j < |b| && a[i] == b[j]
      ensures ca[i] == cb[j] && |ma| == |a| && |mb| == |b| && ma[i] == mb[j]
    {
      SameTemplatesAt(cfg, a, b, ra, rb, ca, ta, ma, cb, tb, mb, i, j);
    }
    forall c: nat | c < |ta| ensures ta[c] == tb[c] {
      assert c in ca;
      var i: nat :| i < |ca| && ca[i] == c;
      var j := MatchingMessage(a, b, i);
      SameTemplatesAt(cfg, a, b, ra, rb, ca, ta, ma, cb, tb, mb, i, j);
    }
    if a != [] {
      var j := MatchingMessage(a, b, 0);
    }
  }

  lemma SameClusterCount(cfg: Config, a: seq<Str>, b: seq<Str>, ra: Run, rb: Run,
      ca: seq<int>, ta: seq<seq<Str>>, ma: seq<Str>, cb: seq<int>, tb: seq<seq<Str>>, mb: seq<Str>)
    requires ConfigOk(cfg) && multiset(a) == multiset(b)
    requires ParseOk(cfg, a, ra, ca, ta, ma, true, true) && ParseOk(cfg, b, rb, cb, tb, mb, true, true)
    ensures NextID(ra.groups, |ra.groups|) == NextID(rb.groups, |rb.groups|)
  {
    assert PrimaryOk(cfg, a, ra) && PrimaryOk(cfg, b, rb);
    hide ParseOk, PrimaryOk;
    RunsGroupAlike(cfg, a, b, ra, rb);
    SameNextID(ra.groups, rb.groups, |ra.groups|);
  }
}
