/** What a parse makes of a corpus, read off its tokens: the anchors of tokens that always
    occur together, and masks and templates of a cluster with one pattern row. */
module Outcomes {
  import opened Bytes
  import opened Tokens
  import opened TokenRecord
  import opened Graph
  import opened Scc
  import opened Anchors
  import opened Dedup
  import opened Interner
  import opened Grouping
  import opened Clusters
  import opened Pieces
  import opened Sorting
  import opened Template
  import opened Tokenize
  import opened AnchorKey
  import opened Parser

  // ----------------------------------------------------- inseparable tokens

  /** A token with this slice takes part in scoring. */
  ghost predicate KeptIn(toks: seq<Token>, f: StaticFilter, slice: Str) {
    exists j :: 0 <= j < |toks| && toks[j].slice == slice && Keeps(f, toks[j])
  }

  /** Some list of tokens keeps the slice. */
  ghost predicate Kept(all: seq<seq<Token>>, f: StaticFilter, slice: Str) {
    exists h :: 0 <= h < |all| && KeptIn(all[h], f, slice)
  }

  /** A list that keeps one of the two slices keeps the other as well. */
  ghost predicate Together(all: seq<seq<Token>>, f: StaticFilter, a: Str, b: Str) {
    forall h :: 0 <= h < |all| ==> (KeptIn(all[h], f, a) <==> KeptIn(all[h], f, b))
  }

  /** The kept slices among toks always occur together. */
  ghost predicate Inseparable(all: seq<seq<Token>>, f: StaticFilter, toks: seq<Token>) {
    forall a: Token, b: Token :: a in toks && b in toks && Kept(all, f, a.slice) && Kept(all, f, b.slice) ==>
      Together(all, f, a.slice, b.slice)
  }

  /** The slice of a token tells its kind. */
  ghost predicate Unambiguous(toks: seq<Token>) {
    forall a: Token, b: Token :: a in toks && b in toks && a.slice == b.slice ==> a == b
  }

  ghost function KeptTokens(all: seq<seq<Token>>, f: StaticFilter, toks: seq<Token>): set<Token> {
    set tok | tok in toks && Kept(all, f, tok.slice)
  }

  /** Ids tell slices. */
  ghost predicate Told(rows: seq<Row>) {
    && (forall r :: 0 <= r < |rows| ==> |rows[r].ids| == |rows[r].toks|)
    && (forall p, q, j, k :: 0 <= p < |rows| && 0 <= q < |rows| && 0 <= j < |rows[p].toks| && 0 <= k < |rows[q].toks| ==>
          (rows[p].ids[j] == rows[q].ids[k] <==> rows[p].toks[j].slice == rows[q].toks[k].slice))
  }

  /** Row h counts for the id of a token iff it keeps the token's slice. */
  lemma CountsForSlice(rows: seq<Row>, f: StaticFilter, r: nat, j: nat, h: nat)
    requires Told(rows) && r < |rows| && h < |rows| && j < |rows[r].toks|
    ensures |rows[r].ids| == |rows[r].toks|
    ensures HasId(rows, f, rows[r].ids[j])(h) <==> KeptIn(TokensOfRows(rows)[h], f, rows[r].toks[j].slice)
  {
    var slice := rows[r].toks[j].slice;
    if KeptIn(rows[h].toks, f, slice) {
      var k :| 0 <= k < |rows[h].toks| && rows[h].toks[k].slice == slice && Keeps(f, rows[h].toks[k]);
      assert rows[h].ids[k] == rows[r].ids[j];
      assert rows[h].ids[k] in KeptIds(rows[h], f);
    }
  }

  lemma {:induction false} WeightedWitness(weights: seq<nat>, k: nat, p: nat -> bool) returns (r: nat)
    requires k <= |weights| && Weighted(weights, k, p) > 0
    ensures r < k && p(r)
  {
    if p(k - 1) {
      r := k - 1;
    } else {
      r := WeightedWitness(weights, k - 1, p);
    }
  }

  lemma {:induction false} WeightedSame(weights: seq<nat>, k: nat, p: nat -> bool, q: nat -> bool)
    requires k <= |weights| && forall r: nat :: r < k ==> p(r) == q(r)
    ensures Weighted(weights, k, p) == Weighted(weights, k, q)
  {
    if k > 0 {
      WeightedSame(weights, k - 1, p, q);
    }
  }

  /** The rows have been counted, each at least once. */
  ghost predicate Counted(record: Record, rows: seq<Row>, weights: seq<nat>, f: StaticFilter) {
    && Told(rows) && RowsOk(rows, |record.occ|) && |weights| == |rows|
    && Counts(record, rows, weights, f, |record.occ|, |weights|)
    && forall r :: 0 <= r < |weights| ==> weights[r] > 0
  }

  /** A token is a node iff some row keeps its slice. */
  lemma OccursIffKept(record: Record, rows: seq<Row>, weights: seq<nat>, f: StaticFilter, r: nat, j: nat)
    requires Counted(record, rows, weights, f) && r < |rows| && j < |rows[r].toks|
    ensures RowOk(rows[r], |record.occ|)
    ensures record.occ[rows[r].ids[j]] > 0 <==> Kept(TokensOfRows(rows), f, rows[r].toks[j].slice)
  {
    assert RowOk(rows[r], |record.occ|);
    var id := rows[r].ids[j];
    assert record.occ[id] == Weighted(weights, |weights|, HasId(rows, f, id));
    hide HasId, KeptIn, Told, RowsOk;
    if record.occ[id] > 0 {
      var h := WeightedWitness(weights, |weights|, HasId(rows, f, id));
      CountsForSlice(rows, f, r, j, h);
    }
    if h :| 0 <= h < |rows| && KeptIn(TokensOfRows(rows)[h], f, rows[r].toks[j].slice) {
      CountsForSlice(rows, f, r, j, h);
      WeightedPositive(weights, |weights|, HasId(rows, f, id), h);
    }
  }

  /** Two slices that always occur together co-occur as often as either occurs. */
  lemma TogetherCounts(record: Record, rows: seq<Row>, weights: seq<nat>, f: StaticFilter, r: nat, j: nat, k: nat)
    requires Counted(record, rows, weights, f) && r < |rows| && j < |rows[r].toks| && k < |rows[r].toks|
    requires |rows[r].ids| == |rows[r].toks| && rows[r].ids[j] != rows[r].ids[k]
    requires Together(TokensOfRows(rows), f, rows[r].toks[j].slice, rows[r].toks[k].slice)
    ensures RowOk(rows[r], |record.occ|)
    ensures CoGet(record.co, rows[r].ids[j], rows[r].ids[k]) == record.occ[rows[r].ids[j]]
  {
    assert RowOk(rows[r], |record.occ|);
    var a, b := rows[r].ids[j], rows[r].ids[k];
    forall h: nat | h < |weights| ensures HasBoth(rows, f, a, b)(h) == HasId(rows, f, a)(h) {
      CountsForSlice(rows, f, r, j, h);
      CountsForSlice(rows, f, r, k, h);
    }
    WeightedSame(weights, |weights|, HasBoth(rows, f, a, b), HasId(rows, f, a));
  }

  lemma NodeIsKept(record: Record, rows: seq<Row>, weights: seq<nat>, f: StaticFilter, r: nat, i: nat) returns (j: nat)
    requires Counted(record, rows, weights, f) && r < |rows| && RowOk(rows[r], |record.occ|)
    requires i < |RowNodes(rows[r], record)|
    ensures j < |rows[r].toks| && RowNodes(rows[r], record)[i] == Node(rows[r].toks[j], rows[r].ids[j])
    ensures Kept(TokensOfRows(rows), f, rows[r].toks[j].slice) && record.occ[rows[r].ids[j]] > 0
  {
    hide NodesOf, Counted;
    NodesExact(rows[r], record.occ, |rows[r].toks|);
    var node := RowNodes(rows[r], record)[i];
    assert IsNodeOf(rows[r], record.occ, |rows[r].toks|, node);
    j :| 0 <= j < |rows[r].toks| && node == Node(rows[r].toks[j], rows[r].ids[j]) && record.occ[rows[r].ids[j]] > 0;
    OccursIffKept(record, rows, weights, f, r, j);
  }

  /** Tokens of a row with one id are equal if slices tell kinds. */
  lemma SameIdSameToken(rows: seq<Row>, r: nat, j: nat, k: nat)
    requires Told(rows) && r < |rows| && Unambiguous(rows[r].toks) && j < |rows[r].toks| && k < |rows[r].toks|
    ensures |rows[r].ids| == |rows[r].toks|
    ensures rows[r].ids[j] == rows[r].ids[k] ==> rows[r].toks[j] == rows[r].toks[k]
  {
    assert rows[r].toks[j] in rows[r].toks && rows[r].toks[k] in rows[r].toks;
  }

  lemma KeptIsNode(record: Record, rows: seq<Row>, weights: seq<nat>, f: StaticFilter, r: nat, j: nat) returns (i: nat)
    requires Counted(record, rows, weights, f) && r < |rows| && RowOk(rows[r], |record.occ|) && Unambiguous(rows[r].toks)
    requires j < |rows[r].toks| && Kept(TokensOfRows(rows), f, rows[r].toks[j].slice)
    ensures i < |RowNodes(rows[r], record)| && RowNodes(rows[r], record)[i].tok == rows[r].toks[j]
  {
    hide NodesOf, Unambiguous;
    OccursIffKept(record, rows, weights, f, r, j);
    NodesExact(rows[r], record.occ, |rows[r].toks|);
    var nodes := RowNodes(rows[r], record);
    assert HasNode(nodes, rows[r].ids[j], rows[r].toks[j].kind);
    i :| 0 <= i < |nodes| && nodes[i].id == rows[r].ids[j] && nodes[i].tok.kind == rows[r].toks[j].kind;
    var k := NodeIsKept(record, rows, weights, f, r, i);
    SameIdSameToken(rows, r, j, k);
  }

  /** Inseparable nodes are joined both ways, whatever the threshold below one. */
  lemma JoinedNodes(record: Record, rows: seq<Row>, weights: seq<nat>, f: StaticFilter, threshold: real, r: nat,
      a: nat, b: nat)
    requires Counted(record, rows, weights, f) && r < |rows| && RowOk(rows[r], |record.occ|) && Unambiguous(rows[r].toks)
    requires Inseparable(TokensOfRows(rows), f, rows[r].toks) && threshold < 1.0
    requires a < |RowNodes(rows[r], record)| && b < |RowNodes(rows[r], record)| && a != b
    ensures HasEdge(RowNodes(rows[r], record), record, threshold, a, b)
  {
    hide NodesOf, Unambiguous, Together, Kept, HasEdge, CoGet, Told;
    var nodes := RowNodes(rows[r], record);
    var j := NodeIsKept(record, rows, weights, f, r, a);
    var k := NodeIsKept(record, rows, weights, f, r, b);
    SameIdSameToken(rows, r, j, k);
    NodesDiffer(rows[r], record, a, b);
    assert rows[r].toks[j] in rows[r].toks && rows[r].toks[k] in rows[r].toks;
    TogetherCounts(record, rows, weights, f, r, j, k);
    EdgeFrom(nodes, record, threshold, a, b);
  }

  lemma NodesDiffer(row: Row, record: Record, a: nat, b: nat)
    requires RowOk(row, |record.occ|) && a < |RowNodes(row, record)| && b < |RowNodes(row, record)| && a != b
    ensures var nodes := RowNodes(row, record); nodes[a].id != nodes[b].id || nodes[a].tok.kind != nodes[b].tok.kind
  {
    NodesExact(row, record.occ, |row.toks|);
    hide NodesOf;
    if b < a {
      NodesDiffer(row, record, b, a);
    }
  }

  lemma EdgeFrom(nodes: seq<Node>, record: Record, threshold: real, a: nat, b: nat)
    requires a < |nodes| && b < |nodes| && a != b && NodesIn(nodes, record) && threshold < 1.0
    requires CoGet(record.co, nodes[a].id, nodes[b].id) == record.occ[nodes[a].id] > 0
    ensures HasEdge(nodes, record, threshold, a, b)
  {
    hide CoGet;
    var n: nat := record.occ[nodes[a].id];
    BelowShare(n, threshold);
    assert CoGet(record.co, nodes[a].id, nodes[b].id) as real > n as real * threshold;
  }

  lemma BelowShare(n: nat, threshold: real)
    requires n > 0 && threshold < 1.0
    ensures n as real > n as real * threshold
  {
  }

  lemma LargestOf(g: Adj) returns (v: nat)
    requires WellFormed(g) && |g| > 0
    ensures v < |g| && LargestSpec(g) == Component(g, v)
  {
    LargestIsComponent(g);
    hide LargestSpec, ComponentsSpec;
    v :| v in LargestSpec(g) && LargestSpec(g) == Component(g, v);
  }

  lemma JoinedIsMutual(g: Adj, v: nat, x: nat)
    requires WellFormed(g) && v < |g| && x < |g| && (x != v ==> x in g[v] && v in g[x])
    ensures x in Component(g, v)
  {
    if x == v {
      ComponentSelf(g, v);
    } else {
      ReachEdge(g, {}, v, x);
      ReachEdge(g, {}, x, v);
    }
  }

  /** In a graph with all edges the largest component is everything. */
  lemma CompleteGraph(g: Adj)
    requires WellFormed(g) && |g| > 0
    requires forall u: nat, v: nat :: u < |g| && v < |g| && u != v ==> v in g[u]
    ensures LargestSpec(g) == Nodes(|g|)
  {
    var v := LargestOf(g);
    hide LargestSpec, Reach;
    forall x | x in Nodes(|g|) ensures x in Component(g, v) {
      JoinedIsMutual(g, v, x);
    }
  }

  lemma InseparableCore(record: Record, rows: seq<Row>, weights: seq<nat>, f: StaticFilter, threshold: real, r: nat)
    requires Counted(record, rows, weights, f) && r < |rows| && RowOk(rows[r], |record.occ|) && Unambiguous(rows[r].toks)
    requires Inseparable(TokensOfRows(rows), f, rows[r].toks) && threshold < 1.0
    requires RowNodes(rows[r], record) != []
    ensures Core(rows[r], record, threshold) == TokensAt(RowNodes(rows[r], record), Nodes(|RowNodes(rows[r], record)|))
  {
    hide Counted, Unambiguous, Inseparable, HasEdge, RowNodes, LargestSpec;
    var nodes := RowNodes(rows[r], record);
    var g := EdgesOf(nodes, record, threshold);
    EdgesTransposed(nodes, record, threshold);
    forall u: nat, v: nat | u < |g| && v < |g| && u != v ensures v in g[u] {
      JoinedNodes(record, rows, weights, f, threshold, r, u, v);
      OutEdgesExact(nodes, record, threshold, u, |nodes|, v);
    }
    CompleteGraph(g);
  }

  /** White special tokens are always kept. */
  lemma WhitesAreKept(all: seq<seq<Token>>, f: StaticFilter, r: nat)
    requires r < |all|
    ensures OfKind(all[r], SpecialWhite) <= KeptTokens(all, f, all[r])
  {
    forall tok | tok in OfKind(all[r], SpecialWhite) ensures tok in KeptTokens(all, f, all[r]) {
      var j :| 0 <= j < |all[r]| && all[r][j] == tok;
      assert KeptIn(all[r], f, tok.slice);
    }
  }

  /** The row's nodes are its kept tokens. */
  lemma NodeTokens(record: Record, rows: seq<Row>, weights: seq<nat>, f: StaticFilter, r: nat)
    requires Counted(record, rows, weights, f) && r < |rows| && RowOk(rows[r], |record.occ|) && Unambiguous(rows[r].toks)
    ensures var nodes := RowNodes(rows[r], record);
      TokensAt(nodes, Nodes(|nodes|)) == KeptTokens(TokensOfRows(rows), f, rows[r].toks)
  {
    hide Counted, RowNodes, Kept, Unambiguous;
    var row, nodes, all := rows[r], RowNodes(rows[r], record), TokensOfRows(rows);
    forall tok | tok in KeptTokens(all, f, row.toks) ensures tok in TokensAt(nodes, Nodes(|nodes|)) {
      var j :| 0 <= j < |row.toks| && row.toks[j] == tok;
      var i := KeptIsNode(record, rows, weights, f, r, j);
      assert nodes[i].tok == tok;
    }
    forall tok | tok in TokensAt(nodes, Nodes(|nodes|)) ensures tok in KeptTokens(all, f, row.toks) {
      var i :| i in Nodes(|nodes|) && i < |nodes| && nodes[i].tok == tok;
      var j := NodeIsKept(record, rows, weights, f, r, i);
    }
  }

  /** Kept tokens that always occur together are all anchors, the black special ones apart,
      whatever the threshold below one. */
  lemma InseparableRow(record: Record, rows: seq<Row>, weights: seq<nat>, f: StaticFilter, threshold: real, r: nat)
    requires Counted(record, rows, weights, f) && r < |rows| && RowOk(rows[r], |record.occ|) && Unambiguous(rows[r].toks)
    requires Inseparable(TokensOfRows(rows), f, rows[r].toks) && threshold < 1.0
    ensures AnchorSpec(rows[r], record, threshold)
         == KeptTokens(TokensOfRows(rows), f, rows[r].toks) - OfKind(rows[r].toks, SpecialBlack)
  {
    hide Counted, Inseparable, Core, RowNodes, Kept, KeptTokens, OfKind, Unambiguous;
    var nodes := RowNodes(rows[r], record);
    NodeTokens(record, rows, weights, f, r);
    WhitesAreKept(TokensOfRows(rows), f, r);
    if nodes != [] {
      InseparableCore(record, rows, weights, f, threshold, r);
    }
  }

  // -------------------------------------------------- the same about messages

  /** The primary tokens of each message. */
  ghost function TokenLists(cfg: Config, messages: seq<Str>): seq<seq<Token>>
    requires ConfigOk(cfg)
  {
    seq(|messages|, i requires 0 <= i < |messages| => RowTokens(cfg, cfg.symbols, messages[i]))
  }

  lemma SameMembers(a: seq<seq<Token>>, b: seq<seq<Token>>, f: StaticFilter, x: Str, y: Str)
    requires forall toks :: toks in a <==> toks in b
    ensures Kept(a, f, x) <==> Kept(b, f, x)
    ensures Together(a, f, x, y) <==> Together(b, f, x, y)
  {
    hide KeptIn;
    MembersKeep(a, b, f, x, y);
    MembersKeep(b, a, f, x, y);
  }

  lemma MembersKeep(a: seq<seq<Token>>, b: seq<seq<Token>>, f: StaticFilter, x: Str, y: Str)
    requires forall toks :: toks in a ==> toks in b
    ensures Kept(a, f, x) ==> Kept(b, f, x)
    ensures Together(b, f, x, y) ==> Together(a, f, x, y)
  {
    hide KeptIn;
    if h :| 0 <= h < |a| && KeptIn(a[h], f, x) {
      assert a[h] in a;
      var k :| 0 <= k < |b| && b[k] == a[h];
    }
    if Together(b, f, x, y) {
      forall h | 0 <= h < |a| ensures KeptIn(a[h], f, x) <==> KeptIn(a[h], f, y) {
        assert a[h] in a;
        var k :| 0 <= k < |b| && b[k] == a[h];
      }
    }
  }

  /** Rows and messages keep the same slices, together or apart. */
  lemma RowsAreMessages(cfg: Config, messages: seq<Str>, run: Run, f: StaticFilter, a: Str, b: Str)
    requires ConfigOk(cfg) && PrimaryOk(cfg, messages, run)
    ensures Kept(TokensOfRows(run.rows), f, a) <==> Kept(TokenLists(cfg, messages), f, a)
    ensures Together(TokensOfRows(run.rows), f, a, b) <==> Together(TokenLists(cfg, messages), f, a, b)
  {
    hide RowTokens, Kept, Together, GroupsOk, Counts, InternerOk, IdsFit, Deduped, RowsInterned, RowsOk;
    var all, lists := TokensOfRows(run.rows), TokenLists(cfg, messages);
    RunSizes(cfg, messages, run);
    forall toks | toks in lists ensures toks in all {
      var h :| 0 <= h < |lists| && lists[h] == toks;
      RowOfMessage(messages, run, h);
      assert all[run.rowOf[h]] == toks;
    }
    forall toks | toks in all ensures toks in lists {
      var u :| 0 <= u < |all| && all[u] == toks;
      var h := MessageOfRow(messages, run.rowOf, run.unique, run.counts, u);
      assert lists[h] == toks;
    }
    SameMembers(all, lists, f, a, b);
  }

  lemma RunIsCounted(cfg: Config, messages: seq<Str>, run: Run)
    requires ConfigOk(cfg) && PrimaryOk(cfg, messages, run)
    ensures Counted(run.record, run.rows, run.counts, cfg.filter)
  {
    hide RowTokens, GroupsOk;
    RunSizes(cfg, messages, run);
    TellRows(run.rows, run.interner);
  }

  lemma TellRows(rows: seq<Row>, m: map<Str, nat>)
    requires InternerOk(m) && RowsInterned(rows, m)
    ensures Told(rows)
  {
    forall p, q, j, k | 0 <= p < |rows| && 0 <= q < |rows| && 0 <= j < |rows[p].toks| && 0 <= k < |rows[q].toks|
      ensures |rows[p].ids| == |rows[p].toks| && |rows[q].ids| == |rows[q].toks|
      ensures rows[p].ids[j] == rows[q].ids[k] <==> rows[p].toks[j].slice == rows[q].toks[k].slice
    {
      IdsTellSlices(rows, m, p, q, j, k);
    }
    forall r | 0 <= r < |rows| ensures |rows[r].ids| == |rows[r].toks| {
      assert IdsFit(rows[r].ids, rows[r].toks, m);
    }
  }

  /** With a threshold below one, a message whose kept slices always occur together has exactly
      these as anchors, the black special tokens apart - none, if it keeps nothing. */
  lemma InseparableAnchors(cfg: Config, messages: seq<Str>, run: Run, i: nat)
    requires ConfigOk(cfg) && PrimaryOk(cfg, messages, run) && i < |messages| && cfg.threshold < 1.0
    requires Unambiguous(TokenLists(cfg, messages)[i])
    requires Inseparable(TokenLists(cfg, messages), cfg.filter, TokenLists(cfg, messages)[i])
    ensures |run.rowOf| == |messages|
    ensures AnchorsAt(cfg, run, i)
         == KeptTokens(TokenLists(cfg, messages), cfg.filter, TokenLists(cfg, messages)[i])
            - OfKind(TokenLists(cfg, messages)[i], SpecialBlack)
  {
    hide RowTokens, GroupsOk, Counts, InternerOk, IdsFit, Together, Kept, Unambiguous;
    RunSizes(cfg, messages, run);
    RunIsCounted(cfg, messages, run);
    hide Counted;
    RowOfMessage(messages, run, i);
    hide Deduped;
    var r := run.rowOf[i];
    var toks := TokenLists(cfg, messages)[i];
    assert RowOk(run.rows[r], run.numPrimary);
    assert TokensOfRows(run.rows)[r] == run.rows[r].toks == toks;
    forall a: Token, b: Token | a in toks && b in toks
      ensures Kept(TokensOfRows(run.rows), cfg.filter, a.slice) <==> Kept(TokenLists(cfg, messages), cfg.filter, a.slice)
      ensures Together(TokensOfRows(run.rows), cfg.filter, a.slice, b.slice)
         <==> Together(TokenLists(cfg, messages), cfg.filter, a.slice, b.slice)
    {
      RowsAreMessages(cfg, messages, run, cfg.filter, a.slice, b.slice);
    }
    hide TokenLists, TokensOfRows;
    InseparableRow(run.record, run.rows, run.counts, cfg.filter, cfg.threshold, r);
  }

  // ---------------------------------------------------------- rich rows

  /** A rich row: its message's rich tokens. */
  lemma RichRowAt(cfg: Config, messages: seq<Str>, run: Run, h: nat)
    requires ConfigOk(cfg) && PrimaryOk(cfg, messages, run) && RichOk(cfg, run) && h < |messages|
    ensures |run.rowOf| == |messages| && run.rowOf[h] < |run.richRows|
    ensures var row := run.richRows[run.rowOf[h]];
      |row.ids| == |row.toks| && row.toks == RichTokens(cfg, messages[h])
  {
    hide RowTokens, GroupsOk, InternerOk, IdsFit;
    RunSizes(cfg, messages, run);
    RowOfMessage(messages, run, h);
    assert TokensOfRows(run.richRows)[run.rowOf[h]] == run.richRows[run.rowOf[h]].toks;
    assert RowOk(run.richRows[run.rowOf[h]], run.numIDs);
  }

  lemma RichTold(cfg: Config, messages: seq<Str>, run: Run)
    requires ConfigOk(cfg) && PrimaryOk(cfg, messages, run) && RichOk(cfg, run)
    ensures Told(run.richRows)
  {
    hide Told;
    TellRows(run.richRows, run.interner);
  }

  // ---------------------------------------------------- one pattern row

  /** A slice that may become a literal occurs among the tokens. */
  ghost predicate CandidateIn(toks: seq<Token>, f: StaticFilter, slice: Str) {
    exists k :: 0 <= k < |toks| && toks[k].slice == slice && CommonCandidate(toks[k], f)
  }

  function SlicesOf(toks: seq<Token>): seq<Str> {
    seq(|toks|, j requires 0 <= j < |toks| => toks[j].slice)
  }

  ghost function LiteralFlags(toks: seq<Token>, pattern: seq<Token>, f: StaticFilter): seq<bool> {
    seq(|toks|, j requires 0 <= j < |toks| => CandidateIn(pattern, f, toks[j].slice))
  }

  /** The tokens cut at what a single pattern row makes literal. */
  ghost function CutBy(toks: seq<Token>, pattern: seq<Token>, f: StaticFilter): (c: Cut)
    ensures CutOk(c)
  {
    CutOf(SlicesOf(toks), LiteralFlags(toks, pattern, f))
  }

  /** A token's id is a candidate of a row iff the row has its slice as a candidate. */
  lemma CandidateBySlice(rows: seq<Row>, f: StaticFilter, r: nat, j: nat, q: nat)
    requires Told(rows) && r < |rows| && q < |rows| && j < |rows[r].toks|
    ensures |rows[r].ids| == |rows[r].toks| && |rows[q].ids| == |rows[q].toks|
    ensures rows[r].ids[j] in Candidates(rows[q], f) <==> CandidateIn(rows[q].toks, f, rows[r].toks[j].slice)
  {
    var row, pattern := rows[r], rows[q];
    if k :| 0 <= k < |pattern.toks| && pattern.toks[k].slice == row.toks[j].slice && CommonCandidate(pattern.toks[k], f) {
      assert pattern.ids[k] == row.ids[j];
    }
  }

  lemma CutByPattern(rows: seq<Row>, f: StaticFilter, r: nat, q: nat)
    requires Told(rows) && r < |rows| && q < |rows|
    ensures |rows[r].ids| == |rows[r].toks| && |rows[q].ids| == |rows[q].toks|
    ensures RowCut(rows[r], Candidates(rows[q], f)) == CutBy(rows[r].toks, rows[q].toks, f)
  {
    var row, pattern := rows[r], rows[q];
    hide CutOf, Candidates, CandidateIn;
    forall j | 0 <= j < |row.toks|
      ensures row.ids[j] in Candidates(pattern, f) <==> CandidateIn(pattern.toks, f, row.toks[j].slice)
    {
      CandidateBySlice(rows, f, r, j, q);
    }
    assert Slices(row) == SlicesOf(row.toks);
    assert FlagsOfRow(row, Candidates(pattern, f)) == LiteralFlags(row.toks, pattern.toks, f);
  }

  /** One pattern row: its candidates are common, and its template is the only one. */
  lemma OnePattern(g: Group, richRows: seq<Row>, p: Policy, n: nat, q: nat)
    requires CanPick(g, richRows, p) && RowsOk(richRows, n) && PatternIDs(g, p) == [q]
    ensures q < |richRows| && |richRows[q].toks| == |richRows[q].ids|
    ensures CommonOf(g, richRows, p, n) == Candidates(richRows[q], p.filter)
    ensures forall out :: TemplatesOfGroup(out, g, richRows, p, n) ==>
      out == [RowTemplate(richRows[q], Candidates(richRows[q], p.filter))]
  {
    hide Candidates, RowTemplate, PatternIDs, Ascending;
    PickedIDs(g, richRows, p);
    PatternsOk(g, richRows, p, n);
    assert PatternIDs(g, p)[0] == q;
    assert RowOk(richRows[q], n);
    var rows := PatternRows(g, richRows, p);
    assert rows == [richRows[q]];
    var common := CommonOf(g, richRows, p, n);
    forall out | TemplatesOfGroup(out, g, richRows, p, n) ensures out == [RowTemplate(richRows[q], common)] {
      OneTemplate(out, rows, common);
    }
  }

  lemma OneTemplate(out: seq<Str>, rows: seq<Row>, common: set<nat>)
    requires |rows| == 1 && |rows[0].toks| == |rows[0].ids| && ClusterTemplates(out, rows, common)
    ensures out == [RowTemplate(rows[0], common)]
  {
    hide RowTemplate;
    var x := RowTemplate(rows[0], common);
    assert TemplateSet(rows, common, 1) == {x};
    assert x in Elements(out) && Elements(out) == {x};
    assert forall i :: 0 <= i < |out| ==> out[i] in Elements(out);
    if |out| > 1 {
      LessTotal(out[0], out[1]);
    }
  }

  // ------------------------------------------------------- all pattern rows

  /** The id is a candidate of every row named. */
  ghost predicate CandidateOfAll(rows: seq<Row>, ids: seq<nat>, f: StaticFilter, id: nat) {
    forall q :: q in ids ==> q < |rows| && |rows[q].ids| == |rows[q].toks| && id in Candidates(rows[q], f)
  }

  lemma CommonToAll(rows: seq<Row>, ids: seq<nat>, f: StaticFilter, id: nat)
    requires Told(rows) && ids != [] && RowsBelow(ids, |rows|)
    ensures forall x :: 0 <= x < |ids| ==> |RowsAt(ids, rows)[x].toks| == |RowsAt(ids, rows)[x].ids|
    ensures id in CommonIds(RowsAt(ids, rows), f) <==> CandidateOfAll(rows, ids, f, id)
  {
    hide Candidates;
    var picked := RowsAt(ids, rows);
    CommonExact(picked, f, |picked|, id);
    assert forall x :: 0 <= x < |ids| ==> ids[x] in ids && picked[x] == rows[ids[x]];
    if forall x :: 0 <= x < |picked| ==> id in Candidates(picked[x], f) {
      forall q | q in ids ensures id in Candidates(rows[q], f) {
        var x :| 0 <= x < |ids| && ids[x] == q;
        assert picked[x] == rows[q];
      }
    }
  }

  /** With all rows used, the pattern rows of a group are its rows. */
  lemma AllRowsPicked(g: Group, richRows: seq<Row>, p: Policy, n: nat)
    requires CanPick(g, richRows, p) && RowsOk(richRows, n) && p.sample >= 1.0
    ensures g.rows != [] && RowsBelow(g.rows, |richRows|)
    ensures forall x :: 0 <= x < |g.rows| ==> |RowsAt(g.rows, richRows)[x].toks| == |RowsAt(g.rows, richRows)[x].ids|
    ensures CommonOf(g, richRows, p, n) == CommonIds(RowsAt(g.rows, richRows), p.filter)
  {
    PickedOk(g.rows, richRows, n);
    PatternsOk(g, richRows, p, n);
  }

  // ------------------------------------------------ which row that is

  lemma {:induction false} RowsWithOne(sets: seq<set<Token>>, k: nat, key: Str, r: nat)
    requires k <= |sets| && forall u: nat :: u < k ==> (KeyOfSet(sets[u]) == key <==> u == r)
    ensures RowsWith(sets, k, key) == if r < k then [r] else []
  {
    hide KeyOfSet;
    if k > 0 {
      RowsWithOne(sets, k - 1, key, r);
    }
  }

  lemma SameKeySameCluster(clusters: seq<int>, count: nat, sets: seq<set<Token>>, rowOf: seq<nat>, h: nat, i: nat)
    requires RowsBelow(rowOf, |sets|) && ClassesByKey(clusters, count, sets, rowOf) && h < |rowOf| && i < |rowOf|
    ensures |clusters| == |rowOf| && (KeyOfSet(sets[rowOf[h]]) == KeyOfSet(sets[rowOf[i]]) <==> clusters[h] == clusters[i])
  {
    assert KeyAt(sets, rowOf, h) == KeyAt(sets, rowOf, i) <==> clusters[h] == clusters[i];
  }

  /** In a cluster of copies of one message, that message's row is the only one with its key. */
  lemma SoleKey(cfg: Config, messages: seq<Str>, run: Run, clusters: seq<int>, templates: seq<seq<Str>>,
      masks: seq<Str>, i: nat, u: nat)
    requires ConfigOk(cfg) && ParseOk(cfg, messages, run, clusters, templates, masks, true, true)
    requires i < |messages| == |clusters| && |run.rowOf| == |messages| && u < |RunSets(cfg, run)|
    requires forall h: nat :: h < |messages| && clusters[h] == clusters[i] ==> messages[h] == messages[i]
    ensures run.rowOf[i] < |RunSets(cfg, run)|
    ensures KeyOfSet(RunSets(cfg, run)[u]) == KeyOfSet(RunSets(cfg, run)[run.rowOf[i]]) <==> u == run.rowOf[i]
  {
    hide KeyOfSet, TemplatesUpTo, MasksUpTo, ClustersUpTo, RowTokens, Counts, InternerOk, IdsFit, CanRender;
    hide RowsInterned, ClassesByKey, Tokenized, GroupsOk, AnchorSets;
    ClustersOfMessages(cfg, messages, run, clusters, templates, masks, true, true);
    RunSizes(cfg, messages, run);
    var h := MessageOfRow(messages, run.rowOf, run.unique, run.counts, u);
    SameKeySameCluster(clusters, NextID(run.groups, |run.groups|), RunSets(cfg, run), run.rowOf, h, i);
    SameRowIffEqual(messages, run.rowOf, run.unique, run.counts, h, i);
  }

  /** A cluster of copies of one message has one pattern row, when all rows are used. */
  lemma CopiesOnly(cfg: Config, messages: seq<Str>, run: Run, clusters: seq<int>, templates: seq<seq<Str>>,
      masks: seq<Str>, i: nat, g: nat)
    requires ConfigOk(cfg) && ParseOk(cfg, messages, run, clusters, templates, masks, true, true)
    requires i < |messages| == |clusters| && cfg.patternSample >= 1.0
    requires |run.rowOf| == |messages| && RowsBelow(run.rowOf, |RunSets(cfg, run)|)
    requires InGroup(run.groups, RunSets(cfg, run), run.rowOf, i, g) && g < |run.groups|
    requires RowsBelow(run.groups[g].indices, |run.rowOf|)
    requires forall h: nat :: h < |messages| && clusters[h] == clusters[i] ==> messages[h] == messages[i]
    ensures PatternIDs(run.groups[g], PolicyOf(cfg, run)) == [run.rowOf[i]]
  {
    hide KeyOfSet, AnchorSets;
    var sets := RunSets(cfg, run);
    forall u: nat | u < |sets| ensures KeyOfSet(sets[u]) == run.groups[g].key <==> u == run.rowOf[i] {
      SoleKey(cfg, messages, run, clusters, templates, masks, i, u);
    }
    RowsWithOne(sets, |sets|, run.groups[g].key, run.rowOf[i]);
    GroupRows(cfg, messages, run, clusters, templates, masks, g);
    hide ParseOk;
  }

  lemma GroupRows(cfg: Config, messages: seq<Str>, run: Run, clusters: seq<int>, templates: seq<seq<Str>>,
      masks: seq<Str>, g: nat)
    requires ConfigOk(cfg) && ParseOk(cfg, messages, run, clusters, templates, masks, true, true) && g < |run.groups|
    requires RowsBelow(run.rowOf, |RunSets(cfg, run)|)
    ensures run.groups[g].rows == RowsWith(RunSets(cfg, run), |RunSets(cfg, run)|, run.groups[g].key)
    ensures run.groups[g].indices == IndicesWith(RunSets(cfg, run), run.rowOf, |run.rowOf|, run.groups[g].key)
  {
    assert GroupUpTo(run.groups[g], RunSets(cfg, run), |RunSets(cfg, run)|, run.rowOf, |run.rowOf|);
  }

  /** The rows of message i's group are those of the messages of its cluster. */
  lemma GroupIsCluster(cfg: Config, messages: seq<Str>, run: Run, clusters: seq<int>, sets: seq<seq<Str>>,
      masks: seq<Str>, i: nat, g: nat)
    requires ConfigOk(cfg) && ParseOk(cfg, messages, run, clusters, sets, masks, true, true)
    requires i < |messages| == |clusters| && |run.rowOf| == |messages| && g < |run.groups|
    requires RowsBelow(run.rowOf, |RunSets(cfg, run)|)
    requires InGroup(run.groups, RunSets(cfg, run), run.rowOf, i, g)
    ensures forall r :: r in run.groups[g].rows ==>
      exists h: nat :: h < |messages| && run.rowOf[h] == r && clusters[h] == clusters[i]
    ensures forall h: nat :: h < |messages| && clusters[h] == clusters[i] ==> run.rowOf[h] in run.groups[g].rows
  {
    hide KeyOfSet, TemplatesUpTo, MasksUpTo, ClustersUpTo, RowTokens, Counts, InternerOk, CanRender;
    hide RowsInterned, ClassesByKey, Tokenized, GroupsOk, AnchorSets, RowsWith;
    RunSizes(cfg, messages, run);
    var anchors := RunSets(cfg, run);
    ClustersOfMessages(cfg, messages, run, clusters, sets, masks, true, true);
    GroupRows(cfg, messages, run, clusters, sets, masks, g);
    hide PrimaryOk, RichOk;
    forall r | r in run.groups[g].rows
      ensures exists h: nat :: h < |messages| && run.rowOf[h] == r && clusters[h] == clusters[i]
    {
      RowsWithExact(anchors, |anchors|, run.groups[g].key, r);
      var h := RowsMessage(cfg, messages, run, r);
      SameKeySameCluster(clusters, NextID(run.groups, |run.groups|), anchors, run.rowOf, h, i);
    }
    forall h: nat | h < |messages| && clusters[h] == clusters[i] ensures run.rowOf[h] in run.groups[g].rows {
      SameKeySameCluster(clusters, NextID(run.groups, |run.groups|), anchors, run.rowOf, h, i);
      RowsWithExact(anchors, |anchors|, run.groups[g].key, run.rowOf[h]);
    }
  }

  lemma RowsMessage(cfg: Config, messages: seq<Str>, run: Run, r: nat) returns (h: nat)
    requires ConfigOk(cfg) && PrimaryOk(cfg, messages, run) && r < |RunSets(cfg, run)|
    ensures h < |messages| == |run.rowOf| && run.rowOf[h] == r
  {
    RunSizes(cfg, messages, run);
    h := MessageOfRow(messages, run.rowOf, run.unique, run.counts, r);
  }

  // ------------------------------------------------------------- vocabularies

  function SliceSet(toks: seq<Token>): set<Str> {
    set tok | tok in toks :: tok.slice
  }

  /** Non-empty tokens have no more slices than their text has bytes. */
  lemma {:induction false} SlicesCounted(toks: seq<Token>)
    requires NoneEmpty(toks)
    ensures |SliceSet(toks)| <= |TextOf(toks)|
  {
    if toks == [] {
      assert SliceSet(toks) == {};
    } else {
      SlicesCounted(toks[1..]);
      assert SliceSet(toks) == {toks[0].slice} + SliceSet(toks[1..]);
    }
  }

  ghost function TotalBytes(messages: seq<Str>): nat {
    if messages == [] then 0 else TotalBytes(messages[..|messages| - 1]) + |messages[|messages| - 1]|
  }

  /** Every slice of either tokenization. */
  ghost function Vocabulary(cfg: Config, messages: seq<Str>): set<Str>
    requires ConfigOk(cfg)
  {
    if messages == [] then {}
    else
      var n := |messages| - 1;
      Vocabulary(cfg, messages[..n])
        + SliceSet(RowTokens(cfg, cfg.symbols, messages[n])) + SliceSet(RichTokens(cfg, messages[n]))
  }

  lemma RowVocabulary(cfg: Config, symbols: set<nat>, msg: Str)
    requires ConfigOk(cfg)
    ensures |SliceSet(RowTokens(cfg, symbols, msg))| <= |msg|
  {
    var t := AbstractLexer(cfg, symbols);
    hide TokensIn, TextOf, MessageLoses;
    TokenizeNoneEmpty(t, msg);
    TokenizeKeepsText(t, msg);
    SlicesCounted(RowTokens(cfg, symbols, msg));
  }

  lemma UnionSize(a: set<Str>, b: set<Str>)
    ensures |a + b| <= |a| + |b|
  {
    assert a + b == a + (b - a);
  }

  /** A corpus has at most two slices per byte. */
  lemma {:induction false} VocabularySize(cfg: Config, messages: seq<Str>)
    requires ConfigOk(cfg)
    ensures |Vocabulary(cfg, messages)| <= 2 * TotalBytes(messages)
  {
    if messages != [] {
      hide RowTokens;
      var n := |messages| - 1;
      VocabularySize(cfg, messages[..n]);
      RowVocabulary(cfg, cfg.symbols, messages[n]);
      RowVocabulary(cfg, AllPunctuation(), messages[n]);
      var a, b := SliceSet(RowTokens(cfg, cfg.symbols, messages[n])), SliceSet(RichTokens(cfg, messages[n]));
      UnionSize(Vocabulary(cfg, messages[..n]), a);
      UnionSize(Vocabulary(cfg, messages[..n]) + a, b);
    }
  }

  /** A corpus of no more than 2^31 bytes never exhausts the 32-bit ids. */
  lemma {:induction false} VocabularyCovers(cfg: Config, messages: seq<Str>)
    requires ConfigOk(cfg)
    ensures CoversSlices(cfg, messages, Vocabulary(cfg, messages))
    ensures 2 * TotalBytes(messages) <= UINT32 ==> |Vocabulary(cfg, messages)| <= UINT32
  {
    hide RowTokens;
    VocabularySize(cfg, messages);
    if messages != [] {
      var n := |messages| - 1;
      VocabularyCovers(cfg, messages[..n]);
      forall i | 0 <= i < n
        ensures SlicesIn(RowTokens(cfg, cfg.symbols, messages[i]), Vocabulary(cfg, messages))
        ensures SlicesIn(RichTokens(cfg, messages[i]), Vocabulary(cfg, messages))
      {
        assert messages[..n][i] == messages[i];
      }
      assert SlicesIn(RowTokens(cfg, cfg.symbols, messages[n]), SliceSet(RowTokens(cfg, cfg.symbols, messages[n])));
      assert SlicesIn(RichTokens(cfg, messages[n]), SliceSet(RichTokens(cfg, messages[n])));
    }
  }
}
