/** The anchors of a message in terms of the messages: the tokens of a component of the graph in
    which a slice depends on another when the messages that keep both are more than the threshold
    share of those that keep the first. */
module Dependencies {
  import opened Bytes
  import opened Tokens
  import opened TokenRecord
  import opened Graph
  import opened Scc
  import opened SearchOrder
  import opened Anchors
  import opened Outcomes
  import opened Reordering
  import opened Parser

  // ------------------------------------------------------------ two nodes

  /** Two nodes: both if each leads to the other, the first if it alone leads to the other, and
      otherwise the second. */
  lemma TwoNodes(g: Adj)
    requires WellFormed(g) && |g| == 2
    ensures LargestSpec(g) == if 1 in g[0] && 0 in g[1] then {0, 1} else if 1 in g[0] then {0} else {1}
  {
    assert Nodes(2) == {0, 1};
    if 1 in g[0] && 0 in g[1] {
      hide LargestSpec;
      CompleteGraph(g);
    } else {
      Apart(g);
      KeptOfTwo(g);
    }
  }

  /** An edge out of a node is the only way to leave it. */
  lemma NoWayOut(g: Adj, u: nat, v: nat)
    requires WellFormed(g) && |g| == 2 && u < 2 && v < 2 && u != v && v !in g[u]
    ensures !Reach(g, {}, u, v)
  {
    if Reach(g, {}, u, v) {
      assert Closed(g, {}, {u}) by {
        forall x | x in g[u] ensures x in {u} {
          var i :| 0 <= i < |g[u]| && g[u][i] == x;
        }
      }
      ReachStays(g, {}, {u}, u, v);
    }
  }

  /** Without an edge each way the two nodes are components of their own. */
  lemma Apart(g: Adj)
    requires WellFormed(g) && |g| == 2 && !(1 in g[0] && 0 in g[1])
    ensures Component(g, 0) == {0} && Component(g, 1) == {1}
  {
    if 1 !in g[0] { NoWayOut(g, 0, 1); } else { NoWayOut(g, 1, 0); }
    ComponentSelf(g, 0);
    ComponentSelf(g, 1);
    hide Reach;
  }

  lemma KeptOfTwo(g: Adj)
    requires WellFormed(g) && |g| == 2 && !(1 in g[0] && 0 in g[1])
    requires Component(g, 0) == {0} && Component(g, 1) == {1}
    ensures LargestSpec(g) == if 1 in g[0] then {0} else {1}
  {
    var c := LargestOf(g);
    assert LargestSpec(g) == {0} || LargestSpec(g) == {1};
    hide *;
    if 1 in g[0] {
      FirstOfOneTree(g);
    } else {
      SecondOfTwoTrees(g);
    }
  }

  /** If node 0 does not lead to node 1, node 1 has the greater leader, and is kept. */
  lemma SecondOfTwoTrees(g: Adj)
    requires WellFormed(g) && |g| == 2 && 1 !in g[0] && |Component(g, 1)| == |LargestSpec(g)|
    ensures 0 !in LargestSpec(g)
  {
    ReachRefl(g, {}, 0);
    ReachRefl(g, {}, 1);
    NoWayOut(g, 0, 1);
    assert Leads(g, 1, 1) && Leads(g, 0, 0);
    hide *;
    if 0 in LargestSpec(g) {
      GreatestLeaderIsKept(g, 0, 1, 0, 1);
    }
  }

  lemma NotBefore(g: Adj)
    requires WellFormed(g) && |g| == 2 && 1 in g[0]
    ensures !Before(g, [0, 1], {}, 0, 1)
  {
    ReachRefl(g, {}, 0);
    ReachEdge(g, {}, 0, 1);
    hide Reach;
    FirstIs(g, [0, 1], {}, 0, 0);
    FirstIs(g, [0, 1], {}, 1, 0);
  }

  /** If node 0 leads to node 1, it is finished last, and kept. */
  lemma FirstOfOneTree(g: Adj)
    requires WellFormed(g) && |g| == 2 && 1 in g[0] && |Component(g, 0)| == 1 && |LargestSpec(g)| == 1
    requires forall x :: x in LargestSpec(g) ==> x < 2
    ensures 0 in LargestSpec(g)
  {
    hide LargestSpec, Component, Before;
    if 0 !in LargestSpec(g) {
      var order := PostOrderSpec(g);
      PostOrderPermutes(g);
      assert 0 in ToSet(order) by { assert 0 in Nodes(2); }
      hide PostOrderSpec;
      var m: nat :| m < 2 && order[m] == 0;
      LastFinisherIsKept(g, m);
      var q :| m < q < 2 && order[q] in LargestSpec(g);
      NotBefore(g);
      PostOrderIs(g, [0, 1], m, q);
    }
  }

  // ------------------------------------------------------ nodes and edges

  /** tok stands first at position j. */
  ghost predicate FirstAt(toks: seq<Token>, tok: Token, j: int) {
    0 <= j < |toks| && toks[j] == tok && forall h :: 0 <= h < j ==> toks[h] != tok
  }

  /** tok stands below position k. */
  ghost predicate StandsBelow(toks: seq<Token>, tok: Token, k: nat)
    requires k <= |toks|
  {
    exists m :: 0 <= m < k && toks[m] == tok
  }

  /** The list holds each of the tokens once, in the order in which they first stand in the message. */
  ghost predicate Listed(list: seq<Token>, toks: seq<Token>, members: set<Token>) {
    && (forall tok :: tok in list <==> tok in members)
    && (forall p, q, j, k :: 0 <= p < q < |list| && FirstAt(toks, list[p], j) && FirstAt(toks, list[q], k) ==> j < k)
    && (forall p, q :: 0 <= p < q < |list| ==> list[p] != list[q])
  }

  /** How many messages keep both slices. */
  ghost function Keeping(cfg: Config, messages: seq<Str>, x: Str, y: Str): nat
    requires ConfigOk(cfg)
  {
    CountIf(messages, KeepsBoth(cfg, x, y))
  }

  /** x depends on y: the messages that keep both are some, and more than the threshold share of those
      that keep x. */
  ghost predicate Depends(cfg: Config, messages: seq<Str>, x: Str, y: Str)
    requires ConfigOk(cfg)
  {
    && x != y && Keeping(cfg, messages, x, y) > 0
    && Keeping(cfg, messages, x, y) as real > cfg.threshold * Keeping(cfg, messages, x, x) as real
  }

  function TokensOfNodes(nodes: seq<Node>): seq<Token> {
    seq(|nodes|, i requires 0 <= i < |nodes| => nodes[i].tok)
  }

  lemma FirstPosition(toks: seq<Token>, tok: Token) returns (j: nat)
    requires tok in toks
    ensures FirstAt(toks, tok, j)
  {
    j := 0;
    while toks[j] != tok
      invariant j < |toks| && forall h :: 0 <= h < j ==> toks[h] != tok
      decreases |toks| - j
    {
      j := j + 1;
    }
  }

  /** All nodes stand at positions below k. */
  ghost predicate NodesListed(nodes: seq<Node>, row: Row, k: nat)
    requires k <= |row.toks|
  {
    && (forall p :: 0 <= p < |nodes| ==> StandsBelow(row.toks, nodes[p].tok, k))
    && (forall p, q, j, l ::
          0 <= p < q < |nodes| && FirstAt(row.toks, nodes[p].tok, j) && FirstAt(row.toks, nodes[q].tok, l)
          ==> j < l)
    && (forall p, q :: 0 <= p < q < |nodes| ==> nodes[p].tok != nodes[q].tok)
  }

  /** Equal slices of a row have equal ids. */
  ghost predicate SharedIds(row: Row) {
    |row.ids| == |row.toks| &&
    forall j, k :: 0 <= j < |row.toks| && 0 <= k < |row.toks| ==>
      (row.ids[j] == row.ids[k] <==> row.toks[j].slice == row.toks[k].slice)
  }

  lemma ListMore(nodes: seq<Node>, row: Row, k: nat)
    requires k < |row.toks| == |row.ids| && NodesListed(nodes, row, k)
    ensures NodesListed(nodes, row, k + 1)
    ensures !StandsBelow(row.toks, row.toks[k], k) ==> NodesListed(nodes + [Node(row.toks[k], row.ids[k])], row, k + 1)
  {
    forall p | 0 <= p < |nodes| ensures StandsBelow(row.toks, nodes[p].tok, k + 1) {
      assert StandsBelow(row.toks, nodes[p].tok, k);
    }
    if !StandsBelow(row.toks, row.toks[k], k) {
      var more := nodes + [Node(row.toks[k], row.ids[k])];
      assert StandsBelow(row.toks, row.toks[k], k + 1);
      forall p, q, j, l
        | 0 <= p < q < |more| && FirstAt(row.toks, more[p].tok, j) && FirstAt(row.toks, more[q].tok, l)
        ensures j < l && more[p].tok != more[q].tok
      {
        assert more[p] == nodes[p] && StandsBelow(row.toks, nodes[p].tok, k);
      }
      forall p, q | 0 <= p < q < |more| ensures more[p].tok != more[q].tok {
        assert more[p] == nodes[p] && StandsBelow(row.toks, nodes[p].tok, k);
      }
    }
  }

  lemma {:induction false} NodesInOrder(row: Row, occ: seq<nat>, k: nat)
    requires RowOk(row, |occ|) && SharedIds(row) && k <= |row.toks|
    ensures NodesListed(NodesOf(row, occ, k), row, k)
  {
    if k > 0 {
      NodesInOrder(row, occ, k - 1);
      NewNodeIsNew(row, occ, k - 1);
      ListMore(NodesOf(row, occ, k - 1), row, k - 1);
      hide NodesListed, HasNode, SharedIds;
    }
  }

  /** A node is added for the first token of its kind and slice only. */
  lemma NewNodeIsNew(row: Row, occ: seq<nat>, k: nat)
    requires RowOk(row, |occ|) && SharedIds(row) && k < |row.toks|
    ensures occ[row.ids[k]] > 0 && !HasNode(NodesOf(row, occ, k), row.ids[k], row.toks[k].kind) ==>
      !StandsBelow(row.toks, row.toks[k], k)
  {
    NodesExact(row, occ, k);
    hide NodesOf, HasNode;
  }

  // ------------------------------------------------------------ the theorem

  /** The edges among the listed tokens: each token's dependencies, in ascending order. */
  ghost predicate DependencyGraph(cfg: Config, messages: seq<Str>, list: seq<Token>, g: Adj)
    requires ConfigOk(cfg)
  {
    |g| == |list| && forall u: nat :: u < |list| ==> Dependencies(cfg, messages, list, u, g[u])
  }

  ghost predicate Dependencies(cfg: Config, messages: seq<Str>, list: seq<Token>, u: nat, targets: seq<nat>)
    requires ConfigOk(cfg) && u < |list|
  {
    && (forall v: nat :: v in targets <==> v < |list| && Depends(cfg, messages, list[u].slice, list[v].slice))
    && (forall p, q :: 0 <= p < q < |targets| ==> targets[p] < targets[q])
  }

  /** The targets of a node's edges ascend. */
  lemma {:induction false} EdgesAscend(nodes: seq<Node>, record: Record, threshold: real, u: nat, k: nat)
    requires NodesIn(nodes, record) && u < |nodes| && k <= |nodes|
    ensures forall p, q :: 0 <= p < q < |OutEdges(nodes, record, threshold, u, k)| ==>
      OutEdges(nodes, record, threshold, u, k)[p] < OutEdges(nodes, record, threshold, u, k)[q]
    ensures forall p :: 0 <= p < |OutEdges(nodes, record, threshold, u, k)| ==>
      OutEdges(nodes, record, threshold, u, k)[p] < k
  {
    hide HasEdge;
    if k > 0 {
      EdgesAscend(nodes, record, threshold, u, k - 1);
    }
  }

  lemma RowShares(cfg: Config, messages: seq<Str>, run: Run, r: nat)
    requires ConfigOk(cfg) && PrimaryOk(cfg, messages, run) && r < |run.rows|
    ensures SharedIds(run.rows[r])
  {
    RunIsCounted(cfg, messages, run);
    hide PrimaryOk, Counts;
  }

  lemma EdgeCounts(cfg: Config, messages: seq<Str>, nodes: seq<Node>, record: Record, u: nat, v: nat)
    requires ConfigOk(cfg) && NodesIn(nodes, record) && u < |nodes| && v < |nodes|
    requires u == v <==> nodes[u].tok == nodes[v].tok
    requires record.occ[nodes[u].id] == Keeping(cfg, messages, nodes[u].tok.slice, nodes[u].tok.slice)
    requires CoGet(record.co, nodes[u].id, nodes[v].id)
      == if nodes[u].tok.slice == nodes[v].tok.slice then 0
         else Keeping(cfg, messages, nodes[u].tok.slice, nodes[v].tok.slice)
    ensures HasEdge(nodes, record, cfg.threshold, u, v) <==> Depends(cfg, messages, nodes[u].tok.slice, nodes[v].tok.slice)
  {
    hide CoGet, Keeping;
  }

  /** An edge between two nodes of a message is a dependency. */
  lemma EdgeIsDependency(cfg: Config, messages: seq<Str>, run: Run, r: nat, u: nat, v: nat)
    requires ConfigOk(cfg) && PrimaryOk(cfg, messages, run) && r < |run.rows| && RowOk(run.rows[r], |run.record.occ|)
    requires u < |RowNodes(run.rows[r], run.record)| && v < |RowNodes(run.rows[r], run.record)|
    requires u == v <==> RowNodes(run.rows[r], run.record)[u].tok == RowNodes(run.rows[r], run.record)[v].tok
    ensures var nodes := RowNodes(run.rows[r], run.record);
      HasEdge(nodes, run.record, cfg.threshold, u, v) <==> Depends(cfg, messages, nodes[u].tok.slice, nodes[v].tok.slice)
  {
    RunIsCounted(cfg, messages, run);
    hide PrimaryOk, Counted, RowNodes, CoGet, CountIf, KeepsBoth, HasEdge, Depends, RowOk;
    var j := NodeIsKept(run.record, run.rows, run.counts, cfg.filter, r, u);
    var k := NodeIsKept(run.record, run.rows, run.counts, cfg.filter, r, v);
    RecordCounts(cfg, messages, run, r, j, k);
    EdgeCounts(cfg, messages, RowNodes(run.rows[r], run.record), run.record, u, v);
  }

  /** The kept tokens of a message, each once, in order, and the graph of their dependencies. */
  ghost predicate MessageGraph(cfg: Config, messages: seq<Str>, i: nat, list: seq<Token>, g: Adj)
    requires ConfigOk(cfg) && i < |messages|
  {
    && Listed(list, TokenLists(cfg, messages)[i],
              KeptTokens(TokenLists(cfg, messages), cfg.filter, TokenLists(cfg, messages)[i]))
    && WellFormed(g) && DependencyGraph(cfg, messages, list, g)
  }

  /** The tokens at some positions of the list. */
  ghost function TokensOf(list: seq<Token>, s: set<nat>): set<Token> {
    set v | v in s && v < |list| :: list[v]
  }

  lemma NodeTokensAreKept(record: Record, rows: seq<Row>, weights: seq<nat>, f: StaticFilter, r: nat, tok: Token)
    requires Counted(record, rows, weights, f) && r < |rows| && RowOk(rows[r], |record.occ|)
    ensures tok in TokensOfNodes(RowNodes(rows[r], record)) <==> tok in KeptTokens(TokensOfRows(rows), f, rows[r].toks)
  {
    var nodes := RowNodes(rows[r], record);
    NodesExact(rows[r], record.occ, |rows[r].toks|);
    hide Counted, RowNodes, NodesOf, Kept;
    if tok in TokensOfNodes(nodes) {
      var i :| 0 <= i < |nodes| && nodes[i].tok == tok;
      var j := NodeIsKept(record, rows, weights, f, r, i);
    }
    if tok in KeptTokens(TokensOfRows(rows), f, rows[r].toks) {
      var j :| 0 <= j < |rows[r].toks| && rows[r].toks[j] == tok;
      KeptHasNode(record, rows, weights, f, r, j);
    }
  }

  lemma KeptHasNode(record: Record, rows: seq<Row>, weights: seq<nat>, f: StaticFilter, r: nat, j: nat)
    requires Counted(record, rows, weights, f) && r < |rows| && RowOk(rows[r], |record.occ|) && j < |rows[r].toks|
    requires Kept(TokensOfRows(rows), f, rows[r].toks[j].slice)
    ensures rows[r].toks[j] in TokensOfNodes(RowNodes(rows[r], record))
  {
    var nodes := RowNodes(rows[r], record);
    NodesExact(rows[r], record.occ, |rows[r].toks|);
    hide RowNodes, NodesOf, Kept, Counts;
    OccursIffKept(record, rows, weights, f, r, j);
    var i :| 0 <= i < |nodes| && nodes[i].id == rows[r].ids[j] && nodes[i].tok.kind == rows[r].toks[j].kind;
    var k := NodeIsKept(record, rows, weights, f, r, i);
    assert TokensOfNodes(nodes)[i] == nodes[i].tok;
  }

  lemma ListedFrom(nodes: seq<Node>, row: Row, kept: set<Token>)
    requires NodesListed(nodes, row, |row.toks|) && forall tok :: tok in TokensOfNodes(nodes) <==> tok in kept
    ensures Listed(TokensOfNodes(nodes), row.toks, kept)
  {
    hide StandsBelow, FirstAt;
  }

  lemma NodesAreListed(cfg: Config, messages: seq<Str>, run: Run, r: nat)
    requires ConfigOk(cfg) && PrimaryOk(cfg, messages, run) && r < |run.rows| && RowOk(run.rows[r], |run.record.occ|)
    ensures Listed(TokensOfNodes(RowNodes(run.rows[r], run.record)), run.rows[r].toks,
      KeptTokens(TokensOfRows(run.rows), cfg.filter, run.rows[r].toks))
  {
    hide PrimaryOk, Counted, NodesOf, KeptTokens, SharedIds, RowOk, NodesListed, Listed, TokensOfNodes;
    var nodes := RowNodes(run.rows[r], run.record);
    RunIsCounted(cfg, messages, run);
    RowShares(cfg, messages, run, r);
    NodesInOrder(run.rows[r], run.record.occ, |run.rows[r].toks|);
    forall tok
      ensures tok in TokensOfNodes(nodes) <==> tok in KeptTokens(TokensOfRows(run.rows), cfg.filter, run.rows[r].toks)
    {
      NodeTokensAreKept(run.record, run.rows, run.counts, cfg.filter, r, tok);
    }
    ListedFrom(nodes, run.rows[r], KeptTokens(TokensOfRows(run.rows), cfg.filter, run.rows[r].toks));
  }

  lemma NodesTellTokens(row: Row, record: Record, u: nat, v: nat, kept: set<Token>)
    requires RowOk(row, |record.occ|) && Listed(TokensOfNodes(RowNodes(row, record)), row.toks, kept)
    requires u < |RowNodes(row, record)| && v < |RowNodes(row, record)|
    ensures u == v <==> RowNodes(row, record)[u].tok == RowNodes(row, record)[v].tok
  {
    hide RowNodes, FirstAt;
    var list := TokensOfNodes(RowNodes(row, record));
    assert list[u] == RowNodes(row, record)[u].tok && list[v] == RowNodes(row, record)[v].tok;
  }

  lemma NodeDependencies(cfg: Config, messages: seq<Str>, run: Run, r: nat, u: nat, kept: set<Token>)
    requires ConfigOk(cfg) && PrimaryOk(cfg, messages, run) && r < |run.rows| && RowOk(run.rows[r], |run.record.occ|)
    requires u < |RowNodes(run.rows[r], run.record)|
    requires Listed(TokensOfNodes(RowNodes(run.rows[r], run.record)), run.rows[r].toks, kept)
    ensures var nodes := RowNodes(run.rows[r], run.record);
      Dependencies(cfg, messages, TokensOfNodes(nodes), u, OutEdges(nodes, run.record, cfg.threshold, u, |nodes|))
  {
    hide PrimaryOk, RowNodes, OutEdges, HasEdge, Depends, RowOk, Listed, NodesIn;
    var nodes := RowNodes(run.rows[r], run.record);
    EdgesAscend(nodes, run.record, cfg.threshold, u, |nodes|);
    forall v: nat
      ensures v in OutEdges(nodes, run.record, cfg.threshold, u, |nodes|)
         <==> v < |nodes| && Depends(cfg, messages, TokensOfNodes(nodes)[u].slice, TokensOfNodes(nodes)[v].slice)
    {
      OutEdgesExact(nodes, run.record, cfg.threshold, u, |nodes|, v);
      if v < |nodes| {
        NodesTellTokens(run.rows[r], run.record, u, v, kept);
        EdgeIsDependency(cfg, messages, run, r, u, v);
      }
    }
  }

  lemma EdgesAreDependencies(cfg: Config, messages: seq<Str>, run: Run, r: nat)
    requires ConfigOk(cfg) && PrimaryOk(cfg, messages, run) && r < |run.rows| && RowOk(run.rows[r], |run.record.occ|)
    ensures var nodes := RowNodes(run.rows[r], run.record);
      WellFormed(EdgesOf(nodes, run.record, cfg.threshold))
      && DependencyGraph(cfg, messages, TokensOfNodes(nodes), EdgesOf(nodes, run.record, cfg.threshold))
  {
    hide PrimaryOk, RowNodes, OutEdges, Dependencies, KeptTokens, RowOk, Listed, NodesIn, WellFormed, TokensOfRows;
    var nodes := RowNodes(run.rows[r], run.record);
    EdgesTransposed(nodes, run.record, cfg.threshold);
    NodesAreListed(cfg, messages, run, r);
    forall u: nat | u < |nodes|
      ensures Dependencies(cfg, messages, TokensOfNodes(nodes), u, OutEdges(nodes, run.record, cfg.threshold, u, |nodes|))
    {
      NodeDependencies(cfg, messages, run, r, u, KeptTokens(TokensOfRows(run.rows), cfg.filter, run.rows[r].toks));
    }
  }

  lemma SameKeptTokens(cfg: Config, messages: seq<Str>, run: Run, toks: seq<Token>)
    requires ConfigOk(cfg) && PrimaryOk(cfg, messages, run)
    ensures KeptTokens(TokensOfRows(run.rows), cfg.filter, toks) == KeptTokens(TokenLists(cfg, messages), cfg.filter, toks)
  {
    hide PrimaryOk, Kept;
    forall tok | tok in toks
      ensures Kept(TokensOfRows(run.rows), cfg.filter, tok.slice)
         <==> Kept(TokenLists(cfg, messages), cfg.filter, tok.slice)
    {
      RowsAreMessages(cfg, messages, run, cfg.filter, tok.slice, tok.slice);
    }
  }

  lemma SpecFromNodes(row: Row, record: Record, threshold: real, kept: set<Token>)
    requires RowOk(row, |record.occ|) && OfKind(row.toks, SpecialWhite) <= kept
    requires Listed(TokensOfNodes(RowNodes(row, record)), row.toks, kept)
    ensures var nodes := RowNodes(row, record);
      WellFormed(EdgesOf(nodes, record, threshold)) &&
      AnchorSpec(row, record, threshold)
        == TokensOf(TokensOfNodes(nodes), LargestSpec(EdgesOf(nodes, record, threshold)))
           + OfKind(row.toks, SpecialWhite) - OfKind(row.toks, SpecialBlack)
  {
    var nodes := RowNodes(row, record);
    EdgesTransposed(nodes, record, threshold);
    hide RowNodes, LargestSpec, EdgesOf, OfKind;
    assert TokensAt(nodes, LargestSpec(EdgesOf(nodes, record, threshold)))
        == TokensOf(TokensOfNodes(nodes), LargestSpec(EdgesOf(nodes, record, threshold)));
    if nodes == [] {
      assert kept == {};
    }
  }

  /** The anchors of a message, from the messages alone: the tokens of the kept component of its
      dependency graph, with its white special tokens and without its black ones. */
  lemma AnchorsFromMessages(cfg: Config, messages: seq<Str>, run: Run, i: nat) returns (list: seq<Token>, g: Adj)
    requires ConfigOk(cfg) && PrimaryOk(cfg, messages, run) && i < |messages|
    ensures |run.rowOf| == |messages| && MessageGraph(cfg, messages, i, list, g)
    ensures var toks := TokenLists(cfg, messages)[i];
      AnchorsAt(cfg, run, i) == TokensOf(list, LargestSpec(g)) + OfKind(toks, SpecialWhite) - OfKind(toks, SpecialBlack)
  {
    RunSizes(cfg, messages, run);
    RowIsMessage(cfg, messages, run, i);
    var r := run.rowOf[i];
    var row := run.rows[r];
    var kept := KeptTokens(TokensOfRows(run.rows), cfg.filter, row.toks);
    list, g := TokensOfNodes(RowNodes(row, run.record)), EdgesOf(RowNodes(row, run.record), run.record, cfg.threshold);
    assert TokensOfRows(run.rows)[r] == row.toks && TokenLists(cfg, messages)[i] == row.toks;
    assert AnchorsAt(cfg, run, i) == AnchorSpec(row, run.record, cfg.threshold);
    hide PrimaryOk, RowNodes, RowTokens, KeptTokens, LargestSpec, EdgesOf, TokenLists, TokensOfNodes, AnchorSpec, Listed;
    NodesAreListed(cfg, messages, run, r);
    EdgesAreDependencies(cfg, messages, run, r);
    SameKeptTokens(cfg, messages, run, row.toks);
    WhitesAreKept(TokensOfRows(run.rows), cfg.filter, r);
    SpecFromNodes(row, run.record, cfg.threshold, kept);
  }

  /** A message that keeps two tokens a and b, a standing first. Their slices depend on each other where
      the number of messages keeping both exceeds the threshold share of those keeping the one that
      depends: both are anchors if each depends on the other, a alone if only a depends on b, and
      otherwise b alone. */
  lemma TwoKeptTokens(cfg: Config, messages: seq<Str>, run: Run, i: nat, a: Token, b: Token, j: nat, k: nat)
    requires ConfigOk(cfg) && PrimaryOk(cfg, messages, run) && i < |messages|
    requires FirstAt(TokenLists(cfg, messages)[i], a, j) && FirstAt(TokenLists(cfg, messages)[i], b, k) && j < k
    requires KeptTokens(TokenLists(cfg, messages), cfg.filter, TokenLists(cfg, messages)[i]) == {a, b}
    ensures |run.rowOf| == |messages|
    ensures var toks := TokenLists(cfg, messages)[i];
      var x, y := a.slice, b.slice;
      var ab := x != y && Keeping(cfg, messages, x, y) > 0
                && Keeping(cfg, messages, x, y) as real > cfg.threshold * Keeping(cfg, messages, x, x) as real;
      var ba := y != x && Keeping(cfg, messages, y, x) > 0
                && Keeping(cfg, messages, y, x) as real > cfg.threshold * Keeping(cfg, messages, y, y) as real;
      AnchorsAt(cfg, run, i) == (if ab && ba then {a, b} else if ab then {a} else {b})
        + OfKind(toks, SpecialWhite) - OfKind(toks, SpecialBlack)
  {
    hide *;
    var list, g := AnchorsFromMessages(cfg, messages, run, i);
    GraphFacts(cfg, messages, i, list, g);
    ListOfTwo(list, TokenLists(cfg, messages)[i], a, b, j, k);
    ComponentOfTwo(cfg, messages, a, b, g);
    DependsMeans(cfg, messages, a.slice, b.slice);
    DependsMeans(cfg, messages, b.slice, a.slice);
  }

  lemma DependsMeans(cfg: Config, messages: seq<Str>, x: Str, y: Str)
    requires ConfigOk(cfg)
    ensures Depends(cfg, messages, x, y) <==>
      (x != y && Keeping(cfg, messages, x, y) > 0
       && Keeping(cfg, messages, x, y) as real > cfg.threshold * Keeping(cfg, messages, x, x) as real)
  {
    hide Keeping;
  }

  lemma GraphFacts(cfg: Config, messages: seq<Str>, i: nat, list: seq<Token>, g: Adj)
    requires ConfigOk(cfg) && i < |messages| && MessageGraph(cfg, messages, i, list, g)
    ensures |TokenLists(cfg, messages)| == |messages| && WellFormed(g) && DependencyGraph(cfg, messages, list, g)
    ensures Listed(list, TokenLists(cfg, messages)[i],
      KeptTokens(TokenLists(cfg, messages), cfg.filter, TokenLists(cfg, messages)[i]))
  {
  }

  lemma ComponentOfTwo(cfg: Config, messages: seq<Str>, a: Token, b: Token, g: Adj)
    requires ConfigOk(cfg) && WellFormed(g) && DependencyGraph(cfg, messages, [a, b], g)
    ensures var ab, ba := Depends(cfg, messages, a.slice, b.slice), Depends(cfg, messages, b.slice, a.slice);
      TokensOf([a, b], LargestSpec(g)) == if ab && ba then {a, b} else if ab then {a} else {b}
  {
    hide LargestSpec, Depends, WellFormed;
    TwoNodes(g);
    assert Dependencies(cfg, messages, [a, b], 0, g[0]) && Dependencies(cfg, messages, [a, b], 1, g[1]);
    assert TokensOf([a, b], {0, 1}) == {a, b} && TokensOf([a, b], {0}) == {a} && TokensOf([a, b], {1}) == {b};
  }

  lemma ListOfTwo(list: seq<Token>, toks: seq<Token>, a: Token, b: Token, j: nat, k: nat)
    requires Listed(list, toks, {a, b}) && FirstAt(toks, a, j) && FirstAt(toks, b, k) && j < k
    ensures list == [a, b]
  {
    assert a != b;
    var p :| 0 <= p < |list| && list[p] == a;
    var q :| 0 <= q < |list| && list[q] == b;
    forall m | 0 <= m < |list| ensures list[m] == a || list[m] == b {
      assert list[m] in list;
    }
    assert p < q;
    var last := |list| - 1;
    assert list[last] == list[q] && list[0] == list[p] && list[1] == list[q];
  }
}
