/** Anchor selection of graph.go: the dependency graph of a row's tokens, its
    largest strongly connected component, and the special-token adjustment. */
module Anchors {
  import opened Tokens
  import opened TokenRecord
  import opened Graph
  import opened Scc
  import Kosaraju

  datatype Node = Node(tok: Token, id: nat)

  // ----------------------------------------------------------------- nodes

  ghost predicate HasNode(nodes: seq<Node>, id: nat, kind: TokenKind) {
    exists i :: 0 <= i < |nodes| && nodes[i].id == id && nodes[i].tok.kind == kind
  }

  /** Of the first k tokens, those that occur in the record, the first of each id and kind. */
  ghost function NodesOf(row: Row, occ: seq<nat>, k: nat): seq<Node>
    requires RowOk(row, |occ|) && k <= |row.toks|
  {
    if k == 0 then []
    else
      var front, tok, id := NodesOf(row, occ, k - 1), row.toks[k - 1], row.ids[k - 1];
      if occ[id] == 0 || HasNode(front, id, tok.kind) then front else front + [Node(tok, id)]
  }

  ghost predicate IsNodeOf(row: Row, occ: seq<nat>, k: nat, node: Node)
    requires RowOk(row, |occ|) && k <= |row.toks|
  {
    exists j :: 0 <= j < k && node == Node(row.toks[j], row.ids[j]) && occ[row.ids[j]] > 0
  }

  lemma HasNodeSnoc(nodes: seq<Node>, node: Node, id: nat, kind: TokenKind)
    ensures HasNode(nodes + [node], id, kind) <==> HasNode(nodes, id, kind) || (node.id == id && node.tok.kind == kind)
  {
    var all := nodes + [node];
    assert all[|nodes|] == node;
    if HasNode(nodes, id, kind) {
      var i :| 0 <= i < |nodes| && nodes[i].id == id && nodes[i].tok.kind == kind;
      assert all[i] == nodes[i];
    }
  }

  /** The nodes are tokens of the row that occur in the record; every such token has
      a node of its id and kind, and no two nodes share both. */
  lemma {:induction false} NodesExact(row: Row, occ: seq<nat>, k: nat)
    requires RowOk(row, |occ|) && k <= |row.toks|
    ensures forall node :: node in NodesOf(row, occ, k) ==> IsNodeOf(row, occ, k, node)
    ensures forall j :: 0 <= j < k && occ[row.ids[j]] > 0 ==> HasNode(NodesOf(row, occ, k), row.ids[j], row.toks[j].kind)
    ensures forall a, b :: 0 <= a < b < |NodesOf(row, occ, k)| ==>
      var ns := NodesOf(row, occ, k); ns[a].id != ns[b].id || ns[a].tok.kind != ns[b].tok.kind
  {
    if k > 0 {
      NodesExact(row, occ, k - 1);
      var front := NodesOf(row, occ, k - 1);
      var last := Node(row.toks[k - 1], row.ids[k - 1]);
      forall node | node in NodesOf(row, occ, k) ensures IsNodeOf(row, occ, k, node) {
        if node in front {
          assert IsNodeOf(row, occ, k - 1, node);
        }
      }
      forall j | 0 <= j < k && occ[row.ids[j]] > 0
        ensures HasNode(NodesOf(row, occ, k), row.ids[j], row.toks[j].kind)
      {
        HasNodeSnoc(front, last, row.ids[j], row.toks[j].kind);
      }
    }
  }

  // ----------------------------------------------------------------- edges

  /** The edge condition: the pair co-occurs, and more often than the threshold share of
      the occurrences of the edge's source. */
  ghost predicate HasEdge(nodes: seq<Node>, record: Record, threshold: real, i: nat, j: nat)
    requires i < |nodes| && j < |nodes|
    requires forall h :: 0 <= h < |nodes| ==> nodes[h].id < |record.occ|
  {
    var co := CoGet(record.co, nodes[i].id, nodes[j].id);
    i != j && co > 0 && co as real > record.occ[nodes[i].id] as real * threshold
  }

  ghost predicate NodesIn(nodes: seq<Node>, record: Record) {
    forall h :: 0 <= h < |nodes| ==> nodes[h].id < |record.occ|
  }

  /** The targets of i's edges among the first k nodes, in ascending order. */
  ghost function OutEdges(nodes: seq<Node>, record: Record, threshold: real, i: nat, k: nat): seq<nat>
    requires NodesIn(nodes, record) && i < |nodes| && k <= |nodes|
  {
    if k == 0 then []
    else OutEdges(nodes, record, threshold, i, k - 1) + (if HasEdge(nodes, record, threshold, i, k - 1) then [k - 1] else [])
  }

  /** The sources of edges to i among the first k nodes, in ascending order. */
  ghost function InEdges(nodes: seq<Node>, record: Record, threshold: real, i: nat, k: nat): seq<nat>
    requires NodesIn(nodes, record) && i < |nodes| && k <= |nodes|
  {
    if k == 0 then []
    else InEdges(nodes, record, threshold, i, k - 1) + (if HasEdge(nodes, record, threshold, k - 1, i) then [k - 1] else [])
  }

  ghost function EdgesOf(nodes: seq<Node>, record: Record, threshold: real): Adj
    requires NodesIn(nodes, record)
  {
    seq(|nodes|, i requires 0 <= i < |nodes| => OutEdges(nodes, record, threshold, i, |nodes|))
  }

  ghost function ReversedEdges(nodes: seq<Node>, record: Record, threshold: real): Adj
    requires NodesIn(nodes, record)
  {
    seq(|nodes|, i requires 0 <= i < |nodes| => InEdges(nodes, record, threshold, i, |nodes|))
  }

  lemma {:induction false} OutEdgesExact(nodes: seq<Node>, record: Record, threshold: real, i: nat, k: nat, j: nat)
    requires NodesIn(nodes, record) && i < |nodes| && k <= |nodes|
    ensures j in OutEdges(nodes, record, threshold, i, k) <==> j < k && HasEdge(nodes, record, threshold, i, j)
  {
    if k > 0 {
      OutEdgesExact(nodes, record, threshold, i, k - 1, j);
    }
  }

  lemma {:induction false} InEdgesExact(nodes: seq<Node>, record: Record, threshold: real, i: nat, k: nat, j: nat)
    requires NodesIn(nodes, record) && i < |nodes| && k <= |nodes|
    ensures j in InEdges(nodes, record, threshold, i, k) <==> j < k && HasEdge(nodes, record, threshold, j, i)
  {
    if k > 0 {
      InEdgesExact(nodes, record, threshold, i, k - 1, j);
    }
  }

  /** The two adjacency tables are well formed and each other's transpose. */
  lemma EdgesTransposed(nodes: seq<Node>, record: Record, threshold: real)
    requires NodesIn(nodes, record)
    ensures WellFormed(EdgesOf(nodes, record, threshold)) && WellFormed(ReversedEdges(nodes, record, threshold))
    ensures Transposed(EdgesOf(nodes, record, threshold), ReversedEdges(nodes, record, threshold))
  {
    hide HasEdge, OutEdges, InEdges;
    var g, r := EdgesOf(nodes, record, threshold), ReversedEdges(nodes, record, threshold);
    forall u, k | 0 <= u < |nodes| && 0 <= k < |g[u]| ensures g[u][k] < |nodes| {
      OutEdgesExact(nodes, record, threshold, u, |nodes|, g[u][k]);
    }
    forall u, k | 0 <= u < |nodes| && 0 <= k < |r[u]| ensures r[u][k] < |nodes| {
      InEdgesExact(nodes, record, threshold, u, |nodes|, r[u][k]);
    }
    forall u, v | 0 <= u < |nodes| && 0 <= v < |nodes| ensures v in g[u] <==> u in r[v] {
      OutEdgesExact(nodes, record, threshold, u, |nodes|, v);
      InEdgesExact(nodes, record, threshold, v, |nodes|, u);
    }
  }

  // ------------------------------------------------------------- the anchors

  ghost function TokensAt(nodes: seq<Node>, s: set<nat>): set<Token> {
    set i | i in s && i < |nodes| :: nodes[i].tok
  }

  function OfKind(toks: seq<Token>, kind: TokenKind): set<Token> {
    set tok | tok in toks && tok.kind == kind
  }

  /** The largest component's tokens, with all white special tokens of the row and none of its black ones. */
  ghost function Adjusted(core: set<Token>, toks: seq<Token>): set<Token> {
    core + OfKind(toks, SpecialWhite) - OfKind(toks, SpecialBlack)
  }

  ghost function RowNodes(row: Row, record: Record): (nodes: seq<Node>)
    requires RowOk(row, |record.occ|)
    ensures NodesIn(nodes, record)
  {
    NodesExact(row, record.occ, |row.toks|);
    var nodes := NodesOf(row, record.occ, |row.toks|);
    assert forall h :: 0 <= h < |nodes| ==> nodes[h] in nodes;
    nodes
  }

  /** The tokens of the row's largest strongly connected component. */
  ghost function Core(row: Row, record: Record, threshold: real): set<Token>
    requires RowOk(row, |record.occ|)
  {
    var nodes := RowNodes(row, record);
    EdgesTransposed(nodes, record, threshold);
    TokensAt(nodes, LargestSpec(EdgesOf(nodes, record, threshold)))
  }

  /** What the general path gives, whatever the number of nodes. */
  ghost function GeneralPath(row: Row, record: Record, threshold: real): set<Token>
    requires RowOk(row, |record.occ|)
  {
    Adjusted(Core(row, record, threshold), row.toks)
  }

  ghost function AnchorSpec(row: Row, record: Record, threshold: real): set<Token>
    requires RowOk(row, |record.occ|)
  {
    if RowNodes(row, record) == [] then {} else GeneralPath(row, record, threshold)
  }

  /** A graph with one node: its component is that node. */
  lemma SingleNode(g: Adj)
    requires WellFormed(g) && |g| == 1
    ensures LargestSpec(g) == {0}
  {
    LargestIsComponent(g);
    var v :| v in LargestSpec(g) && LargestSpec(g) == Component(g, v);
    assert forall x :: x in Component(g, v) ==> x in Nodes(1) && x == 0;
  }

  lemma NoNodes(row: Row, record: Record, threshold: real)
    requires RowOk(row, |record.occ|) && RowNodes(row, record) == []
    ensures Core(row, record, threshold) == {}
  {
  }

  /** The early return for a row without nodes agrees with the general path exactly
      when the row has no white special token. */
  lemma EarlyReturnAgrees(row: Row, record: Record, threshold: real)
    requires RowOk(row, |record.occ|)
    ensures AnchorSpec(row, record, threshold) == GeneralPath(row, record, threshold)
       <==> RowNodes(row, record) != [] || OfKind(row.toks, SpecialWhite) == {}
  {
    if RowNodes(row, record) == [] {
      NoNodes(row, record, threshold);
      var whites, blacks := OfKind(row.toks, SpecialWhite), OfKind(row.toks, SpecialBlack);
      assert GeneralPath(row, record, threshold) == whites;
    }
  }

  lemma {:induction false} WeightedPositive(weights: seq<nat>, k: nat, p: nat -> bool, r: nat)
    requires r < k <= |weights| && p(r) && weights[r] > 0
    ensures Weighted(weights, k, p) > 0
  {
    if r < k - 1 {
      WeightedPositive(weights, k - 1, p, r);
    }
  }

  /** The kept tokens of a counted row occur in the record. */
  lemma CountedRowOccurs(record: Record, rows: seq<Row>, weights: seq<nat>, f: StaticFilter, numIDs: nat, r: nat, j: nat)
    requires RowsOk(rows, numIDs) && |weights| == |rows| && Counts(record, rows, weights, f, numIDs, |weights|)
    requires r < |rows| && weights[r] > 0 && RowOk(rows[r], numIDs)
    requires j < |rows[r].toks| && Keeps(f, rows[r].toks[j])
    ensures record.occ[rows[r].ids[j]] > 0
  {
    assert rows[r].ids[j] in KeptIds(rows[r], f);
    WeightedPositive(weights, |weights|, HasId(rows, f, rows[r].ids[j]), r);
  }

  /** On a counted row the anchors hold every white special token and no black one;
      all others belong to the largest component, and the early return changes nothing. */
  lemma AnchorsOfCountedRow(record: Record, rows: seq<Row>, weights: seq<nat>, f: StaticFilter, numIDs: nat, r: nat,
      threshold: real)
    requires RowsOk(rows, numIDs) && |weights| == |rows| && Counts(record, rows, weights, f, numIDs, |weights|)
    requires r < |rows| && weights[r] > 0 && RowOk(rows[r], numIDs)
    ensures var anchors := AnchorSpec(rows[r], record, threshold);
      && OfKind(rows[r].toks, SpecialWhite) <= anchors
      && (forall tok :: tok in anchors ==> tok in rows[r].toks && tok.kind != SpecialBlack)
      && (forall tok :: tok in anchors && tok.kind != SpecialWhite ==> tok in Core(rows[r], record, threshold))
      && anchors == GeneralPath(rows[r], record, threshold)
  {
    var row := rows[r];
    var nodes := RowNodes(row, record);
    NodesExact(row, record.occ, |row.toks|);
    forall tok | tok in OfKind(row.toks, SpecialWhite) ensures nodes != [] {
      var j :| 0 <= j < |row.toks| && row.toks[j] == tok;
      CountedRowOccurs(record, rows, weights, f, numIDs, r, j);
      assert HasNode(nodes, row.ids[j], row.toks[j].kind);
    }
    EarlyReturnAgrees(row, record, threshold);
    CoreInRow(row, record, threshold);
  }

  /** Component members are tokens of the row. */
  lemma CoreInRow(row: Row, record: Record, threshold: real)
    requires RowOk(row, |record.occ|)
    ensures forall tok :: tok in Core(row, record, threshold) ==> tok in row.toks
  {
    var nodes := RowNodes(row, record);
    NodesExact(row, record.occ, |row.toks|);
    forall tok | tok in Core(row, record, threshold) ensures tok in row.toks {
      var i :| 0 <= i < |nodes| && nodes[i].tok == tok;
      assert nodes[i] in nodes;
    }
  }

  // ---------------------------------------------------------------- methods

  /** uint8(1) << kind */
  function KindBit(kind: TokenKind): bv8 {
    match kind
    case Alphabetic => 1
    case Numeric => 2
    case Symbolic => 4
    case Whitespace => 8
    case Impure => 16
    case SpecialWhite => 32
    case SpecialBlack => 64
  }

  predicate HasBit(kinds: bv8, kind: TokenKind) {
    kinds & KindBit(kind) != 0
  }

  function WithBit(kinds: bv8, kind: TokenKind): bv8 {
    kinds | KindBit(kind)
  }

  /** The bits of different kinds do not interfere. */
  lemma KindBits(x: bv8, a: TokenKind, b: TokenKind)
    ensures HasBit(WithBit(x, a), b) <==> HasBit(x, b) || a == b
    ensures !HasBit(0, b)
  {
  }

  /** The scratch entry of an id tells which kinds of nodes it has. */
  ghost predicate EntryOk(nodes: seq<Node>, id: nat, seen: nat, kinds: bv8, epoch: nat) {
    forall kind :: HasNode(nodes, id, kind) <==> seen == epoch && HasBit(kinds, kind)
  }

  lemma EntryOther(nodes: seq<Node>, node: Node, id: nat, seen: nat, kinds: bv8, epoch: nat)
    requires EntryOk(nodes, id, seen, kinds, epoch) && id != node.id
    ensures EntryOk(nodes + [node], id, seen, kinds, epoch)
  {
    hide HasNode, HasBit, WithBit;
    forall kind ensures HasNode(nodes + [node], id, kind) <==> seen == epoch && HasBit(kinds, kind) {
      HasNodeSnoc(nodes, node, id, kind);
    }
  }

  lemma EntryAdded(nodes: seq<Node>, node: Node, kinds: bv8, epoch: nat)
    requires EntryOk(nodes, node.id, epoch, kinds, epoch)
    ensures EntryOk(nodes + [node], node.id, epoch, WithBit(kinds, node.tok.kind), epoch)
  {
    hide HasNode, HasBit, WithBit;
    forall kind
      ensures HasNode(nodes + [node], node.id, kind) <==> HasBit(WithBit(kinds, node.tok.kind), kind)
    {
      HasNodeSnoc(nodes, node, node.id, kind);
      KindBits(kinds, node.tok.kind, kind);
    }
  }

  lemma EntryReset(nodes: seq<Node>, id: nat, seen: nat, kinds: bv8, epoch: nat)
    requires EntryOk(nodes, id, seen, kinds, epoch) && seen != epoch
    ensures EntryOk(nodes, id, epoch, 0, epoch)
  {
    hide HasNode, HasBit, WithBit;
    forall kind ensures HasNode(nodes, id, kind) <==> HasBit(0, kind) {
      KindBits(0, kind, kind);
    }
  }

  /** How far row r of an edge table has been filled when the loops stand at (i, j). */
  function Filled(r: nat, i: nat, j: nat, n: nat): nat {
    if r < i then n else if r == i then j else if r < j then i + 1 else i
  }

  ghost predicate TablesFilled(adj: seq<seq<nat>>, rev: seq<seq<nat>>, nodes: seq<Node>, record: Record,
      threshold: real, i: nat, j: nat)
    requires NodesIn(nodes, record)
  {
    && |adj| == |rev| == |nodes|
    && (forall r :: 0 <= r < |nodes| && Filled(r, i, j, |nodes|) <= |nodes| ==>
          adj[r] == OutEdges(nodes, record, threshold, r, Filled(r, i, j, |nodes|)))
    && (forall r :: 0 <= r < |nodes| && Filled(r, i, j, |nodes|) <= |nodes| ==>
          rev[r] == InEdges(nodes, record, threshold, r, Filled(r, i, j, |nodes|)))
  }

  /** The buffers one worker reuses from row to row. */
  class AnchorScratch {
    const nodeEpoch: array<nat>
    const nodeKinds: array<bv8>
    var epoch: nat

    ghost predicate Valid()
      reads this, nodeEpoch
    {
      && nodeEpoch.Length == nodeKinds.Length && nodeEpoch as object != nodeKinds
      && (forall id :: 0 <= id < nodeEpoch.Length ==> nodeEpoch[id] <= epoch)
    }

    constructor (numIDs: nat)
      ensures Valid() && fresh(nodeEpoch) && fresh(nodeKinds)
      ensures nodeEpoch.Length == numIDs && epoch == 0
    {
      nodeEpoch := new nat[numIDs](_ => 0);
      nodeKinds := new bv8[numIDs](_ => 0);
      epoch := 0;
    }

    /** In the current epoch the scratch tells exactly which ids and kinds have nodes. */
    ghost predicate Tracks(nodes: seq<Node>)
      reads this, nodeEpoch, nodeKinds
    {
      && Valid()
      && (forall id :: 0 <= id < nodeEpoch.Length ==> EntryOk(nodes, id, nodeEpoch[id], nodeKinds[id], epoch))
    }

    /** Registers a token; it becomes a node unless its id already has one of its kind. */
    method MarkNode(ghost nodes: seq<Node>, tok: Token, id: nat) returns (added: bool)
      requires Tracks(nodes) && id < nodeEpoch.Length
      modifies nodeEpoch, nodeKinds
      ensures added <==> !HasNode(nodes, id, tok.kind)
      ensures Tracks(if added then nodes + [Node(tok, id)] else nodes)
    {
      hide HasNode, HasBit, WithBit, EntryOk;
      if nodeEpoch[id] != epoch {
        EntryReset(nodes, id, nodeEpoch[id], nodeKinds[id], epoch);
        nodeEpoch[id] := epoch;
        nodeKinds[id] := 0;
      }
      EntryTells(nodes, id, nodeKinds[id], epoch, tok.kind);
      if HasBit(nodeKinds[id], tok.kind) {
        return false;
      }
      EntryAdded(nodes, Node(tok, id), nodeKinds[id], epoch);
      forall x | 0 <= x < nodeEpoch.Length && x != id
        ensures EntryOk(nodes + [Node(tok, id)], x, nodeEpoch[x], nodeKinds[x], epoch)
      {
        EntryOther(nodes, Node(tok, id), x, nodeEpoch[x], nodeKinds[x], epoch);
      }
      nodeKinds[id] := WithBit(nodeKinds[id], tok.kind);
      return true;
    }

    /** The loop that deduplicates the row's tokens into nodes. */
    method CollectNodes(row: Row, occ: seq<nat>) returns (nodes: seq<Node>)
      requires Valid() && RowOk(row, |occ|) && |occ| == nodeEpoch.Length && epoch < UINT32 - 1
      modifies this`epoch, nodeEpoch, nodeKinds
      ensures Valid() && epoch == old(epoch) + 1
      ensures nodes == NodesOf(row, occ, |row.toks|)
    {
      hide HasNode, EntryOk;
      nodes := [];
      epoch := epoch + 1;
      forall id | 0 <= id < nodeEpoch.Length ensures EntryOk([], id, nodeEpoch[id], nodeKinds[id], epoch) {
        NoEntry(id, nodeEpoch[id], nodeKinds[id], epoch);
      }
      for j := 0 to |row.toks|
        invariant nodes == NodesOf(row, occ, j) && epoch == old(epoch) + 1
        invariant Tracks(nodes)
      {
        var tok, id := row.toks[j], row.ids[j];
        if occ[id] == 0 {
          continue;
        }
        var added := MarkNode(nodes, tok, id);
        if added {
          nodes := nodes + [Node(tok, id)];
        }
      }
    }

    /** anchorTokens: the result depends on the row and the record only, not on what the scratch was used for before. */
    method AnchorTokens(row: Row, record: Record, threshold: real) returns (anchors: set<Token>)
      requires Valid() && RowOk(row, |record.occ|) && |record.occ| == nodeEpoch.Length && epoch < UINT32 - 1
      modifies this`epoch, nodeEpoch, nodeKinds
      ensures Valid() && epoch == old(epoch) + 1
      ensures anchors == AnchorSpec(row, record, threshold)
    {
      hide NodesOf, LargestSpec, Counts;
      var nodes := CollectNodes(row, record.occ);
      assert nodes == RowNodes(row, record);
      if |nodes| == 0 {
        return {};
      }
      if |nodes| == 1 {
        SingleNodeCore(row, record, threshold);
        anchors := AdjustSpecials({nodes[0].tok}, row.toks);
        return;
      }
      var adj, rev := BuildEdges(nodes, record, threshold);
      EdgesTransposed(nodes, record, threshold);
      var order := Kosaraju.PostOrder(adj);
      var largest := Kosaraju.LargestComponent(adj, rev, order);
      LargestBelow(adj, largest);
      var core := TokensOfLargest(nodes, largest);
      assert core == Core(row, record, threshold);
      anchors := AdjustSpecials(core, row.toks);
    }
  }

  lemma NoEntry(id: nat, seen: nat, kinds: bv8, epoch: nat)
    requires seen < epoch
    ensures EntryOk([], id, seen, kinds, epoch)
  {
  }

  lemma EntryTells(nodes: seq<Node>, id: nat, kinds: bv8, epoch: nat, kind: TokenKind)
    requires EntryOk(nodes, id, epoch, kinds, epoch)
    ensures HasNode(nodes, id, kind) <==> HasBit(kinds, kind)
  {
    hide HasNode, HasBit, WithBit;
  }

  lemma SingleNodeCore(row: Row, record: Record, threshold: real)
    requires RowOk(row, |record.occ|) && |RowNodes(row, record)| == 1
    ensures Core(row, record, threshold) == {RowNodes(row, record)[0].tok}
  {
    var nodes := RowNodes(row, record);
    EdgesTransposed(nodes, record, threshold);
    SingleNode(EdgesOf(nodes, record, threshold));
    assert TokensAt(nodes, {0}) == {nodes[0].tok};
  }

  lemma LargestBelow(g: Adj, largest: seq<nat>)
    requires WellFormed(g) && |g| > 0 && ToSet(largest) == LargestSpec(g)
    ensures Below(largest, |g|)
  {
    LargestIsComponent(g);
    forall k | 0 <= k < |largest| ensures largest[k] < |g| {
      assert largest[k] in ToSet(largest);
    }
  }

  ghost function One(cond: bool, x: nat): seq<nat> {
    if cond then [x] else []
  }

  /** The edges between nodes i and j have been appended to the four lists involved. */
  ghost predicate PairAdded(adj0: seq<seq<nat>>, rev0: seq<seq<nat>>, adj: seq<seq<nat>>, rev: seq<seq<nat>>,
      nodes: seq<Node>, record: Record, threshold: real, i: nat, j: nat)
    requires NodesIn(nodes, record) && i < |nodes| && j < |nodes| && |adj0| == |rev0| == |nodes|
  {
    var ij, ji := HasEdge(nodes, record, threshold, i, j), HasEdge(nodes, record, threshold, j, i);
    && |adj| == |rev| == |nodes|
    && adj[i] == adj0[i] + One(ij, j) && adj[j] == adj0[j] + One(ji, i)
    && rev[j] == rev0[j] + One(ij, i) && rev[i] == rev0[i] + One(ji, j)
    && (forall r :: 0 <= r < |nodes| && r != i && r != j ==> adj[r] == adj0[r] && rev[r] == rev0[r])
  }

  method AddPair(out: array<seq<nat>>, into: array<seq<nat>>, nodes: seq<Node>, record: Record, threshold: real,
      i: nat, j: nat)
    requires NodesIn(nodes, record) && i < j < |nodes| && out != into && out.Length == into.Length == |nodes|
    modifies out, into
    ensures PairAdded(old(out[..]), old(into[..]), out[..], into[..], nodes, record, threshold, i, j)
  {
    hide CoGet;
    var co := CoGet(record.co, nodes[i].id, nodes[j].id);
    CoGetSymmetric(record.co, nodes[i].id, nodes[j].id);
    if co == 0 {
      return;
    }
    if co as real > record.occ[nodes[i].id] as real * threshold {
      out[i], into[j] := out[i] + [j], into[j] + [i];
    }
    if co as real > record.occ[nodes[j].id] as real * threshold {
      out[j], into[i] := out[j] + [i], into[i] + [j];
    }
  }

  lemma NoneFilled(adj: seq<seq<nat>>, rev: seq<seq<nat>>, nodes: seq<Node>, record: Record, threshold: real)
    requires NodesIn(nodes, record) && |adj| == |rev| == |nodes|
    requires forall r :: 0 <= r < |nodes| ==> adj[r] == [] && rev[r] == []
    ensures TablesFilled(adj, rev, nodes, record, threshold, 0, 0)
  {
  }

  /** The nested loops over pairs of nodes. */
  method BuildEdges(nodes: seq<Node>, record: Record, threshold: real) returns (adj: Adj, rev: Adj)
    requires NodesIn(nodes, record)
    ensures adj == EdgesOf(nodes, record, threshold) && rev == ReversedEdges(nodes, record, threshold)
  {
    hide HasEdge, TablesFilled, OutEdges, InEdges, NodesIn, EdgesOf, ReversedEdges;
    var n := |nodes|;
    var out, into := new seq<nat>[n](_ => []), new seq<nat>[n](_ => []);
    NoneFilled(out[..], into[..], nodes, record, threshold);
    for i := 0 to n
      invariant out != into && TablesFilled(out[..], into[..], nodes, record, threshold, i, i)
    {
      SelfEdge(out[..], into[..], nodes, record, threshold, i);
      for j := i + 1 to n
        invariant TablesFilled(out[..], into[..], nodes, record, threshold, i, j)
      {
        ghost var out0, into0 := out[..], into[..];
        AddPair(out, into, nodes, record, threshold, i, j);
        PairStep(out0, into0, out[..], into[..], nodes, record, threshold, i, j);
      }
      RowDone(out[..], into[..], nodes, record, threshold, i);
    }
    adj, rev := out[..], into[..];
    AllFilled(adj, rev, nodes, record, threshold);
  }

  lemma CoGetSymmetric(co: map<nat, nat>, a: nat, b: nat)
    ensures CoGet(co, a, b) == CoGet(co, b, a)
  {
    assert PairId(a, b) == PairId(b, a);
  }

  lemma SelfEdge(adj: seq<seq<nat>>, rev: seq<seq<nat>>, nodes: seq<Node>, record: Record, threshold: real, i: nat)
    requires NodesIn(nodes, record) && i < |nodes| && TablesFilled(adj, rev, nodes, record, threshold, i, i)
    ensures TablesFilled(adj, rev, nodes, record, threshold, i, i + 1)
  {
  }

  lemma RowDone(adj: seq<seq<nat>>, rev: seq<seq<nat>>, nodes: seq<Node>, record: Record, threshold: real, i: nat)
    requires NodesIn(nodes, record) && i < |nodes| && TablesFilled(adj, rev, nodes, record, threshold, i, |nodes|)
    ensures TablesFilled(adj, rev, nodes, record, threshold, i + 1, i + 1)
  {
    hide OutEdges, InEdges, HasEdge;
  }

  lemma AllFilled(adj: seq<seq<nat>>, rev: seq<seq<nat>>, nodes: seq<Node>, record: Record, threshold: real)
    requires NodesIn(nodes, record) && TablesFilled(adj, rev, nodes, record, threshold, |nodes|, |nodes|)
    ensures adj == EdgesOf(nodes, record, threshold) && rev == ReversedEdges(nodes, record, threshold)
  {
    hide OutEdges, InEdges, HasEdge;
  }

  lemma PairStep(adj0: seq<seq<nat>>, rev0: seq<seq<nat>>, adj: seq<seq<nat>>, rev: seq<seq<nat>>,
      nodes: seq<Node>, record: Record, threshold: real, i: nat, j: nat)
    requires NodesIn(nodes, record) && i < j < |nodes| && TablesFilled(adj0, rev0, nodes, record, threshold, i, j)
    requires PairAdded(adj0, rev0, adj, rev, nodes, record, threshold, i, j)
    ensures TablesFilled(adj, rev, nodes, record, threshold, i, j + 1)
  {
    hide HasEdge;
  }

  method TokensOfLargest(nodes: seq<Node>, largest: seq<nat>) returns (core: set<Token>)
    requires Below(largest, |nodes|)
    ensures core == TokensAt(nodes, ToSet(largest))
  {
    core := {};
    for k := 0 to |largest|
      invariant core == TokensAt(nodes, ToSet(largest[..k]))
    {
      core := core + {nodes[largest[k]].tok};
      assert ToSet(largest[..k + 1]) == ToSet(largest[..k]) + {largest[k]};
    }
    assert largest[..|largest|] == largest;
  }

  /** The final loop: white special tokens are added, black ones removed. */
  method AdjustSpecials(core: set<Token>, toks: seq<Token>) returns (anchors: set<Token>)
    ensures anchors == Adjusted(core, toks)
  {
    anchors := core;
    for k := 0 to |toks|
      invariant anchors == Adjusted(core, toks[..k])
    {
      var tok := toks[k];
      assert toks[..k + 1] == toks[..k] + [tok];
      match tok.kind {
        case SpecialWhite => anchors := anchors + {tok};
        case SpecialBlack => anchors := anchors - {tok};
        case _ =>
      }
    }
    assert toks[..|toks|] == toks;
  }
}
