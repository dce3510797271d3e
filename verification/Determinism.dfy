/** The results of a parse do not depend on the number of workers, on the order of
    their steps, or on the vector kernel (the promise of WithParallelism, parser.go). */
module Determinism {
  import opened Bytes
  import opened Tokens
  import opened TokenRecord
  import opened Sorting
  import opened Anchors
  import opened AnchorKey
  import opened Grouping
  import opened Dedup
  import opened Interner
  import opened Clusters
  import opened Parser

  // ---------------------------------------------------------------- anchors

  /** Two records with the same counts. */
  ghost predicate SameCounts(a: Record, b: Record, numIDs: nat) {
    && |a.occ| == |b.occ| == numIDs && a.occ == b.occ
    && forall x: nat, y: nat :: x < numIDs && y < numIDs ==> CoGet(a.co, x, y) == CoGet(b.co, x, y)
  }

  /** The counts over given rows are determined. */
  lemma CountsDetermined(a: Record, b: Record, rows: seq<Row>, weights: seq<nat>, f: StaticFilter, numIDs: nat)
    requires Counts(a, rows, weights, f, numIDs, |weights|) && Counts(b, rows, weights, f, numIDs, |weights|)
    ensures SameCounts(a, b, numIDs)
  {
    hide CoGet, HasBoth, HasId, Weighted;
    forall x: nat, y: nat | x < numIDs && y < numIDs ensures CoGet(a.co, x, y) == CoGet(b.co, x, y) {
      if x == y {
        assert CoGet(a.co, x, x) == 0 && CoGet(b.co, x, x) == 0;
      }
    }
  }

  lemma {:induction false} SameOutEdges(nodes: seq<Node>, a: Record, b: Record, threshold: real, numIDs: nat, i: nat, k: nat)
    requires NodesIn(nodes, a) && NodesIn(nodes, b) && SameCounts(a, b, numIDs) && i < |nodes| && k <= |nodes|
    ensures OutEdges(nodes, a, threshold, i, k) == OutEdges(nodes, b, threshold, i, k)
  {
    if k > 0 {
      hide HasEdge, SameCounts;
      SameOutEdges(nodes, a, b, threshold, numIDs, i, k - 1);
      SameEdge(nodes, a, b, threshold, numIDs, i, k - 1);
    }
  }

  lemma SameEdge(nodes: seq<Node>, a: Record, b: Record, threshold: real, numIDs: nat, i: nat, j: nat)
    requires NodesIn(nodes, a) && NodesIn(nodes, b) && SameCounts(a, b, numIDs) && i < |nodes| && j < |nodes|
    ensures HasEdge(nodes, a, threshold, i, j) == HasEdge(nodes, b, threshold, i, j)
  {
    hide CoGet;
    assert nodes[i].id < numIDs && nodes[j].id < numIDs;
    assert CoGet(a.co, nodes[i].id, nodes[j].id) == CoGet(b.co, nodes[i].id, nodes[j].id);
  }

  lemma SameEdges(nodes: seq<Node>, a: Record, b: Record, threshold: real, numIDs: nat)
    requires NodesIn(nodes, a) && NodesIn(nodes, b) && SameCounts(a, b, numIDs)
    ensures EdgesOf(nodes, a, threshold) == EdgesOf(nodes, b, threshold)
  {
    forall i | 0 <= i < |nodes|
      ensures OutEdges(nodes, a, threshold, i, |nodes|) == OutEdges(nodes, b, threshold, i, |nodes|)
    {
      SameOutEdges(nodes, a, b, threshold, numIDs, i, |nodes|);
    }
  }

  /** A row's anchors depend on the counts only. */
  lemma SameAnchors(row: Row, a: Record, b: Record, threshold: real, numIDs: nat)
    requires RowOk(row, numIDs) && SameCounts(a, b, numIDs)
    ensures AnchorSpec(row, a, threshold) == AnchorSpec(row, b, threshold)
  {
    var nodes := RowNodes(row, a);
    assert RowNodes(row, b) == nodes;
    SameEdges(nodes, a, b, threshold, numIDs);
  }

  // ------------------------------------------------------------------ runs

  /** Two configurations that differ at most in how the work is done. */
  ghost predicate SameMeaning(a: Config, b: Config) {
    && a.whites == b.whites && a.blacks == b.blacks && a.symbols == b.symbols && a.tables == b.tables
    && a.filter == b.filter && a.threshold == b.threshold && a.patternSample == b.patternSample
  }

  lemma SameTokens(a: Config, b: Config, symbols: set<nat>, unique: seq<Str>, rowsA: seq<Row>, rowsB: seq<Row>)
    requires ConfigOk(a) && ConfigOk(b) && SameMeaning(a, b)
    requires Tokenized(TokensOfRows(rowsA), a, symbols, unique) && Tokenized(TokensOfRows(rowsB), b, symbols, unique)
    ensures |rowsA| == |rowsB| && TokensOfRows(rowsA) == TokensOfRows(rowsB)
    ensures forall i :: 0 <= i < |rowsA| ==> rowsA[i].toks == rowsB[i].toks
  {
    var ta, tb := TokensOfRows(rowsA), TokensOfRows(rowsB);
    assert |ta| == |rowsA| && |tb| == |rowsB|;
    forall u | 0 <= u < |unique| ensures ta[u] == tb[u] {
      assert RowTokens(a, symbols, unique[u]) == RowTokens(b, symbols, unique[u]);
    }
    assert forall i :: 0 <= i < |rowsA| ==> rowsA[i].toks == ta[i] && rowsB[i].toks == tb[i];
  }

  /** The primary stages of two runs agree on rows, mapping and groups. */
  lemma SamePrimary(a: Config, b: Config, messages: seq<Str>, runA: Run, runB: Run)
    requires ConfigOk(a) && ConfigOk(b) && SameMeaning(a, b)
    requires PrimaryOk(a, messages, runA) && PrimaryOk(b, messages, runB)
    ensures runA.rowOf == runB.rowOf && runA.unique == runB.unique && runA.rows == runB.rows
    ensures runA.groups == runB.groups
    ensures RunSets(a, runA) == RunSets(b, runB)
  {
    hide Deduped, Tokenized, InternerOk, IdsFit, Counts, GroupsOk, AnchorSpec, InternedAll;
    DedupDetermined(messages, runA.rowOf, runA.unique, runA.counts, runB.rowOf, runB.unique, runB.counts);
    SameTokens(a, b, a.symbols, runA.unique, runA.rows, runB.rows);
    RowsDetermined(runA.rows, runB.rows, PrimaryInterner(runA));
    CountsDetermined(runA.record, runB.record, runA.rows, runA.counts, a.filter, runA.numPrimary);
    forall r | 0 <= r < |runA.rows| ensures RunSets(a, runA)[r] == RunSets(b, runB)[r] {
      assert RowOk(runA.rows[r], runA.numPrimary);
      SameAnchors(runA.rows[r], runA.record, runB.record, a.threshold, runA.numPrimary);
    }
    RunSizes(a, messages, runA);
    RunSizes(b, messages, runB);
    assert RunSets(a, runA) == RunSets(b, runB);
    GroupsDetermined(runA.groups, runB.groups, RunSets(a, runA), runA.rowOf);
  }

  lemma SameRich(a: Config, b: Config, messages: seq<Str>, runA: Run, runB: Run)
    requires ConfigOk(a) && ConfigOk(b) && SameMeaning(a, b)
    requires PrimaryOk(a, messages, runA) && PrimaryOk(b, messages, runB)
    requires RichOk(a, runA) && RichOk(b, runB)
    ensures runA.richRows == runB.richRows && runA.numIDs == runB.numIDs
  {
    hide Deduped, Tokenized, InternerOk, IdsFit, Counts, GroupsOk, AnchorSpec, InternedAll;
    SamePrimary(a, b, messages, runA, runB);
    SameTokens(a, b, AllPunctuation(), runA.unique, runA.richRows, runB.richRows);
    RowsDetermined(runA.richRows, runB.richRows, runA.interner);
  }

  // --------------------------------------------------------------- results

  lemma SameClusters(x: seq<int>, y: seq<int>, groups: seq<Group>, sets: seq<set<Token>>, rowOf: seq<nat>)
    requires RowsBelow(rowOf, |sets|) && GroupsOk(groups, sets, rowOf)
    requires ClustersUpTo(x, groups, sets, rowOf, |groups|) && ClustersUpTo(y, groups, sets, rowOf, |groups|)
    ensures x == y
  {
    forall i | 0 <= i < |rowOf| ensures x[i] == y[i] {
      var g := GroupOfMessage(groups, sets, rowOf, i);
    }
  }

  lemma SameMasks(x: seq<Str>, y: seq<Str>, groups: seq<Group>, sets: seq<set<Token>>, rowOf: seq<nat>,
      richRows: seq<Row>, p: Policy, n: nat)
    requires RowsBelow(rowOf, |sets|) && GroupsOk(groups, sets, rowOf)
    requires CanRender(groups, richRows, p, n) && |richRows| == |sets|
    requires MasksUpTo(x, groups, sets, rowOf, richRows, p, n, |groups|)
    requires MasksUpTo(y, groups, sets, rowOf, richRows, p, n, |groups|)
    ensures x == y
  {
    hide MaskIn, GroupsOk, KeyOfSet, GroupUpTo;
    forall i | 0 <= i < |rowOf| ensures x[i] == y[i] {
      var g := GroupOfMessage(groups, sets, rowOf, i);
      if groups[g].anchors == [] {
        forall h: nat | h < |groups| && groups[h].anchors != [] ensures !InGroup(groups, sets, rowOf, i, h) {
          KeysDiffer(groups, sets, rowOf, g, h);
        }
      }
    }
  }

  lemma SameTemplates(x: seq<seq<Str>>, y: seq<seq<Str>>, groups: seq<Group>, richRows: seq<Row>, p: Policy, n: nat)
    requires CanRender(groups, richRows, p, n)
    requires TemplatesUpTo(x, groups, richRows, p, n, |groups|) && TemplatesUpTo(y, groups, richRows, p, n, |groups|)
    ensures x == y
  {
    hide TemplatesOfGroup;
    forall c | 0 <= c < |x| ensures x[c] == y[c] {
      var g := GroupOfID(groups, |groups|, c);
      assert TemplatesAt(x, groups, richRows, p, n, g) && TemplatesAt(y, groups, richRows, p, n, g);
      SameTemplateList(x[c], y[c], groups[g], richRows, p, n);
    }
  }

  lemma SameTemplateList(x: seq<Str>, y: seq<Str>, g: Group, richRows: seq<Row>, p: Policy, n: nat)
    requires RowsOk(richRows, n) && CanPick(g, richRows, p)
    requires TemplatesOfGroup(x, g, richRows, p, n) && TemplatesOfGroup(y, g, richRows, p, n)
    ensures x == y
  {
    PatternsOk(g, richRows, p, n);
    LessStrOrders(Elements(x));
    AscendingUnique<Str>(x, y, LessStr());
  }

  /** Whatever the parallelism, the processor count, the interleaving and the splitting
      kernel: the same clusters, templates and masks. */
  lemma ParseIsDeterministic(a: Config, b: Config, messages: seq<Str>, runA: Run, runB: Run,
      clustersA: seq<int>, templatesA: seq<seq<Str>>, masksA: seq<Str>,
      clustersB: seq<int>, templatesB: seq<seq<Str>>, masksB: seq<Str>, wantTemplates: bool, wantMasks: bool)
    requires ConfigOk(a) && ConfigOk(b) && SameMeaning(a, b)
    requires ParseOk(a, messages, runA, clustersA, templatesA, masksA, wantTemplates, wantMasks)
    requires ParseOk(b, messages, runB, clustersB, templatesB, masksB, wantTemplates, wantMasks)
    ensures clustersA == clustersB && templatesA == templatesB && masksA == masksB
  {
    hide PrimaryOk, RichOk, ClustersUpTo, TemplatesUpTo, MasksUpTo, CanRender, RunSets, RowsBelow, GroupsOk;
    SamePrimary(a, b, messages, runA, runB);
    PrimaryGroups(a, messages, runA);
    PrimaryGroups(b, messages, runB);
    SameClusters(clustersA, clustersB, runA.groups, RunSets(a, runA), runA.rowOf);
    if wantTemplates || wantMasks {
      SameRich(a, b, messages, runA, runB);
    }
    if wantTemplates {
      SameTemplates(templatesA, templatesB, runA.groups, runA.richRows, PolicyOf(a, runA), runA.numIDs);
    }
    if wantMasks {
      SameMasks(masksA, masksB, runA.groups, RunSets(a, runA), runA.rowOf, runA.richRows, PolicyOf(a, runA), runA.numIDs);
    }
  }

  lemma PrimaryGroups(cfg: Config, messages: seq<Str>, run: Run)
    requires ConfigOk(cfg) && PrimaryOk(cfg, messages, run)
    ensures RowsOk(run.rows, |run.record.occ|) && RowsBelow(run.rowOf, |RunSets(cfg, run)|)
    ensures GroupsOk(run.groups, RunSets(cfg, run), run.rowOf)
  {
  }
}
