/** From groups to results (the loop over groups in parse): cluster ids, templates and
    masks, and what they say about the messages. */
module Clusters {
  import opened Bytes
  import opened Tokens
  import opened TokenRecord
  import opened AnchorKey
  import opened Grouping
  import opened Template
  import opened Sampling

  // ---------------------------------------------------------- specification

  /** The number of groups with anchors among the first g: the next cluster id. */
  function NextID(groups: seq<Group>, g: nat): nat
    requires g <= |groups|
  {
    if g == 0 then 0 else NextID(groups, g - 1) + (if groups[g - 1].anchors == [] then 0 else 1)
  }

  /** The cluster id of group g; -1 for the group without anchors. */
  function Number(groups: seq<Group>, g: nat): int
    requires g < |groups|
  {
    if groups[g].anchors == [] then -1 else NextID(groups, g)
  }

  ghost function KeyAt(sets: seq<set<Token>>, rowOf: seq<nat>, idx: nat): Str
    requires RowsBelow(rowOf, |sets|) && idx < |rowOf|
  {
    KeyOfSet(sets[rowOf[idx]])
  }

  /** Message idx belongs to group g. */
  ghost predicate InGroup(groups: seq<Group>, sets: seq<set<Token>>, rowOf: seq<nat>, idx: nat, g: nat)
    requires RowsBelow(rowOf, |sets|) && idx < |rowOf|
  {
    g < |groups| && groups[g].key == KeyAt(sets, rowOf, idx)
  }

  /** Messages of the first i groups have their group's number, all others -1. */
  ghost predicate ClustersUpTo(clusters: seq<int>, groups: seq<Group>, sets: seq<set<Token>>, rowOf: seq<nat>, i: nat)
    requires RowsBelow(rowOf, |sets|) && i <= |groups|
  {
    && |clusters| == |rowOf|
    && (forall idx: nat, g: nat :: idx < |rowOf| && g < i && InGroup(groups, sets, rowOf, idx, g) ==>
          clusters[idx] == Number(groups, g))
    && (forall idx: nat :: idx < |rowOf| && (forall g: nat :: g < i ==> !InGroup(groups, sets, rowOf, idx, g)) ==>
          clusters[idx] == -1)
  }

  /** How patterns are made: from which tokens, and from how many rows of a group. */
  datatype Policy = Policy(filter: StaticFilter, sample: real, rowOf: seq<nat>)

  /** The rows of a group that patterns are made from: all of them, or a sample over
      the group's messages. */
  function PatternIDs(g: Group, p: Policy): (ids: seq<nat>)
    requires 0.0 < p.sample && RowsBelow(g.indices, |p.rowOf|)
  {
    if p.sample >= 1.0 then g.rows
    else
      var src := SourceIDs(g, p);
      match PositionsOf(|src|, p.sample)
      case None => src
      case Some(pos) => seq(|pos|, k requires 0 <= k < |pos| => if pos[k] < |src| then src[pos[k]] else 0)
  }

  /** Duplicates expanded, if there are any. */
  function SourceIDs(g: Group, p: Policy): seq<nat>
    requires RowsBelow(g.indices, |p.rowOf|)
  {
    if |g.indices| > |g.rows|
    then seq(|g.indices|, i requires 0 <= i < |g.indices| => p.rowOf[g.indices[i]])
    else g.rows
  }

  /** A group whose rows and messages exist. */
  ghost predicate CanPick(g: Group, richRows: seq<Row>, p: Policy) {
    && 0.0 < p.sample && g.rows != [] && RowsBelow(g.rows, |richRows|)
    && RowsBelow(g.indices, |p.rowOf|) && RowsBelow(p.rowOf, |richRows|)
    && |g.rows| <= MAX_INT32 && |g.indices| <= MAX_INT32
  }

  ghost predicate CanRender(groups: seq<Group>, richRows: seq<Row>, p: Policy, n: nat) {
    && RowsOk(richRows, n)
    && forall g :: 0 <= g < |groups| ==> CanPick(groups[g], richRows, p)
  }

  /** The picked rows are rows of the group: at least one, and few enough to count. */
  lemma PickedIDs(g: Group, richRows: seq<Row>, p: Policy)
    requires CanPick(g, richRows, p)
    ensures 0 < |PatternIDs(g, p)| <= MAX_INT32 && RowsBelow(PatternIDs(g, p), |richRows|)
    ensures forall r :: r in PatternIDs(g, p) ==> r in SourceIDs(g, p) || r in g.rows
  {
    var src := SourceIDs(g, p);
    assert RowsBelow(src, |richRows|);
    if p.sample < 1.0 && PositionsOf(|src|, p.sample).Some? {
      PositionsFit(|src|, p.sample);
    }
  }

  /** The picked rows, from their source. */
  lemma PatternsFromSource(g: Group, p: Policy)
    requires 0.0 < p.sample && RowsBelow(g.indices, |p.rowOf|)
    ensures var src, ids := SourceIDs(g, p), PatternIDs(g, p);
      if p.sample >= 1.0 then ids == g.rows
      else if PositionsOf(|src|, p.sample).None? then ids == src
      else
        var pos := PositionsOf(|src|, p.sample).value;
        |ids| == |pos| && forall k :: 0 <= k < |pos| ==> pos[k] < |src| && ids[k] == src[pos[k]]
  {
    hide PositionsOf, SourceIDs;
    PositionsFit(|SourceIDs(g, p)|, p.sample);
  }

  function RowsAt(ids: seq<nat>, richRows: seq<Row>): seq<Row>
    requires RowsBelow(ids, |richRows|)
  {
    seq(|ids|, k requires 0 <= k < |ids| => richRows[ids[k]])
  }

  ghost function PatternRows(g: Group, richRows: seq<Row>, p: Policy): (rows: seq<Row>)
    requires CanPick(g, richRows, p)
    ensures rows != []
  {
    PickedIDs(g, richRows, p);
    RowsAt(PatternIDs(g, p), richRows)
  }

  /** The ids common to all pattern rows of a group. */
  ghost function CommonOf(g: Group, richRows: seq<Row>, p: Policy, n: nat): set<nat>
    requires RowsOk(richRows, n) && CanPick(g, richRows, p)
  {
    PatternsOk(g, richRows, p, n);
    CommonIds(PatternRows(g, richRows, p), p.filter)
  }

  lemma PickedOk(ids: seq<nat>, richRows: seq<Row>, n: nat)
    requires RowsOk(richRows, n) && RowsBelow(ids, |richRows|)
    ensures RowsOk(RowsAt(ids, richRows), n)
    ensures forall r :: 0 <= r < |ids| ==> |RowsAt(ids, richRows)[r].toks| == |RowsAt(ids, richRows)[r].ids|
  {
    forall r | 0 <= r < |ids| ensures RowOk(RowsAt(ids, richRows)[r], n) {
      assert RowOk(richRows[ids[r]], n);
    }
  }

  lemma PatternsOk(g: Group, richRows: seq<Row>, p: Policy, n: nat)
    requires RowsOk(richRows, n) && CanPick(g, richRows, p)
    ensures var rows := PatternRows(g, richRows, p);
      RowsOk(rows, n) && |rows| <= MAX_INT32 && forall r :: 0 <= r < |rows| ==> |rows[r].toks| == |rows[r].ids|
  {
    PickedIDs(g, richRows, p);
    PickedOk(PatternIDs(g, p), richRows, n);
  }

  /** The templates of the numbered groups among the first i. */
  ghost predicate TemplatesUpTo(templates: seq<seq<Str>>, groups: seq<Group>, richRows: seq<Row>, p: Policy,
      n: nat, i: nat)
    requires CanRender(groups, richRows, p, n) && i <= |groups|
  {
    |templates| == NextID(groups, i) && forall g: nat :: g < i ==> TemplatesAt(templates, groups, richRows, p, n, g)
  }

  /** A numbered group's templates stand at its number. */
  ghost predicate TemplatesAt(templates: seq<seq<Str>>, groups: seq<Group>, richRows: seq<Row>, p: Policy,
      n: nat, g: nat)
    requires CanRender(groups, richRows, p, n) && g < |groups|
  {
    groups[g].anchors != [] ==>
      NextID(groups, g) < |templates| && TemplatesOfGroup(templates[NextID(groups, g)], groups[g], richRows, p, n)
  }

  ghost predicate TemplatesOfGroup(out: seq<Str>, g: Group, richRows: seq<Row>, p: Policy, n: nat)
    requires RowsOk(richRows, n) && CanPick(g, richRows, p)
  {
    PatternsOk(g, richRows, p, n);
    ClusterTemplates(out, PatternRows(g, richRows, p), CommonOf(g, richRows, p, n))
  }

  /** The mask of a message in group g. */
  ghost function MaskIn(g: Group, richRows: seq<Row>, p: Policy, n: nat, row: nat): Str
    requires RowsOk(richRows, n) && CanPick(g, richRows, p) && row < |richRows|
  {
    assert RowOk(richRows[row], n);
    RowMask(richRows[row], CommonOf(g, richRows, p, n))
  }

  /** Messages of the first i groups with anchors have their row's mask, all others none. */
  ghost predicate MasksUpTo(masks: seq<Str>, groups: seq<Group>, sets: seq<set<Token>>, rowOf: seq<nat>,
      richRows: seq<Row>, p: Policy, n: nat, i: nat)
    requires RowsBelow(rowOf, |sets|) && CanRender(groups, richRows, p, n) && |richRows| == |sets| && i <= |groups|
  {
    && |masks| == |rowOf|
    && (forall idx: nat, g: nat :: idx < |rowOf| && g < i && groups[g].anchors != [] && InGroup(groups, sets, rowOf, idx, g)
          ==> masks[idx] == MaskIn(groups[g], richRows, p, n, rowOf[idx]))
    && (forall idx: nat :: idx < |rowOf|
          && (forall g: nat :: g < i && groups[g].anchors != [] ==> !InGroup(groups, sets, rowOf, idx, g))
          ==> masks[idx] == [])
  }

  // ---------------------------------------------------------------- results

  /** Cluster ids are the classes of canonical keys. */
  ghost predicate ClassesByKey(clusters: seq<int>, count: nat, sets: seq<set<Token>>, rowOf: seq<nat>)
    requires RowsBelow(rowOf, |sets|)
  {
    && |clusters| == |rowOf|
    && (forall i :: 0 <= i < |rowOf| ==> -1 <= clusters[i] < count)
    && (forall i :: 0 <= i < |rowOf| ==> (clusters[i] == -1 <==> sets[rowOf[i]] == {}))
    && (forall i: nat, j: nat :: i < |rowOf| && j < |rowOf| ==>
          (clusters[i] == clusters[j] <==> KeyAt(sets, rowOf, i) == KeyAt(sets, rowOf, j)))
    && (forall c: nat :: c < count ==> c in clusters)
  }

  lemma {:induction false} NextIDGrows(groups: seq<Group>, g: nat, h: nat)
    requires g < h <= |groups|
    ensures NextID(groups, g) + (if groups[g].anchors == [] then 0 else 1) <= NextID(groups, h)
    decreases h
  {
    if g + 1 < h {
      NextIDGrows(groups, g, h - 1);
    }
  }

  /** Every cluster id below the count belongs to a group. */
  lemma {:induction false} GroupOfID(groups: seq<Group>, h: nat, c: nat) returns (g: nat)
    requires h <= |groups| && c < NextID(groups, h)
    ensures g < h && groups[g].anchors != [] && NextID(groups, g) == c
  {
    if groups[h - 1].anchors != [] && NextID(groups, h - 1) == c {
      g := h - 1;
    } else {
      g := GroupOfID(groups, h - 1, c);
    }
  }

  /** The group of a message. */
  lemma GroupOfMessage(groups: seq<Group>, sets: seq<set<Token>>, rowOf: seq<nat>, idx: nat) returns (g: nat)
    requires RowsBelow(rowOf, |sets|) && GroupsOk(groups, sets, rowOf) && idx < |rowOf|
    ensures g < |groups| && InGroup(groups, sets, rowOf, idx, g)
    ensures groups[g].anchors == [] <==> sets[rowOf[idx]] == {}
  {
    hide KeyOfSet, GroupUpTo;
    assert HasKey(groups, KeyAt(sets, rowOf, idx));
    g :| 0 <= g < |groups| && groups[g].key == KeyAt(sets, rowOf, idx);
    GroupAnchors(groups[g], sets, rowOf);
    EmptyKey(sets[rowOf[idx]]);
  }

  /** A group has anchors iff its key is not empty. */
  lemma GroupAnchors(g: Group, sets: seq<set<Token>>, rowOf: seq<nat>)
    requires RowsBelow(rowOf, |sets|) && GroupUpTo(g, sets, |sets|, rowOf, |rowOf|)
    ensures g.anchors == [] <==> g.key == []
  {
    GroupKeyOccurs(g, sets, rowOf);
  }

  lemma KeysDiffer(groups: seq<Group>, sets: seq<set<Token>>, rowOf: seq<nat>, g: nat, h: nat)
    requires RowsBelow(rowOf, |sets|) && GroupsOk(groups, sets, rowOf)
    requires g < |groups| && h < |groups|
    ensures groups[g].key == groups[h].key <==> g == h
    ensures Number(groups, g) == Number(groups, h) <==> g == h
  {
    hide GroupUpTo;
    GroupAnchors(groups[g], sets, rowOf);
    GroupAnchors(groups[h], sets, rowOf);
    if g < h {
      LessTotal(groups[g].key, groups[h].key);
      NextIDGrows(groups, g, h);
    } else if h < g {
      LessTotal(groups[h].key, groups[g].key);
      NextIDGrows(groups, h, g);
    }
  }

  /** Clusters are exactly the classes of equal keys: -1 iff the anchor set is empty,
      dense ids. */
  lemma ClustersAreKeyClasses(clusters: seq<int>, groups: seq<Group>, sets: seq<set<Token>>, rowOf: seq<nat>)
    requires RowsBelow(rowOf, |sets|) && GroupsOk(groups, sets, rowOf)
    requires ClustersUpTo(clusters, groups, sets, rowOf, |groups|)
    requires forall r: nat :: r < |sets| ==> r in rowOf
    ensures ClassesByKey(clusters, NextID(groups, |groups|), sets, rowOf)
  {
    hide KeyOfSet, GroupsOk, GroupUpTo;
    var count := NextID(groups, |groups|);
    forall i | 0 <= i < |rowOf|
      ensures -1 <= clusters[i] < count && (clusters[i] == -1 <==> sets[rowOf[i]] == {})
    {
      var g := GroupOfMessage(groups, sets, rowOf, i);
      NextIDGrows(groups, g, |groups|);
    }
    forall i: nat, j: nat | i < |rowOf| && j < |rowOf|
      ensures clusters[i] == clusters[j] <==> KeyAt(sets, rowOf, i) == KeyAt(sets, rowOf, j)
    {
      var g := GroupOfMessage(groups, sets, rowOf, i);
      var h := GroupOfMessage(groups, sets, rowOf, j);
      KeysDiffer(groups, sets, rowOf, g, h);
    }
    forall c: nat | c < count ensures c in clusters {
      var g := GroupOfID(groups, |groups|, c);
      var i := MessageOfGroup(groups, sets, rowOf, g);
      assert clusters[i] == c;
    }
  }

  /** Clusters are numbered in the order of their keys. */
  lemma IDsAscend(clusters: seq<int>, groups: seq<Group>, sets: seq<set<Token>>, rowOf: seq<nat>, i: nat, j: nat)
    requires RowsBelow(rowOf, |sets|) && GroupsOk(groups, sets, rowOf)
    requires ClustersUpTo(clusters, groups, sets, rowOf, |groups|)
    requires i < |rowOf| && j < |rowOf| && sets[rowOf[i]] != {} && sets[rowOf[j]] != {}
    ensures clusters[i] < clusters[j] <==> Less(KeyOfSet(sets[rowOf[i]]), KeyOfSet(sets[rowOf[j]]))
  {
    hide KeyOfSet, GroupUpTo, Less;
    var g := GroupOfMessage(groups, sets, rowOf, i);
    var h := GroupOfMessage(groups, sets, rowOf, j);
    LessTotal(groups[g].key, groups[h].key);
    if g < h {
      NextIDGrows(groups, g, h);
    } else if h < g {
      NextIDGrows(groups, h, g);
    }
  }

  lemma MessageOfGroup(groups: seq<Group>, sets: seq<set<Token>>, rowOf: seq<nat>, g: nat) returns (i: nat)
    requires RowsBelow(rowOf, |sets|) && GroupsOk(groups, sets, rowOf) && g < |groups|
    requires forall r: nat :: r < |sets| ==> r in rowOf
    ensures i < |rowOf| && InGroup(groups, sets, rowOf, i, g)
  {
    GroupKeyOccurs(groups[g], sets, rowOf);
    assert groups[g].rows[0] in rowOf;
    i :| 0 <= i < |rowOf| && rowOf[i] == groups[g].rows[0];
  }

  /** Whatever the anchors: clusters are exactly the classes of anchor sets that spell the same
      tokens, and at least one. */
  lemma ClustersAreSpellingClasses(clusters: seq<int>, count: nat, sets: seq<set<Token>>, rowOf: seq<nat>, i: nat, j: nat)
    requires RowsBelow(rowOf, |sets|) && ClassesByKey(clusters, count, sets, rowOf) && i < |rowOf| && j < |rowOf|
    ensures clusters[i] == clusters[j] >= 0 <==> SpellingOf(sets[rowOf[i]]) == SpellingOf(sets[rowOf[j]]) != []
  {
    hide KeyOfSet, SpellingOf;
    SetKeysEqualIff(sets[rowOf[i]], sets[rowOf[j]]);
    EmptySpelling(sets[rowOf[i]]);
    assert KeyAt(sets, rowOf, i) == KeyAt(sets, rowOf, j) <==> clusters[i] == clusters[j];
  }

  /** When no anchor's slice spells an entry boundary, clusters are exactly the classes of
      equal, non-empty anchor sets. */
  lemma ClustersAreAnchorClasses(clusters: seq<int>, count: nat, sets: seq<set<Token>>, rowOf: seq<nat>, i: nat, j: nat)
    requires RowsBelow(rowOf, |sets|) && ClassesByKey(clusters, count, sets, rowOf)
    requires i < |rowOf| && j < |rowOf| && MarkersFree(sets[rowOf[i]]) && MarkersFree(sets[rowOf[j]])
    ensures clusters[i] == clusters[j] >= 0 <==> sets[rowOf[i]] == sets[rowOf[j]] != {}
  {
    ClustersAreSpellingClasses(clusters, count, sets, rowOf, i, j);
    FreeSetSpelling(sets[rowOf[i]]);
    FreeSetSpelling(sets[rowOf[j]]);
    EmptySpelling(sets[rowOf[i]]);
    hide ClassesByKey, SpellingOf;
  }

  // ------------------------------------------------------------------- loops

  /** clusters[idx] = cid for the messages of a group. */
  method AssignCluster(clusters: array<int>, indices: seq<nat>, cid: int)
    requires RowsBelow(indices, clusters.Length)
    modifies clusters
    ensures forall i: nat :: i < clusters.Length ==> clusters[i] == if i in indices then cid else old(clusters[i])
  {
    for k := 0 to |indices|
      invariant forall i: nat :: i < clusters.Length ==> clusters[i] == if i in indices[..k] then cid else old(clusters[i])
    {
      clusters[indices[k]] := cid;
      assert indices[..k + 1] == indices[..k] + [indices[k]];
    }
    assert indices[..|indices|] == indices;
  }

  /** The two loops that hand each message of a group its row's mask, by way of the
      position table. */
  method AssignMasks(masks: array<Str>, rowPos: array<nat>, g: Group, rowMasks: seq<Str>, rowOf: seq<nat>)
    requires masks.Length == |rowOf| && |rowMasks| == |g.rows| && RowsBelow(g.rows, rowPos.Length)
    requires masks as object != rowPos
    requires forall k :: 0 <= k < |g.indices| ==> g.indices[k] < |rowOf| && rowOf[g.indices[k]] in g.rows
    modifies masks, rowPos
    ensures forall i: nat :: i < masks.Length && i !in g.indices ==> masks[i] == old(masks[i])
    ensures forall i: nat :: i < masks.Length && i in g.indices ==>
      exists k :: 0 <= k < |g.rows| && g.rows[k] == rowOf[i] && masks[i] == rowMasks[k]
  {
    for k := 0 to |g.rows|
      invariant masks[..] == old(masks[..])
      invariant forall h :: 0 <= h < k ==> rowPos[g.rows[h]] < k && g.rows[rowPos[g.rows[h]]] == g.rows[h]
    {
      rowPos[g.rows[k]] := k;
    }
    ghost var positions := rowPos[..];
    for k := 0 to |g.indices|
      invariant rowPos[..] == positions
      invariant forall i: nat :: i < masks.Length && i !in g.indices[..k] ==> masks[i] == old(masks[i])
      invariant forall i: nat :: i < masks.Length && i in g.indices[..k] ==>
        exists h :: 0 <= h < |g.rows| && g.rows[h] == rowOf[i] && masks[i] == rowMasks[h]
    {
      var idx := g.indices[k];
      assert rowOf[idx] in g.rows;
      masks[idx] := rowMasks[rowPos[rowOf[idx]]];
      assert g.indices[..k + 1] == g.indices[..k] + [idx];
    }
    assert g.indices[..|g.indices|] == g.indices;
  }

  /** Which messages the indices of a group name. */
  lemma GroupIndices(g: Group, sets: seq<set<Token>>, rowOf: seq<nat>, i: nat)
    requires RowsBelow(rowOf, |sets|) && GroupUpTo(g, sets, |sets|, rowOf, |rowOf|)
    ensures i in g.indices <==> i < |rowOf| && KeyAt(sets, rowOf, i) == g.key
    ensures i in g.indices ==> i < |rowOf| && rowOf[i] in g.rows
    ensures RowsBelow(g.indices, |rowOf|) && RowsBelow(g.rows, |sets|)
  {
    hide KeyOfSet;
    IndicesWithExact(sets, rowOf, |rowOf|, g.key, i);
    if i in g.indices {
      RowsWithExact(sets, |sets|, g.key, rowOf[i]);
    }
    forall k | 0 <= k < |g.indices| ensures g.indices[k] < |rowOf| {
      IndicesWithExact(sets, rowOf, |rowOf|, g.key, g.indices[k]);
    }
    forall k | 0 <= k < |g.rows| ensures g.rows[k] < |sets| {
      RowsWithExact(sets, |sets|, g.key, g.rows[k]);
    }
  }

  lemma ClustersStep(before: seq<int>, after: seq<int>, groups: seq<Group>, sets: seq<set<Token>>, rowOf: seq<nat>, i: nat)
    requires RowsBelow(rowOf, |sets|) && GroupsOk(groups, sets, rowOf) && i < |groups|
    requires ClustersUpTo(before, groups, sets, rowOf, i) && |after| == |before|
    requires forall idx: nat :: idx < |rowOf| ==>
      after[idx] == if idx in groups[i].indices then Number(groups, i) else before[idx]
    ensures ClustersUpTo(after, groups, sets, rowOf, i + 1)
  {
    hide KeyOfSet, GroupUpTo, Number;
    forall idx: nat | idx < |rowOf| ensures idx in groups[i].indices <==> InGroup(groups, sets, rowOf, idx, i) {
      GroupIndices(groups[i], sets, rowOf, idx);
    }
    forall idx: nat, g: nat | idx < |rowOf| && g < i + 1 && InGroup(groups, sets, rowOf, idx, g)
      ensures after[idx] == Number(groups, g)
    {
      KeysDiffer(groups, sets, rowOf, g, i);
    }
  }

  lemma NoClusters(clusters: seq<int>, groups: seq<Group>, sets: seq<set<Token>>, rowOf: seq<nat>)
    requires RowsBelow(rowOf, |sets|) && |clusters| == |rowOf|
    requires forall idx :: 0 <= idx < |rowOf| ==> clusters[idx] == -1
    ensures ClustersUpTo(clusters, groups, sets, rowOf, 0)
  {
  }

  lemma MasksStep(before: seq<Str>, after: seq<Str>, groups: seq<Group>, sets: seq<set<Token>>, rowOf: seq<nat>,
      richRows: seq<Row>, p: Policy, n: nat, i: nat)
    requires RowsBelow(rowOf, |sets|) && CanRender(groups, richRows, p, n) && |richRows| == |sets| && i < |groups|
    requires GroupsOk(groups, sets, rowOf) && groups[i].anchors != [] && |after| == |before|
    requires MasksUpTo(before, groups, sets, rowOf, richRows, p, n, i)
    requires forall idx: nat :: idx < |rowOf| ==>
      after[idx] == if idx in groups[i].indices then MaskIn(groups[i], richRows, p, n, rowOf[idx]) else before[idx]
    ensures MasksUpTo(after, groups, sets, rowOf, richRows, p, n, i + 1)
  {
    hide KeyOfSet, GroupUpTo, MaskIn;
    forall idx: nat | idx < |rowOf| ensures idx in groups[i].indices <==> InGroup(groups, sets, rowOf, idx, i) {
      GroupIndices(groups[i], sets, rowOf, idx);
    }
    forall idx: nat, g: nat
      | idx < |rowOf| && g < i + 1 && groups[g].anchors != [] && InGroup(groups, sets, rowOf, idx, g)
      ensures after[idx] == MaskIn(groups[g], richRows, p, n, rowOf[idx])
    {
      KeysDiffer(groups, sets, rowOf, g, i);
    }
  }

  lemma MasksSkip(masks: seq<Str>, groups: seq<Group>, sets: seq<set<Token>>, rowOf: seq<nat>,
      richRows: seq<Row>, p: Policy, n: nat, i: nat)
    requires RowsBelow(rowOf, |sets|) && CanRender(groups, richRows, p, n) && |richRows| == |sets| && i < |groups|
    requires groups[i].anchors == [] && MasksUpTo(masks, groups, sets, rowOf, richRows, p, n, i)
    ensures MasksUpTo(masks, groups, sets, rowOf, richRows, p, n, i + 1)
  {
    hide KeyOfSet, MaskIn, InGroup;
  }

  lemma NoMasks(masks: seq<Str>, groups: seq<Group>, sets: seq<set<Token>>, rowOf: seq<nat>,
      richRows: seq<Row>, p: Policy, n: nat)
    requires RowsBelow(rowOf, |sets|) && CanRender(groups, richRows, p, n) && |richRows| == |sets|
    requires |masks| == |rowOf| && forall idx :: 0 <= idx < |rowOf| ==> masks[idx] == []
    ensures MasksUpTo(masks, groups, sets, rowOf, richRows, p, n, 0)
  {
  }

  lemma TemplatesStep(templates: seq<seq<Str>>, out: seq<Str>, groups: seq<Group>, richRows: seq<Row>, p: Policy,
      n: nat, i: nat)
    requires CanRender(groups, richRows, p, n) && i < |groups| && groups[i].anchors != []
    requires TemplatesUpTo(templates, groups, richRows, p, n, i)
    requires TemplatesOfGroup(out, groups[i], richRows, p, n)
    ensures TemplatesUpTo(templates + [out], groups, richRows, p, n, i + 1)
  {
    hide TemplatesAt;
    forall g: nat | g < i + 1 ensures TemplatesAt(templates + [out], groups, richRows, p, n, g) {
      if g == i {
        NewTemplatesAt(templates, out, groups, richRows, p, n, i);
      } else {
        TemplatesStay(templates, out, groups, richRows, p, n, g, i);
      }
    }
  }

  lemma NewTemplatesAt(templates: seq<seq<Str>>, out: seq<Str>, groups: seq<Group>, richRows: seq<Row>, p: Policy,
      n: nat, i: nat)
    requires CanRender(groups, richRows, p, n) && i < |groups| && |templates| == NextID(groups, i)
    requires TemplatesOfGroup(out, groups[i], richRows, p, n)
    ensures TemplatesAt(templates + [out], groups, richRows, p, n, i)
  {
    hide TemplatesOfGroup;
  }

  lemma TemplatesStay(templates: seq<seq<Str>>, out: seq<Str>, groups: seq<Group>, richRows: seq<Row>, p: Policy,
      n: nat, g: nat, i: nat)
    requires CanRender(groups, richRows, p, n) && g < i < |groups| && |templates| == NextID(groups, i)
    requires TemplatesAt(templates, groups, richRows, p, n, g)
    ensures TemplatesAt(templates + [out], groups, richRows, p, n, g)
  {
    hide TemplatesOfGroup;
  }

  /** Expanding duplicates, so that sampling picks among messages. */
  method ExpandRows(g: Group, p: Policy) returns (src: seq<nat>)
    requires RowsBelow(g.indices, |p.rowOf|)
    ensures src == SourceIDs(g, p)
  {
    if |g.indices| <= |g.rows| {
      return g.rows;
    }
    src := [];
    for i := 0 to |g.indices|
      invariant |src| == i && forall k :: 0 <= k < i ==> src[k] == p.rowOf[g.indices[k]]
    {
      src := src + [p.rowOf[g.indices[i]]];
    }
  }

  method SelectRows(src: seq<nat>, pos: seq<nat>) returns (ids: seq<nat>)
    requires RowsBelow(pos, |src|)
    ensures |ids| == |pos| && forall k :: 0 <= k < |pos| ==> ids[k] == src[pos[k]]
  {
    ids := [];
    for k := 0 to |pos|
      invariant |ids| == k && forall h :: 0 <= h < k ==> ids[h] == src[pos[h]]
    {
      ids := ids + [src[pos[k]]];
    }
  }

  /** Choosing the rows that patterns are made from. */
  method PickPatterns(g: Group, p: Policy) returns (ids: seq<nat>)
    requires 0.0 < p.sample <= 1.0 && RowsBelow(g.indices, |p.rowOf|)
    ensures ids == PatternIDs(g, p)
  {
    hide SourceIDs, PositionsOf;
    if p.sample >= 1.0 {
      return g.rows;
    }
    var src := ExpandRows(g, p);
    var pos := SamplePositions(|src|, p.sample);
    if pos.None? {
      return src;
    }
    PositionsFit(|src|, p.sample);
    ids := SelectRows(src, pos.value);
  }

  lemma PositionsFit(n: nat, sample: real)
    requires 0.0 < sample
    ensures PositionsOf(n, sample).Some? ==> RowsBelow(PositionsOf(n, sample).value, n)
  {
    if PositionsOf(n, sample).Some? {
      var pos := PositionsOf(n, sample).value;
      forall k | 0 <= k < |pos| ensures pos[k] < n {
        EvenlySpread(n, |pos|, 0, k);
      }
    }
  }

  /** Template and mask rendering of one group. */
  method RenderGroup(g: Group, richRows: seq<Row>, p: Policy, n: nat, scratch: CommonScratch,
      wantTemplates: bool, wantMasks: bool)
    returns (out: seq<Str>, rowMasks: seq<Str>)
    requires RowsOk(richRows, n) && CanPick(g, richRows, p) && p.sample <= 1.0
    requires scratch.Valid() && (n <= scratch.clean || scratch.mark.Length < n)
    modifies scratch, scratch.mark
    ensures scratch.Valid() && n <= scratch.clean && (scratch.mark == old(scratch.mark) || fresh(scratch.mark))
    ensures wantTemplates ==> TemplatesOfGroup(out, g, richRows, p, n)
    ensures wantMasks ==> |rowMasks| == |g.rows|
    ensures wantMasks ==> forall k :: 0 <= k < |g.rows| ==> rowMasks[k] == MaskIn(g, richRows, p, n, g.rows[k])
  {
    hide CommonIds, RowMask, ClusterTemplates, CommonScratch.Valid, PatternIDs;
    out, rowMasks := [], [];
    var rowTokens := RowsAt(g.rows, richRows);
    PickedOk(g.rows, richRows, n);
    PickedIDs(g, richRows, p);
    PatternsOk(g, richRows, p, n);
    var ids := PickPatterns(g, p);
    var patternTokens := RowsAt(ids, richRows);
    var shared := scratch.SharedSlices(patternTokens, p.filter, n);
    ghost var common := CommonOf(g, richRows, p, n);
    if wantTemplates {
      out := TemplatesForCluster(patternTokens, shared, common, n);
    }
    if wantMasks {
      rowMasks := ParameterMasks(rowTokens, shared, common, n);
    }
  }

  lemma GroupsCanRender(groups: seq<Group>, sets: seq<set<Token>>, richRows: seq<Row>, p: Policy, n: nat)
    requires RowsBelow(p.rowOf, |sets|) && GroupsOk(groups, sets, p.rowOf) && 0.0 < p.sample
    requires RowsOk(richRows, n) && |richRows| == |sets| <= MAX_INT32 && |p.rowOf| <= MAX_INT32
    ensures CanRender(groups, richRows, p, n)
  {
    hide KeyOfSet;
    forall g | 0 <= g < |groups| ensures CanPick(groups[g], richRows, p) {
      assert GroupUpTo(groups[g], sets, |sets|, p.rowOf, |p.rowOf|);
      RowsWithSize(sets, |sets|, groups[g].key);
      IndicesWithSize(sets, p.rowOf, |p.rowOf|, groups[g].key);
      GroupIndices(groups[g], sets, p.rowOf, 0);
    }
  }

  lemma {:induction false} IndicesWithSize(sets: seq<set<Token>>, rowOf: seq<nat>, m: nat, key: Str)
    requires m <= |rowOf| && RowsBelow(rowOf, |sets|)
    ensures |IndicesWith(sets, rowOf, m, key)| <= m
  {
    if m > 0 {
      IndicesWithSize(sets, rowOf, m - 1, key);
    }
  }

  lemma {:induction false} RowsWithSize(sets: seq<set<Token>>, k: nat, key: Str)
    requires k <= |sets|
    ensures |RowsWith(sets, k, key)| <= k
  {
    if k > 0 {
      RowsWithSize(sets, k - 1, key);
    }
  }

  /** The part of a loop step that writes one group's masks. */
  method MaskGroup(masks: array<Str>, rowPos: array<nat>, rowMasks: seq<Str>, groups: seq<Group>, i: nat,
      rowOf: seq<nat>, ghost sets: seq<set<Token>>, ghost richRows: seq<Row>, ghost p: Policy, ghost n: nat)
    requires RowsBelow(rowOf, |sets|) && GroupsOk(groups, sets, rowOf) && |richRows| == |sets| == rowPos.Length
    requires CanRender(groups, richRows, p, n) && i < |groups| && groups[i].anchors != []
    requires masks.Length == |rowOf| && masks as object != rowPos
    requires MasksUpTo(masks[..], groups, sets, rowOf, richRows, p, n, i)
    requires |rowMasks| == |groups[i].rows|
    requires forall k :: 0 <= k < |rowMasks| ==> rowMasks[k] == MaskIn(groups[i], richRows, p, n, groups[i].rows[k])
    modifies masks, rowPos
    ensures MasksUpTo(masks[..], groups, sets, rowOf, richRows, p, n, i + 1)
  {
    hide MasksUpTo, MaskIn, KeyOfSet, GroupUpTo;
    ghost var before := masks[..];
    var g := groups[i];
    GroupIndices(g, sets, rowOf, 0);
    forall k | 0 <= k < |g.indices| ensures g.indices[k] < |rowOf| && rowOf[g.indices[k]] in g.rows {
      GroupIndices(g, sets, rowOf, g.indices[k]);
    }
    AssignMasks(masks, rowPos, g, rowMasks, rowOf);
    MasksStep(before, masks[..], groups, sets, rowOf, richRows, p, n, i);
  }

  lemma ClustersSkip(clusters: seq<int>, groups: seq<Group>, sets: seq<set<Token>>, rowOf: seq<nat>, i: nat)
    requires RowsBelow(rowOf, |sets|) && GroupsOk(groups, sets, rowOf) && i < |groups| && groups[i].anchors == []
    requires ClustersUpTo(clusters, groups, sets, rowOf, i)
    ensures ClustersUpTo(clusters, groups, sets, rowOf, i + 1)
  {
    hide KeyOfSet, GroupUpTo;
    forall idx: nat | idx < |rowOf| && InGroup(groups, sets, rowOf, idx, i) ensures clusters[idx] == -1 {
      forall g: nat | g < i ensures !InGroup(groups, sets, rowOf, idx, g) {
        KeysDiffer(groups, sets, rowOf, g, i);
      }
    }
  }

  lemma TemplatesSkip(templates: seq<seq<Str>>, groups: seq<Group>, richRows: seq<Row>, p: Policy, n: nat,
      i: nat)
    requires CanRender(groups, richRows, p, n) && i < |groups| && groups[i].anchors == []
    requires TemplatesUpTo(templates, groups, richRows, p, n, i)
    ensures TemplatesUpTo(templates, groups, richRows, p, n, i + 1)
  {
    assert TemplatesAt(templates, groups, richRows, p, n, i);
    hide TemplatesAt;
  }

  /** What the loop needs to know about group i. */
  lemma GroupFits(groups: seq<Group>, sets: seq<set<Token>>, rowOf: seq<nat>, richRows: seq<Row>, p: Policy, n: nat, i: nat)
    requires RowsBelow(rowOf, |sets|) && GroupsOk(groups, sets, rowOf) && CanRender(groups, richRows, p, n) && i < |groups|
    ensures CanPick(groups[i], richRows, p)
    ensures RowsBelow(groups[i].indices, |rowOf|)
  {
    GroupIndices(groups[i], sets, rowOf, 0);
  }

  /** The loop over the groups. */
  method AssignResults(groups: seq<Group>, rowOf: seq<nat>, richRows: seq<Row>, p: Policy, n: nat,
      wantTemplates: bool, wantMasks: bool, ghost sets: seq<set<Token>>)
    returns (clusters: seq<int>, templates: seq<seq<Str>>, masks: seq<Str>)
    requires RowsBelow(rowOf, |sets|) && GroupsOk(groups, sets, rowOf)
    requires RowsOk(richRows, n) && |richRows| == |sets| <= MAX_INT32
    requires p.rowOf == rowOf && |rowOf| <= MAX_INT32 && 0.0 < p.sample <= 1.0
    ensures CanRender(groups, richRows, p, n)
    ensures ClustersUpTo(clusters, groups, sets, rowOf, |groups|)
    ensures wantTemplates ==> TemplatesUpTo(templates, groups, richRows, p, n, |groups|)
    ensures wantMasks ==> MasksUpTo(masks, groups, sets, rowOf, richRows, p, n, |groups|)
    ensures (!wantTemplates ==> templates == []) && (!wantMasks ==> masks == [])
  {
    hide ClustersUpTo, TemplatesUpTo, MasksUpTo, GroupsOk, CanRender, TemplatesOfGroup, MaskIn, CanPick;
    hide RowsOk, RowsBelow, CommonScratch.Valid;
    GroupsCanRender(groups, sets, richRows, p, n);
    var clusterOf := new int[|rowOf|](_ => -1);
    var maskOf := new Str[if wantMasks then |rowOf| else 0](_ => []);
    var rowPos := new nat[|richRows|](_ => 0);
    var scratch := new CommonScratch();
    templates := [];
    var cid := 0;
    NoClusters(clusterOf[..], groups, sets, rowOf);
    NoTemplates(groups, richRows, p, n);
    if wantMasks { NoMasks(maskOf[..], groups, sets, rowOf, richRows, p, n); }
    for i := 0 to |groups|
      invariant maskOf as object != clusterOf && maskOf as object != rowPos && rowPos as object != clusterOf
      invariant scratch.Valid() && fresh(scratch) && fresh(scratch.mark)
      invariant scratch.mark != rowPos && scratch.mark as object != maskOf && scratch.mark as object != clusterOf
      invariant n <= scratch.clean || scratch.mark.Length < n
      invariant cid == NextID(groups, i)
      invariant ClustersUpTo(clusterOf[..], groups, sets, rowOf, i)
      invariant wantTemplates ==> TemplatesUpTo(templates, groups, richRows, p, n, i)
      invariant !wantTemplates ==> templates == []
      invariant wantMasks ==> MasksUpTo(maskOf[..], groups, sets, rowOf, richRows, p, n, i)
    {
      var g := groups[i];
      ghost var before := clusterOf[..];
      GroupFits(groups, sets, rowOf, richRows, p, n, i);
      if |g.anchors| == 0 {
        ClustersSkip(before, groups, sets, rowOf, i);
        if wantTemplates { TemplatesSkip(templates, groups, richRows, p, n, i); }
        if wantMasks { MasksSkip(maskOf[..], groups, sets, rowOf, richRows, p, n, i); }
        continue;
      }
      if wantTemplates || wantMasks {
        var out, rowMasks := RenderGroup(g, richRows, p, n, scratch, wantTemplates, wantMasks);
        if wantTemplates {
          TemplatesStep(templates, out, groups, richRows, p, n, i);
          templates := templates + [out];
        }
        if wantMasks {
          MaskGroup(maskOf, rowPos, rowMasks, groups, i, rowOf, sets, richRows, p, n);
        }
      }
      AssignCluster(clusterOf, g.indices, cid);
      ClustersStep(before, clusterOf[..], groups, sets, rowOf, i);
      cid := cid + 1;
    }
    clusters, masks := clusterOf[..], maskOf[..];
  }

  lemma NoTemplates(groups: seq<Group>, richRows: seq<Row>, p: Policy, n: nat)
    requires CanRender(groups, richRows, p, n)
    ensures TemplatesUpTo([], groups, richRows, p, n, 0)
  {
  }
}
