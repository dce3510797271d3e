/** The two passes of the iterative Kosaraju algorithm, and what they compute:
    strongly connected components in reverse finishing order, and the first of
    maximum size. */
module Scc {
  import opened Graph

  // ------------------------------------------------------- specification

  function UpTo(lo: nat, hi: nat): (s: seq<nat>)
    requires lo <= hi
    ensures |s| == hi - lo && forall k :: 0 <= k < |s| ==> s[k] == lo + k
    decreases hi - lo
  {
    if lo == hi then [] else [lo] + UpTo(lo + 1, hi)
  }

  ghost function PostOrderSpec(g: Adj): seq<nat>
    requires WellFormed(g)
  {
    Dfs(g, UpTo(0, |g|), {})
  }

  /** The strongly connected component of v. */
  ghost function Component(g: Adj, v: nat): set<nat> {
    set x | x in Nodes(|g|) && Mutual(g, {}, v, x)
  }

  /** Components of the nodes order[..k], the last node's first, skipping
      nodes whose component was already taken. */
  ghost function Components(g: Adj, order: seq<nat>, k: nat, done: set<nat>): seq<set<nat>>
    requires k <= |order|
  {
    if k == 0 then []
    else if order[k - 1] in done then Components(g, order, k - 1, done)
    else
      var c := Component(g, order[k - 1]);
      [c] + Components(g, order, k - 1, done + c)
  }

  /** The first component of maximum size, if it is larger than `best`. */
  ghost function FirstLargest(cs: seq<set<nat>>, best: set<nat>): set<nat> {
    if cs == [] then best
    else FirstLargest(cs[1..], if |cs[0]| > |best| then cs[0] else best)
  }

  ghost function ComponentsSpec(g: Adj): seq<set<nat>>
    requires WellFormed(g)
  {
    Components(g, PostOrderSpec(g), |PostOrderSpec(g)|, {})
  }

  ghost function LargestSpec(g: Adj): set<nat>
    requires WellFormed(g)
  {
    FirstLargest(ComponentsSpec(g), {})
  }

  // ------------------------------------------------------------- lemmas

  /** The postorder is a permutation of the nodes. */
  lemma PostOrderPermutes(g: Adj)
    requires WellFormed(g)
    ensures NoDup(PostOrderSpec(g)) && ToSet(PostOrderSpec(g)) == Nodes(|g|)
    ensures |PostOrderSpec(g)| == |g|
  {
    var order := PostOrderSpec(g);
    DfsVisits(g, UpTo(0, |g|), {});
    forall x | x in Nodes(|g|) ensures x in order {
      assert UpTo(0, |g|)[x] == x;
    }
    assert ToSet(order) == Nodes(|g|);
    NoDupCard(order);
    NodesCard(|g|);
  }

  lemma MutualTrans(g: Adj, u: nat, v: nat, w: nat)
    requires Mutual(g, {}, u, v) && Mutual(g, {}, v, w)
    ensures Mutual(g, {}, u, w)
  {
    ReachTrans(g, {}, u, v, w);
    ReachTrans(g, {}, w, v, u);
  }

  lemma ComponentSelf(g: Adj, v: nat)
    requires v < |g|
    ensures v in Component(g, v)
  {
    ReachRefl(g, {}, v);
  }

  /** Two components are equal or disjoint. */
  lemma ComponentsDisjoint(g: Adj, u: nat, v: nat)
    requires u < |g| && v < |g|
    ensures if u in Component(g, v) then Component(g, u) == Component(g, v)
            else Component(g, u) !! Component(g, v)
  {
    forall x | x in Component(g, u) && x in Component(g, v) ensures u in Component(g, v) {
      MutualTrans(g, v, x, u);
    }
    if u in Component(g, v) {
      forall x | x in Nodes(|g|) ensures x in Component(g, u) <==> x in Component(g, v) {
        if x in Component(g, u) { MutualTrans(g, v, u, x); }
        if x in Component(g, v) { MutualTrans(g, u, v, x); }
      }
    }
  }

  /** `done` is a union of components. */
  ghost predicate Saturated(g: Adj, done: set<nat>) {
    done <= Nodes(|g|) && forall v :: v in done ==> Component(g, v) <= done
  }

  lemma SaturatedGrows(g: Adj, done: set<nat>, v: nat)
    requires Saturated(g, done) && v < |g| && v !in done
    ensures Saturated(g, done + Component(g, v)) && Component(g, v) !! done
  {
    var c := Component(g, v);
    forall x | x in c ensures Component(g, x) <= done + c && x !in done {
      ComponentsDisjoint(g, x, v);
      ComponentSelf(g, v);
    }
  }

  ghost predicate IsComponent(g: Adj, c: set<nat>) {
    exists v :: v in c && c == Component(g, v)
  }

  ghost predicate Covers(cs: seq<set<nat>>, x: nat) {
    exists i :: 0 <= i < |cs| && x in cs[i]
  }

  ghost predicate Disjoint(cs: seq<set<nat>>) {
    forall i, j :: 0 <= i < j < |cs| ==> cs[i] !! cs[j]
  }

  /** The components collected from order[..k] are pairwise disjoint classes
      outside `done` that together with it cover order[..k]. */
  ghost predicate Partition(g: Adj, cs: seq<set<nat>>, done: set<nat>, order: seq<nat>, k: nat)
    requires k <= |order|
  {
    && (forall c :: c in cs ==> c !! done && IsComponent(g, c))
    && Disjoint(cs)
    && (forall x :: x in order[..k] ==> x in done || Covers(cs, x))
  }

  lemma PartitionStep(g: Adj, c: set<nat>, rest: seq<set<nat>>, done: set<nat>, order: seq<nat>, k: nat)
    requires 0 < k <= |order| && order[k - 1] in c && c == Component(g, order[k - 1]) && c !! done
    requires Partition(g, rest, done + c, order, k - 1)
    ensures Partition(g, [c] + rest, done, order, k)
  {
    var cs := [c] + rest;
    assert IsComponent(g, c);
    assert order[..k] == order[..k - 1] + [order[k - 1]];
    forall i, j | 0 <= i < j < |cs| ensures cs[i] !! cs[j] {
      assert cs[j] == rest[j - 1] && rest[j - 1] in rest;
      if i > 0 { assert cs[i] == rest[i - 1]; }
    }
    forall x | x in order[..k] && x !in done ensures Covers(cs, x) {
      if x in c {
        assert x in cs[0];
      } else {
        assert x in order[..k - 1];
        var i :| 0 <= i < |rest| && x in rest[i];
        assert x in cs[i + 1];
      }
    }
  }

  lemma {:induction false} ComponentsPartition(g: Adj, order: seq<nat>, k: nat, done: set<nat>)
    requires k <= |order| && Below(order, |g|) && Saturated(g, done)
    ensures Partition(g, Components(g, order, k, done), done, order, k)
  {
    if k > 0 {
      var v := order[k - 1];
      if v in done {
        ComponentsPartition(g, order, k - 1, done);
        assert order[..k] == order[..k - 1] + [v];
      } else {
        var c := Component(g, v);
        SaturatedGrows(g, done, v);
        ComponentSelf(g, v);
        ComponentsPartition(g, order, k - 1, done + c);
        PartitionStep(g, c, Components(g, order, k - 1, done + c), done, order, k);
      }
    }
  }

  /** cs[i] is the first member of maximum size. */
  ghost predicate FirstOfMaxSize(cs: seq<set<nat>>, i: nat) {
    && i < |cs|
    && (forall h :: 0 <= h < |cs| ==> |cs[h]| <= |cs[i]|)
    && (forall h :: 0 <= h < i ==> |cs[h]| < |cs[i]|)
  }

  lemma {:induction false} FirstLargestIsMax(cs: seq<set<nat>>, best: set<nat>)
    ensures FirstLargest(cs, best) == best ==> forall c :: c in cs ==> |c| <= |best|
    ensures FirstLargest(cs, best) != best ==>
      exists i: nat :: FirstOfMaxSize(cs, i) && FirstLargest(cs, best) == cs[i] && |best| < |cs[i]|
  {
    if cs != [] {
      var b := if |cs[0]| > |best| then cs[0] else best;
      FirstLargestIsMax(cs[1..], b);
      var r := FirstLargest(cs[1..], b);
      assert forall i :: 1 <= i < |cs| ==> cs[i] == cs[1..][i - 1];
      assert forall c :: c in cs ==> c == cs[0] || c in cs[1..];
      if r != b {
        var i: nat :| FirstOfMaxSize(cs[1..], i) && r == cs[1..][i] && |b| < |r|;
        assert FirstOfMaxSize(cs, i + 1) && r == cs[i + 1];
      } else if |cs[0]| > |best| {
        assert forall i :: 1 <= i < |cs| ==> cs[i] in cs[1..];
        assert FirstOfMaxSize(cs, 0);
      }
    }
  }

  lemma NodeIsInOrder(g: Adj, v: nat)
    requires WellFormed(g) && v < |g|
    ensures v in PostOrderSpec(g)[..|PostOrderSpec(g)|]
  {
    PostOrderPermutes(g);
    assert v in Nodes(|g|) && v in ToSet(PostOrderSpec(g));
    assert PostOrderSpec(g)[..|PostOrderSpec(g)|] == PostOrderSpec(g);
  }

  /** The collected components partition the nodes: each is a mutual-reachability
      class, no two overlap, and every node's class is among them. */
  lemma ComponentsPartitionNodes(g: Adj)
    requires WellFormed(g)
    ensures forall c :: c in ComponentsSpec(g) ==> IsComponent(g, c)
    ensures Disjoint(ComponentsSpec(g))
    ensures forall v: nat :: v < |g| ==> Component(g, v) in ComponentsSpec(g)
  {
    var order := PostOrderSpec(g);
    var cs := ComponentsSpec(g);
    PostOrderPermutes(g);
    assert forall i :: 0 <= i < |order| ==> order[i] in ToSet(order);
    ComponentsPartition(g, order, |order|, {});
    forall v: nat | v < |g| ensures Component(g, v) in cs {
      NodeIsInOrder(g, v);
      var i :| 0 <= i < |cs| && v in cs[i];
      assert cs[i] in cs;
      var u :| u in cs[i] && cs[i] == Component(g, u);
      ComponentsDisjoint(g, v, u);
    }
  }

  /** The selected set is the first collected component of maximum size, and so
      no strongly connected component is larger. */
  lemma LargestIsComponent(g: Adj)
    requires WellFormed(g) && |g| > 0
    ensures IsComponent(g, LargestSpec(g))
    ensures forall v: nat :: v < |g| ==> |Component(g, v)| <= |LargestSpec(g)|
    ensures exists i: nat :: FirstOfMaxSize(ComponentsSpec(g), i) && LargestSpec(g) == ComponentsSpec(g)[i]
  {
    var cs := ComponentsSpec(g);
    ComponentsPartitionNodes(g);
    FirstLargestIsMax(cs, {});
    assert Component(g, 0) in cs;
    ComponentSelf(g, 0);
    assert |Component(g, 0)| > 0;
    var i: nat :| FirstOfMaxSize(cs, i) && LargestSpec(g) == cs[i];
    assert cs[i] in cs;
    forall v: nat | v < |g| ensures |Component(g, v)| <= |cs[i]| {
      var h :| 0 <= h < |cs| && cs[h] == Component(g, v);
    }
  }

  /** v = order[k] is the last node in finishing order outside the saturated set `done`. */
  ghost predicate NextRoot(g: Adj, done: set<nat>, k: nat)
    requires WellFormed(g)
  {
    var order := PostOrderSpec(g);
    && Saturated(g, done)
    && k < |order| && order[k] !in done
    && (forall j :: k < j < |order| ==> order[j] in done)
  }

  /** What reaches the next root without entering `done` is in the root's component. */
  lemma CollectedAreMutual(g: Adj, done: set<nat>, k: nat, x: nat)
    requires WellFormed(g) && NextRoot(g, done, k) && Reach(g, done, x, PostOrderSpec(g)[k])
    ensures x in Component(g, PostOrderSpec(g)[k])
  {
    var order := PostOrderSpec(g);
    assert forall j :: k < j < |order| ==> Component(g, order[j]) <= done;
    ReachEnds(g, done, x, order[k]);
    ReachMono(g, done, {}, x, order[k]);
    NodeIsInOrder(g, x);
    FinishOrder(g, UpTo(0, |g|), {}, x, k);
    var j :| k <= j < |order| && Mutual(g, {}, x, order[j]);
    assert x in Component(g, order[j]);
  }

  /** Every member of the next root's component reaches it without entering `done`. */
  lemma MutualAreCollected(g: Adj, done: set<nat>, v: nat, x: nat)
    requires Saturated(g, done) && v !in done && x in Component(g, v)
    ensures Reach(g, done, x, v)
  {
    ReachSplit(g, {}, done, x, v);
    assert {} + done == done;
    if y :| y in done && Reach(g, {}, x, y) && Reach(g, {}, y, v) {
      ReachTrans(g, {}, v, x, y);
      ReachEnds(g, {}, y, v);
      assert v in Component(g, y);
    }
  }
}
