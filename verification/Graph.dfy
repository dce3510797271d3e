/** Directed graphs as adjacency lists, reachability that avoids a set of nodes,
    and depth-first postorder. */
module Graph {

  type Adj = seq<seq<nat>>

  ghost predicate WellFormed(g: Adj) {
    forall u :: 0 <= u < |g| ==> Below(g[u], |g|)
  }

  function Nodes(n: nat): (s: set<nat>)
    ensures forall i: nat :: i in s <==> i < n
  {
    if n == 0 then {} else Nodes(n - 1) + {n - 1}
  }

  function ToSet(s: seq<nat>): set<nat> {
    set x | x in s
  }

  ghost predicate Below(s: seq<nat>, n: nat) {
    forall i :: 0 <= i < |s| ==> s[i] < n
  }

  ghost predicate NoDup(s: seq<nat>) {
    forall i, j :: 0 <= i < j < |s| ==> s[i] != s[j]
  }

  lemma NodesCard(n: nat)
    ensures |Nodes(n)| == n
  {
    if n > 0 {
      NodesCard(n - 1);
      assert Nodes(n) == Nodes(n - 1) + {n - 1};
    }
  }

  lemma {:induction false} NoDupCard(s: seq<nat>)
    requires NoDup(s)
    ensures |ToSet(s)| == |s|
  {
    if s != [] {
      var t := s[..|s| - 1];
      NoDupCard(t);
      assert ToSet(s) == ToSet(t) + {s[|s| - 1]};
    }
  }

  lemma {:induction false} SubsetCard(a: set<nat>, b: set<nat>)
    requires a <= b
    ensures |a| <= |b|
  {
    if a != {} {
      var x :| x in a;
      SubsetCard(a - {x}, b - {x});
    }
  }

  lemma NoDupBound(s: seq<nat>, n: nat)
    requires NoDup(s) && Below(s, n)
    ensures |s| <= n
  {
    NoDupCard(s);
    NodesCard(n);
    assert ToSet(s) <= Nodes(n);
    SubsetCard(ToSet(s), Nodes(n));
  }

  // ---------------------------------------------------------------- walks

  /** A non-empty walk whose nodes all lie outside `avoid`. */
  ghost predicate Walk(g: Adj, avoid: set<nat>, p: seq<nat>) {
    && |p| > 0
    && (forall i :: 0 <= i < |p| ==> p[i] < |g| && p[i] !in avoid)
    && (forall h, i :: 0 <= h < i < |p| && i == h + 1 ==> p[i] in g[p[h]])
  }

  ghost predicate WalkFromTo(g: Adj, avoid: set<nat>, p: seq<nat>, u: nat, v: nat) {
    Walk(g, avoid, p) && p[0] == u && p[|p| - 1] == v
  }

  ghost predicate Reach(g: Adj, avoid: set<nat>, u: nat, v: nat) {
    exists p :: WalkFromTo(g, avoid, p, u, v)
  }

  lemma ReachRefl(g: Adj, avoid: set<nat>, u: nat)
    requires u < |g| && u !in avoid
    ensures Reach(g, avoid, u, u)
  {
    assert WalkFromTo(g, avoid, [u], u, u);
  }

  lemma ReachEnds(g: Adj, avoid: set<nat>, u: nat, v: nat)
    requires Reach(g, avoid, u, v)
    ensures u < |g| && v < |g| && u !in avoid && v !in avoid
  {
  }

  lemma ReachTrans(g: Adj, avoid: set<nat>, u: nat, v: nat, w: nat)
    requires Reach(g, avoid, u, v) && Reach(g, avoid, v, w)
    ensures Reach(g, avoid, u, w)
  {
    var p :| WalkFromTo(g, avoid, p, u, v);
    var q :| WalkFromTo(g, avoid, q, v, w);
    var r := p + q[1..];
    forall h, i | 0 <= h < i < |r| && i == h + 1 ensures r[i] in g[r[h]] {
      if i >= |p| {
        assert r[i] == q[i - |p| + 1] && r[h] == q[h - |p| + 1];
      }
    }
    assert WalkFromTo(g, avoid, r, u, w);
  }

  lemma ReachEdge(g: Adj, avoid: set<nat>, u: nat, v: nat)
    requires u < |g| && v < |g| && v in g[u] && u !in avoid && v !in avoid
    ensures Reach(g, avoid, u, v)
  {
    assert WalkFromTo(g, avoid, [u, v], u, v);
  }

  lemma ReachMono(g: Adj, avoid: set<nat>, less: set<nat>, u: nat, v: nat)
    requires Reach(g, avoid, u, v) && less <= avoid
    ensures Reach(g, less, u, v)
  {
    var p :| WalkFromTo(g, avoid, p, u, v);
    assert WalkFromTo(g, less, p, u, v);
  }

  /** A walk either avoids `more` as well or can be cut at a node of `more`. */
  lemma ReachSplit(g: Adj, avoid: set<nat>, more: set<nat>, u: nat, v: nat)
    requires Reach(g, avoid, u, v)
    ensures Reach(g, avoid + more, u, v)
         || exists x :: x in more && Reach(g, avoid, u, x) && Reach(g, avoid, x, v)
  {
    var p :| WalkFromTo(g, avoid, p, u, v);
    if k :| 0 <= k < |p| && p[k] in more {
      assert WalkFromTo(g, avoid, p[..k + 1], u, p[k]);
      assert WalkFromTo(g, avoid, p[k..], p[k], v);
    } else {
      assert WalkFromTo(g, avoid + more, p, u, v);
    }
  }

  ghost predicate Mutual(g: Adj, avoid: set<nat>, u: nat, v: nat) {
    Reach(g, avoid, u, v) && Reach(g, avoid, v, u)
  }

  lemma MutualMono(g: Adj, avoid: set<nat>, less: set<nat>, u: nat, v: nat)
    requires Mutual(g, avoid, u, v) && less <= avoid
    ensures Mutual(g, less, u, v)
  {
    ReachMono(g, avoid, less, u, v);
    ReachMono(g, avoid, less, v, u);
  }

  /** S is closed under edges whose target is outside `avoid`. */
  ghost predicate Closed(g: Adj, avoid: set<nat>, S: set<nat>) {
    forall u, v :: u in S && u < |g| && v in g[u] ==> v in avoid || v in S
  }

  lemma {:induction false} WalkStays(g: Adj, avoid: set<nat>, S: set<nat>, p: seq<nat>)
    requires Closed(g, avoid, S) && Walk(g, avoid, p) && p[0] in S
    ensures p[|p| - 1] in S
  {
    if |p| > 1 {
      assert p[1] in g[p[0]];
      WalkStays(g, avoid, S, p[1..]);
    }
  }

  lemma ReachStays(g: Adj, avoid: set<nat>, S: set<nat>, u: nat, v: nat)
    requires Closed(g, avoid, S) && Reach(g, avoid, u, v) && u in S
    ensures v in S
  {
    var p :| WalkFromTo(g, avoid, p, u, v);
    WalkStays(g, avoid, S, p);
  }

  // ------------------------------------------------- reversing the edges

  ghost predicate Transposed(g: Adj, r: Adj) {
    |g| == |r| && forall u, v :: 0 <= u < |g| && 0 <= v < |g| ==> (v in g[u] <==> u in r[v])
  }

  lemma {:induction false} WalkReversed(g: Adj, r: Adj, avoid: set<nat>, p: seq<nat>, u: nat, v: nat)
    requires Transposed(g, r) && WalkFromTo(r, avoid, p, u, v)
    ensures Reach(g, avoid, v, u)
  {
    if |p| == 1 {
      ReachRefl(g, avoid, u);
    } else {
      WalkReversed(g, r, avoid, p[1..], p[1], v);
      assert p[1] in r[p[0]];
      ReachEdge(g, avoid, p[1], u);
      ReachTrans(g, avoid, v, p[1], u);
    }
  }

  lemma ReachReversed(g: Adj, r: Adj, avoid: set<nat>, u: nat, v: nat)
    requires Transposed(g, r)
    ensures Reach(r, avoid, u, v) <==> Reach(g, avoid, v, u)
  {
    if Reach(r, avoid, u, v) {
      var p :| WalkFromTo(r, avoid, p, u, v);
      WalkReversed(g, r, avoid, p, u, v);
    }
    if Reach(g, avoid, v, u) {
      var p :| WalkFromTo(g, avoid, p, v, u);
      WalkReversed(r, g, avoid, p, v, u);
    }
  }

  // ------------------------------------------------ depth-first postorder

  /** The number of nodes below n outside vis. */
  ghost function Free(n: nat, vis: set<nat>): nat {
    if n == 0 then 0 else Free(n - 1, vis) + (if n - 1 in vis then 0 else 1)
  }

  lemma {:induction false} FreeShrinks(n: nat, vis: set<nat>, v: nat, vis2: set<nat>)
    requires v !in vis && vis <= vis2 && v in vis2
    ensures Free(n, vis2) <= Free(n, vis)
    ensures v < n ==> Free(n, vis2) < Free(n, vis)
  {
    if n > 0 {
      FreeShrinks(n - 1, vis, v, vis2);
    }
  }

  /** The nodes a depth-first search newly visits from the roots `vs`, in the
      order in which it finishes them, when `vis` is already visited. */
  ghost function Dfs(g: Adj, vs: seq<nat>, vis: set<nat>): (p: seq<nat>)
    requires WellFormed(g) && Below(vs, |g|)
    decreases Free(|g|, vis), |vs|
  {
    if vs == [] then []
    else if vs[0] in vis then Dfs(g, vs[1..], vis)
    else
      var v := vs[0];
      FreeShrinks(|g|, vis, v, vis + {v});
      var p1 := Dfs(g, g[v], vis + {v});
      var vis2 := vis + {v} + ToSet(p1);
      FreeShrinks(|g|, vis, v, vis2);
      var p2 := Dfs(g, vs[1..], vis2);
      p1 + [v] + p2
  }

  /** The search visits new nodes only, each once, misses no root, and leaves no
      edge from a finished node to a node that is neither old nor finished. */
  lemma {:induction false} DfsVisits(g: Adj, vs: seq<nat>, vis: set<nat>)
    requires WellFormed(g) && Below(vs, |g|)
    ensures Visits(g, vis, Dfs(g, vs, vis))
    ensures forall x :: x in vs ==> x in vis || x in Dfs(g, vs, vis)
    decreases Free(|g|, vis), |vs|
  {
    if vs == [] {
    } else if vs[0] in vis {
      DfsVisits(g, vs[1..], vis);
    } else {
      var p1, vis2, p2 := DfsCut(g, vs, vis);
      DfsVisits(g, g[vs[0]], vis + {vs[0]});
      DfsVisits(g, vs[1..], vis2);
      assert forall x :: x in vs ==> x == vs[0] || x in vs[1..];
      VisitsJoin(g, vis, vs[0], p1, p2);
    }
  }

  ghost predicate Visits(g: Adj, vis: set<nat>, p: seq<nat>) {
    && (forall x :: x in p ==> x < |g| && x !in vis)
    && NoDup(p)
    && Closed(g, vis, ToSet(p))
  }

  lemma VisitsJoin(g: Adj, vis: set<nat>, v: nat, p1: seq<nat>, p2: seq<nat>)
    requires WellFormed(g) && v < |g| && v !in vis
    requires Visits(g, vis + {v}, p1) && (forall y :: y in g[v] ==> y in vis + {v} || y in p1)
    requires Visits(g, vis + {v} + ToSet(p1), p2)
    ensures Visits(g, vis, p1 + [v] + p2)
  {
    var p := p1 + [v] + p2;
    assert forall x :: x in p <==> x in p1 || x == v || x in p2;
    forall i, j | 0 <= i < j < |p| ensures p[i] != p[j] {
      assert i < |p1| ==> p[i] == p1[i] && p1[i] in ToSet(p1);
      assert j < |p1| ==> p[j] == p1[j] && p1[j] in ToSet(p1);
      assert j > |p1| ==> p[j] == p2[j - |p1| - 1] && p2[j - |p1| - 1] in p2;
      assert i > |p1| ==> p[i] == p2[i - |p1| - 1];
    }
  }

  /** Names the parts of a search that starts with an unvisited root. */
  lemma DfsCut(g: Adj, vs: seq<nat>, vis: set<nat>) returns (p1: seq<nat>, vis2: set<nat>, p2: seq<nat>)
    requires WellFormed(g) && Below(vs, |g|) && vs != [] && vs[0] !in vis
    ensures Free(|g|, vis + {vs[0]}) < Free(|g|, vis)
    ensures p1 == Dfs(g, g[vs[0]], vis + {vs[0]})
    ensures vis2 == vis + {vs[0]} + ToSet(p1) && Free(|g|, vis2) < Free(|g|, vis)
    ensures p2 == Dfs(g, vs[1..], vis2)
    ensures Dfs(g, vs, vis) == p1 + [vs[0]] + p2
  {
    FreeShrinks(|g|, vis, vs[0], vis + {vs[0]});
    p1 := Dfs(g, g[vs[0]], vis + {vs[0]});
    vis2 := vis + {vs[0]} + ToSet(p1);
    FreeShrinks(|g|, vis, vs[0], vis2);
    p2 := Dfs(g, vs[1..], vis2);
  }

  /** Every node the search finishes is reachable from one of its roots
      through nodes that were unvisited at the start. */
  lemma {:induction false} DfsReached(g: Adj, vs: seq<nat>, vis: set<nat>, y: nat)
    requires WellFormed(g) && Below(vs, |g|)
    requires y in Dfs(g, vs, vis)
    ensures exists x :: x in vs && Reach(g, vis, x, y)
    decreases Free(|g|, vis), |vs|
  {
    if vs[0] in vis {
      DfsReached(g, vs[1..], vis, y);
    } else {
      var v := vs[0];
      var p1, vis2, p2 := DfsCut(g, vs, vis);
      if y == v {
        ReachRefl(g, vis, v);
      } else if y in p1 {
        RootReaches(g, v, vis, y);
      } else {
        DfsReached(g, vs[1..], vis2, y);
        var x :| x in vs[1..] && Reach(g, vis2, x, y);
        ReachMono(g, vis2, vis, x, y);
      }
    }
  }

  /** Nodes finished below v are reachable from v. */
  lemma {:induction false} RootReaches(g: Adj, v: nat, vis: set<nat>, y: nat)
    requires WellFormed(g) && v < |g| && v !in vis
    requires y in Dfs(g, g[v], vis + {v})
    ensures Reach(g, vis, v, y)
    decreases Free(|g|, vis), 0
  {
    FreeShrinks(|g|, vis, v, vis + {v});
    DfsReached(g, g[v], vis + {v}, y);
    var x :| x in g[v] && Reach(g, vis + {v}, x, y);
    ReachMono(g, vis + {v}, vis, x, y);
    ReachEdge(g, vis, v, x);
    ReachTrans(g, vis, v, x, y);
  }

  lemma IndexJoin(p: seq<nat>, p1: seq<nat>, v: nat, p2: seq<nat>)
    requires p == p1 + [v] + p2
    ensures forall i :: |p1| < i < |p| ==> p[i] == p2[i - |p1| - 1] && p[i] in p2
    ensures forall k :: 0 <= k < |p2| ==> p2[k] == p[|p1| + 1 + k]
  {
  }

  /** p1 is everything a search from v finishes before v itself. */
  ghost predicate Subtree(g: Adj, v: nat, vis: set<nat>, p1: seq<nat>) {
    && v < |g| && v !in vis
    && Visits(g, vis + {v}, p1)
    && (forall y :: y in g[v] ==> y in vis + {v} || y in p1)
  }

  /** What is reachable from v or from below v was finished with v. */
  lemma BelowStays(g: Adj, v: nat, vis: set<nat>, p1: seq<nat>, x: nat, y: nat)
    requires Subtree(g, v, vis, p1) && Reach(g, vis, x, y)
    requires x == v || x in p1
    ensures y == v || y in p1
  {
    var S := {v} + ToSet(p1);
    assert Closed(g, vis, S);
    ReachStays(g, vis, S, x, y);
  }

  /** A walk to a node that was not finished with v never meets those that were. */
  lemma EscapesBelow(g: Adj, v: nat, vis: set<nat>, p1: seq<nat>, w: nat, y: nat)
    requires Subtree(g, v, vis, p1) && Reach(g, vis, w, y)
    requires y != v && y !in p1
    ensures Reach(g, vis + {v} + ToSet(p1), w, y)
  {
    var below := {v} + ToSet(p1);
    ReachSplit(g, vis, below, w, y);
    assert vis + below == vis + {v} + ToSet(p1);
    if x :| x in below && Reach(g, vis, w, x) && Reach(g, vis, x, y) {
      BelowStays(g, v, vis, p1, x, y);
    }
  }

  /** The node w itself, or one mutually reachable with it, finishes at i or later. */
  ghost predicate FinishesLast(g: Adj, vis: set<nat>, p: seq<nat>, w: nat, i: nat) {
    exists j :: i <= j < |p| && Mutual(g, vis, w, p[j])
  }

  /** The heart of Kosaraju's algorithm: if w reaches the node finished at
      position i, then some node mutually reachable with w finishes at i or later. */
  lemma {:induction false} FinishOrder(g: Adj, vs: seq<nat>, vis: set<nat>, w: nat, i: nat)
    requires WellFormed(g) && Below(vs, |g|)
    requires w in Dfs(g, vs, vis) && i < |Dfs(g, vs, vis)| && Reach(g, vis, w, Dfs(g, vs, vis)[i])
    ensures FinishesLast(g, vis, Dfs(g, vs, vis), w, i)
    decreases Free(|g|, vis), |vs|, 0
  {
    if vs[0] in vis {
      FinishOrder(g, vs[1..], vis, w, i);
    } else {
      var v := vs[0];
      var p1, vis2, p2 := DfsCut(g, vs, vis);
      DfsVisits(g, g[v], vis + {v});
      DfsVisits(g, vs[1..], vis2);
      FinishWithin(g, g[v], vis + {v}, p1, w, i);
      FinishWithin(g, vs[1..], vis2, p2, w, i - |p1| - 1);
      if w in p1 { RootReaches(g, v, vis, w); }
      FinishJoin(g, v, vis, p1, p2, w, i);
    }
  }

  /** Puts the two parts of a search together. */
  lemma FinishJoin(g: Adj, v: nat, vis: set<nat>, p1: seq<nat>, p2: seq<nat>, w: nat, i: nat)
    requires WellFormed(g) && Subtree(g, v, vis, p1)
    requires Visits(g, vis + {v} + ToSet(p1), p2)
    requires w in p1 + [v] + p2 && (w in p1 ==> Reach(g, vis, v, w))
    requires i < |p1 + [v] + p2| && Reach(g, vis, w, (p1 + [v] + p2)[i])
    requires FinishGiven(g, vis + {v}, p1, w, i)
    requires FinishGiven(g, vis + {v} + ToSet(p1), p2, w, i - |p1| - 1)
    ensures FinishesLast(g, vis, p1 + [v] + p2, w, i)
  {
    hide Reach, Closed, NoDup;
    IndexJoin(p1 + [v] + p2, p1, v, p2);
    if w == v || w in p1 {
      FinishBelow(g, v, vis, p1, p2, w, i);
    } else if i > |p1| {
      var m := i - |p1| - 1;
      FinishAfter(g, v, vis, p1, p2, w, m);
      FinishesShift(g, vis, p1, v, p2, w, m, i);
    } else {
      var k :| 0 <= k < |p2| && p2[k] == w;
      ReachRefl(g, vis, w);
      assert Mutual(g, vis, w, p2[k]);
      FinishesShift(g, vis, p1, v, p2, w, k, i);
    }
  }

  ghost predicate FinishGiven(g: Adj, vis: set<nat>, p: seq<nat>, w: nat, i: int) {
    w in p && 0 <= i < |p| && Reach(g, vis, w, p[i]) ==> FinishesLast(g, vis, p, w, i)
  }

  /** FinishOrder as a conditional fact about one part of a search. */
  lemma {:induction false} FinishWithin(g: Adj, vs: seq<nat>, vis: set<nat>, p: seq<nat>, w: nat, i: int)
    requires WellFormed(g) && Below(vs, |g|) && p == Dfs(g, vs, vis)
    ensures FinishGiven(g, vis, p, w, i)
    decreases Free(|g|, vis), |vs|, 1
  {
    if w in p && 0 <= i < |p| && Reach(g, vis, w, p[i]) {
      FinishOrder(g, vs, vis, w, i);
    }
  }

  /** The case of FinishOrder in which w is the first root or was finished below it. */
  lemma FinishBelow(g: Adj, v: nat, vis: set<nat>, p1: seq<nat>, p2: seq<nat>, w: nat, i: nat)
    requires WellFormed(g) && Subtree(g, v, vis, p1)
    requires Visits(g, vis + {v} + ToSet(p1), p2)
    requires w == v || (w in p1 && Reach(g, vis, v, w))
    requires i < |p1 + [v] + p2| && Reach(g, vis, w, (p1 + [v] + p2)[i])
    requires w in p1 && i < |p1| && Reach(g, vis + {v}, w, p1[i]) ==> FinishesLast(g, vis + {v}, p1, w, i)
    ensures FinishesLast(g, vis, p1 + [v] + p2, w, i)
  {
    var p := p1 + [v] + p2;
    IndexJoin(p, p1, v, p2);
    BelowStays(g, v, vis, p1, w, p[i]);
    ReachRefl(g, vis, v);
    if w == v || Reach(g, vis, w, v) {
      assert Mutual(g, vis, w, p[|p1|]);
    } else {
      ReachSplit(g, vis, {v}, w, p1[i]);
      var j :| i <= j < |p1| && Mutual(g, vis + {v}, w, p1[j]);
      MutualMono(g, vis + {v}, vis, w, p1[j]);
      assert Mutual(g, vis, w, p[j]);
    }
  }

  /** The case of FinishOrder in which w is finished after the first root. */
  lemma FinishAfter(g: Adj, v: nat, vis: set<nat>, p1: seq<nat>, p2: seq<nat>, w: nat, m: nat)
    requires WellFormed(g) && Subtree(g, v, vis, p1)
    requires Visits(g, vis + {v} + ToSet(p1), p2)
    requires m < |p2| && Reach(g, vis, w, p2[m])
    requires Reach(g, vis + {v} + ToSet(p1), w, p2[m]) ==> FinishesLast(g, vis + {v} + ToSet(p1), p2, w, m)
    ensures FinishesLast(g, vis, p2, w, m)
  {
    var vis2 := vis + {v} + ToSet(p1);
    assert p2[m] in p2;
    EscapesBelow(g, v, vis, p1, w, p2[m]);
    var k :| m <= k < |p2| && Mutual(g, vis2, w, p2[k]);
    MutualMono(g, vis2, vis, w, p2[k]);
  }

  lemma FinishesShift(g: Adj, vis: set<nat>, p1: seq<nat>, v: nat, p2: seq<nat>, w: nat, m: nat, i: nat)
    requires FinishesLast(g, vis, p2, w, m) && i <= |p1| + 1 + m
    ensures FinishesLast(g, vis, p1 + [v] + p2, w, i)
  {
    var p := p1 + [v] + p2;
    IndexJoin(p, p1, v, p2);
    var k :| m <= k < |p2| && Mutual(g, vis, w, p2[k]);
    assert p2[k] == p[|p1| + 1 + k];
  }
}
