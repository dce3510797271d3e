/** In which order the two-pass algorithm takes things, in terms of walks: which of two nodes the
    first pass finishes first, and which component of maximum size the second pass keeps. */
module SearchOrder {
  import opened Graph
  import opened Scc

  // ------------------------------------------------------- order of finishing

  /** The index of the first start that reaches x outside vis; the number of starts if none does. */
  ghost function First(g: Adj, starts: seq<nat>, vis: set<nat>, x: nat): (i: nat)
    ensures i <= |starts| && (i < |starts| ==> Reach(g, vis, starts[i], x))
    ensures forall h :: 0 <= h < i ==> !Reach(g, vis, starts[h], x)
  {
    if starts == [] || Reach(g, vis, starts[0], x) then 0 else 1 + First(g, starts[1..], vis, x)
  }

  /** What has been visited when the search comes to start i, and start i itself. */
  ghost function VisitedAt(g: Adj, starts: seq<nat>, vis: set<nat>, i: nat): set<nat>
    requires i < |starts|
  {
    vis + {starts[i]} + set z | z in Nodes(|g|) && First(g, starts, vis, z) < i
  }

  /** A search from the starts finishes x before y: an earlier start reaches x, or the same start
      reaches both and is y, or finishes x before y in the search from its own successors. */
  ghost predicate Before(g: Adj, starts: seq<nat>, vis: set<nat>, x: nat, y: nat)
    requires WellFormed(g)
    decreases Free(|g|, vis)
  {
    var i, j := First(g, starts, vis, x), First(g, starts, vis, y);
    if i != j then i < j
    else if i == |starts| || x == starts[i] then false
    else
      ReachEnds(g, vis, starts[i], x);
      FreeShrinks(|g|, vis, starts[i], VisitedAt(g, starts, vis, i));
      y == starts[i] || Before(g, g[starts[i]], VisitedAt(g, starts, vis, i), x, y)
  }

  lemma FirstIs(g: Adj, starts: seq<nat>, vis: set<nat>, x: nat, i: nat)
    requires i <= |starts| && (i < |starts| ==> Reach(g, vis, starts[i], x))
    requires forall h :: 0 <= h < i ==> !Reach(g, vis, starts[h], x)
    ensures First(g, starts, vis, x) == i
  {
  }

  /** A first start that reaches neither node shifts the others' indices. */
  lemma BeforeShift(g: Adj, starts: seq<nat>, vis: set<nat>, vis2: set<nat>, x: nat, y: nat)
    requires WellFormed(g) && starts != []
    requires First(g, starts, vis, x) == 1 + First(g, starts[1..], vis2, x)
    requires First(g, starts, vis, y) == 1 + First(g, starts[1..], vis2, y)
    requires First(g, starts, vis, x) < |starts| ==>
      VisitedAt(g, starts, vis, First(g, starts, vis, x))
      == VisitedAt(g, starts[1..], vis2, First(g, starts[1..], vis2, x))
    requires Before(g, starts[1..], vis2, x, y)
    ensures Before(g, starts, vis, x, y)
  {
    hide First, Reach, VisitedAt, Free;
  }

  /** Starts that were visited before change nothing. */
  lemma BeforeSkip(g: Adj, starts: seq<nat>, vis: set<nat>, x: nat, y: nat)
    requires WellFormed(g) && starts != [] && starts[0] in vis
    requires Before(g, starts[1..], vis, x, y)
    ensures Before(g, starts, vis, x, y)
  {
    forall z ensures First(g, starts, vis, z) == 1 + First(g, starts[1..], vis, z) {
      if Reach(g, vis, starts[0], z) { ReachEnds(g, vis, starts[0], z); }
    }
    var i := First(g, starts, vis, x);
    hide Reach, Before, First;
    if i < |starts| {
      assert VisitedAt(g, starts, vis, i) == VisitedAt(g, starts[1..], vis, i - 1);
    }
    BeforeShift(g, starts, vis, vis, x, y);
  }

  /** The nodes finished with v are those that v reaches. */
  lemma BelowIsReached(g: Adj, v: nat, vis: set<nat>, p1: seq<nat>, x: nat)
    requires WellFormed(g) && v < |g| && v !in vis && p1 == Dfs(g, g[v], vis + {v})
    ensures Subtree(g, v, vis, p1)
    ensures x == v || x in p1 <==> Reach(g, vis, v, x)
  {
    FreeShrinks(|g|, vis, v, vis + {v});
    DfsVisits(g, g[v], vis + {v});
    ReachRefl(g, vis, v);
    if x in p1 {
      RootReaches(g, v, vis, x);
    }
    if Reach(g, vis, v, x) {
      BelowStays(g, v, vis, p1, v, x);
    }
  }

  /** After the first start's search, other nodes are first reached as before. */
  lemma FirstBehind(g: Adj, starts: seq<nat>, vis: set<nat>, p1: seq<nat>, z: nat)
    requires WellFormed(g) && Below(starts, |g|) && starts != [] && starts[0] !in vis
    requires p1 == Dfs(g, g[starts[0]], vis + {starts[0]})
    ensures var v, vis2 := starts[0], vis + {starts[0]} + ToSet(p1);
      First(g, starts, vis, z) == (if z == v || z in p1 then 0 else 1 + First(g, starts[1..], vis2, z))
    ensures var v, vis2 := starts[0], vis + {starts[0]} + ToSet(p1);
      (z == v || z in p1 ==> First(g, starts[1..], vis2, z) == |starts| - 1)
  {
    var v, vis2 := starts[0], vis + {starts[0]} + ToSet(p1);
    BelowIsReached(g, v, vis, p1, z);
    var rest := starts[1..];
    if z == v || z in p1 {
      forall h | 0 <= h < |rest| ensures !Reach(g, vis2, rest[h], z) {
        if Reach(g, vis2, rest[h], z) { ReachEnds(g, vis2, rest[h], z); }
      }
      hide Reach;
      FirstIs(g, rest, vis2, z, |rest|);
    } else {
      forall h | 0 <= h < |rest| ensures Reach(g, vis, rest[h], z) <==> Reach(g, vis2, rest[h], z) {
        if Reach(g, vis, rest[h], z) { EscapesBelow(g, v, vis, p1, rest[h], z); }
        if Reach(g, vis2, rest[h], z) { ReachMono(g, vis2, vis, rest[h], z); }
      }
      hide Reach;
      FirstIs(g, rest, vis, z, First(g, rest, vis2, z));
    }
  }

  /** The order among nodes behind the first start's search. */
  lemma BeforeBehind(g: Adj, starts: seq<nat>, vis: set<nat>, p1: seq<nat>, x: nat, y: nat)
    requires WellFormed(g) && Below(starts, |g|) && starts != [] && starts[0] !in vis
    requires p1 == Dfs(g, g[starts[0]], vis + {starts[0]})
    requires x != starts[0] && x !in p1 && y != starts[0] && y !in p1
    requires Before(g, starts[1..], vis + {starts[0]} + ToSet(p1), x, y)
    ensures Before(g, starts, vis, x, y)
  {
    var v, vis2 := starts[0], vis + {starts[0]} + ToSet(p1);
    FirstBehind(g, starts, vis, p1, x);
    FirstBehind(g, starts, vis, p1, y);
    var i := First(g, starts, vis, x);
    hide Reach, First, Dfs, Before, VisitedAt;
    if i < |starts| {
      SameVisited(g, starts, vis, p1, i);
    }
    BeforeShift(g, starts, vis, vis2, x, y);
  }

  lemma SameVisited(g: Adj, starts: seq<nat>, vis: set<nat>, p1: seq<nat>, i: nat)
    requires WellFormed(g) && Below(starts, |g|) && 0 < i < |starts| && starts[0] !in vis
    requires p1 == Dfs(g, g[starts[0]], vis + {starts[0]})
    ensures VisitedAt(g, starts, vis, i) == VisitedAt(g, starts[1..], vis + {starts[0]} + ToSet(p1), i - 1)
  {
    var v, vis2 := starts[0], vis + {starts[0]} + ToSet(p1);
    BelowIsReached(g, v, vis, p1, v);
    var a, b := VisitedAt(g, starts, vis, i), VisitedAt(g, starts[1..], vis2, i - 1);
    forall z ensures z in a <==> z in b {
      FirstBehind(g, starts, vis, p1, z);
    }
  }

  lemma DfsSkip(g: Adj, starts: seq<nat>, vis: set<nat>)
    requires WellFormed(g) && Below(starts, |g|)
    ensures starts == [] ==> Dfs(g, starts, vis) == []
    ensures starts != [] && starts[0] in vis ==> Dfs(g, starts, vis) == Dfs(g, starts[1..], vis)
  {
  }

  /** A search finishes its nodes in this order. */
  lemma {:induction false} DfsOrder(g: Adj, starts: seq<nat>, vis: set<nat>, a: nat, b: nat)
    requires WellFormed(g) && Below(starts, |g|) && a < b < |Dfs(g, starts, vis)|
    ensures Before(g, starts, vis, Dfs(g, starts, vis)[a], Dfs(g, starts, vis)[b])
    decreases Free(|g|, vis), |starts|
  {
    hide Dfs, Before, Reach;
    DfsSkip(g, starts, vis);
    if starts[0] in vis {
      DfsOrder(g, starts[1..], vis, a, b);
      BeforeSkip(g, starts, vis, Dfs(g, starts, vis)[a], Dfs(g, starts, vis)[b]);
    } else {
      var v := starts[0];
      var p1, vis2, p2 := DfsCut(g, starts, vis);
      if a > |p1| {
        DfsOrder(g, starts[1..], vis2, a - |p1| - 1, b - |p1| - 1);
      } else if b < |p1| {
        DfsOrder(g, g[v], vis + {v}, a, b);
      }
      OrderJoin(g, starts, vis, p1, p2, a, b);
    }
  }

  /** Puts the two parts of a search together. */
  lemma OrderJoin(g: Adj, starts: seq<nat>, vis: set<nat>, p1: seq<nat>, p2: seq<nat>, a: nat, b: nat)
    requires WellFormed(g) && Below(starts, |g|) && starts != [] && starts[0] !in vis
    requires p1 == Dfs(g, g[starts[0]], vis + {starts[0]}) && p2 == Dfs(g, starts[1..], vis + {starts[0]} + ToSet(p1))
    requires a < b < |p1 + [starts[0]] + p2|
    requires a > |p1| ==>
      Before(g, starts[1..], vis + {starts[0]} + ToSet(p1), p2[a - |p1| - 1], p2[b - |p1| - 1])
    requires b < |p1| ==> Before(g, g[starts[0]], vis + {starts[0]}, p1[a], p1[b])
    ensures Before(g, starts, vis, (p1 + [starts[0]] + p2)[a], (p1 + [starts[0]] + p2)[b])
  {
    var v, p := starts[0], p1 + [starts[0]] + p2;
    IndexJoin(p, p1, v, p2);
    DfsVisits(g, starts[1..], vis + {v} + ToSet(p1));
    hide Dfs, Reach;
    if a > |p1| {
      hide Before;
      BeforeBehind(g, starts, vis, p1, p[a], p[b]);
    } else if b > |p1| {
      FirstBehind(g, starts, vis, p1, p[a]);
      FirstBehind(g, starts, vis, p1, p[b]);
    } else {
      hide Before;
      BeforeBelow(g, starts, vis, p1, a, b);
    }
  }

  /** The order among the nodes finished with the first start. */
  lemma BeforeBelow(g: Adj, starts: seq<nat>, vis: set<nat>, p1: seq<nat>, a: nat, b: nat)
    requires WellFormed(g) && Below(starts, |g|) && starts != [] && starts[0] !in vis
    requires p1 == Dfs(g, g[starts[0]], vis + {starts[0]}) && a < b <= |p1|
    requires b < |p1| ==> Before(g, g[starts[0]], vis + {starts[0]}, p1[a], p1[b])
    ensures Before(g, starts, vis, p1[a], if b < |p1| then p1[b] else starts[0])
  {
    var v := starts[0];
    var x, y := p1[a], if b < |p1| then p1[b] else v;
    FirstBehind(g, starts, vis, p1, x);
    FirstBehind(g, starts, vis, p1, y);
    BelowIsReached(g, v, vis, p1, x);
    assert x in p1 && x != v;
    assert VisitedAt(g, starts, vis, 0) == vis + {v};
    hide Reach, Dfs, First;
  }

  // --------------------------------------------------------- the first pass

  /** The nodes 0, 1, ..., n - 1 in this order. */
  ghost predicate InOrder(starts: seq<nat>, n: nat) {
    |starts| == n && forall i :: 0 <= i < n ==> starts[i] == i
  }

  /** The postorder of the first pass, determined by walks: the searches start at 0, 1, 2, ... */
  lemma PostOrderIs(g: Adj, starts: seq<nat>, a: nat, b: nat)
    requires WellFormed(g) && InOrder(starts, |g|) && a < b < |PostOrderSpec(g)|
    ensures Before(g, starts, {}, PostOrderSpec(g)[a], PostOrderSpec(g)[b])
  {
    assert starts == UpTo(0, |g|);
    DfsOrder(g, UpTo(0, |g|), {}, a, b);
  }

  /** l is the smallest node that reaches x. */
  ghost predicate Leads(g: Adj, l: nat, x: nat) {
    Reach(g, {}, l, x) && forall h: nat :: h < l ==> !Reach(g, {}, h, x)
  }

  lemma LeaderIsFirst(g: Adj, starts: seq<nat>, l: nat, x: nat)
    requires InOrder(starts, |g|) && Leads(g, l, x)
    ensures l < |g| && First(g, starts, {}, x) == l
  {
    ReachEnds(g, {}, l, x);
    hide Reach;
    FirstIs(g, starts, {}, x, l);
  }

  /** Of two nodes, that with the smaller leader is finished first. */
  lemma SmallerLeaderFirst(g: Adj, u: nat, v: nat, lu: nat, lv: nat, a: nat, b: nat)
    requires WellFormed(g) && Leads(g, lu, u) && Leads(g, lv, v) && lu < lv
    requires a < |PostOrderSpec(g)| && b < |PostOrderSpec(g)| && PostOrderSpec(g)[a] == u && PostOrderSpec(g)[b] == v
    ensures a < b
  {
    var starts := UpTo(0, |g|);
    LeaderIsFirst(g, starts, lu, u);
    LeaderIsFirst(g, starts, lv, v);
    hide Reach, PostOrderSpec;
    if b < a {
      PostOrderIs(g, starts, b, a);
    }
  }

  // -------------------------------------------------------- the second pass

  /** All members of the later components come before a member of an earlier one. */
  ghost predicate RootsDescend(order: seq<nat>, cs: seq<set<nat>>, k: nat) {
    forall i, j, m :: 0 <= i < j < |cs| && k <= |order| && 0 <= m < |order| && order[m] in cs[j] ==>
      RootBehind(order, cs[i], m)
  }

  /** Some member of c stands behind position m. */
  ghost predicate RootBehind(order: seq<nat>, c: set<nat>, m: int) {
    exists q :: 0 <= m < q < |order| && order[q] in c
  }

  /** Components are collected in the order of their last members, the last one first. */
  lemma {:induction false} CollectedInOrder(g: Adj, order: seq<nat>, k: nat, done: set<nat>)
    requires k <= |order| && Below(order, |g|) && NoDup(order) && Saturated(g, done)
    requires forall q :: k <= q < |order| ==> order[q] in done
    ensures RootsDescend(order, Components(g, order, k, done), k)
  {
    if k > 0 {
      var v := order[k - 1];
      if v in done {
        CollectedInOrder(g, order, k - 1, done);
      } else {
        var c := Component(g, v);
        SaturatedGrows(g, done, v);
        ComponentSelf(g, v);
        CollectedInOrder(g, order, k - 1, done + c);
        ComponentsPartition(g, order, k - 1, done + c);
        hide Component, Saturated;
        RootFirst(order, c, Components(g, order, k - 1, done + c), done, k);
      }
    }
  }

  lemma RootFirst(order: seq<nat>, c: set<nat>, rest: seq<set<nat>>, done: set<nat>, k: nat)
    requires 0 < k <= |order| && order[k - 1] in c && RootsDescend(order, rest, k - 1)
    requires forall q :: k <= q < |order| ==> order[q] in done
    requires forall d :: d in rest ==> d !! done + c
    ensures RootsDescend(order, [c] + rest, k)
  {
    var cs := [c] + rest;
    forall i, j, m | 0 <= i < j < |cs| && 0 <= m < |order| && order[m] in cs[j] ensures RootBehind(order, cs[i], m) {
      assert cs[j] == rest[j - 1] && rest[j - 1] in rest;
      if i == 0 {
        assert m < k - 1;
        assert order[k - 1] in cs[0];
      } else {
        assert cs[i] == rest[i - 1];
      }
    }
  }

  lemma KeptIndex(g: Adj) returns (i: nat)
    requires WellFormed(g) && |g| > 0
    ensures FirstOfMaxSize(ComponentsSpec(g), i) && ComponentsSpec(g)[i] == LargestSpec(g)
  {
    LargestIsComponent(g);
    hide ComponentsSpec, LargestSpec, FirstOfMaxSize;
    i :| FirstOfMaxSize(ComponentsSpec(g), i) && LargestSpec(g) == ComponentsSpec(g)[i];
  }

  lemma IndexOfComponent(g: Adj, v: nat) returns (j: nat)
    requires WellFormed(g) && v < |g|
    ensures j < |ComponentsSpec(g)| && ComponentsSpec(g)[j] == Component(g, v) && v in Component(g, v)
  {
    ComponentsPartitionNodes(g);
    ComponentSelf(g, v);
    hide ComponentsSpec, Component, IsComponent;
    j :| 0 <= j < |ComponentsSpec(g)| && ComponentsSpec(g)[j] == Component(g, v);
  }

  lemma FirstPassOrder(g: Adj)
    requires WellFormed(g)
    ensures |PostOrderSpec(g)| == |g| && RootsDescend(PostOrderSpec(g), ComponentsSpec(g), |g|)
  {
    var order := PostOrderSpec(g);
    PostOrderPermutes(g);
    assert forall i :: 0 <= i < |order| ==> order[i] in ToSet(order);
    CollectedInOrder(g, order, |order|, {});
  }

  /** Of all nodes in components of maximum size, the one finished last is in the kept component. */
  lemma LastFinisherIsKept(g: Adj, m: nat)
    requires WellFormed(g) && m < |g| && |PostOrderSpec(g)| == |g|
    requires PostOrderSpec(g)[m] < |g| && PostOrderSpec(g)[m] !in LargestSpec(g)
    requires |Component(g, PostOrderSpec(g)[m])| == |LargestSpec(g)|
    ensures exists q :: m < q < |g| && PostOrderSpec(g)[q] in LargestSpec(g)
  {
    hide Component, PostOrderSpec, LargestSpec, ComponentsSpec, Components;
    FirstPassOrder(g);
    var i := KeptIndex(g);
    var j := IndexOfComponent(g, PostOrderSpec(g)[m]);
    assert i < j;
    assert RootBehind(PostOrderSpec(g), ComponentsSpec(g)[i], m);
  }

  /** Among the components of maximum size none has a greater leader than the kept one. */
  lemma GreatestLeaderIsKept(g: Adj, u: nat, v: nat, lu: nat, lv: nat)
    requires WellFormed(g) && u in LargestSpec(g) && v < |g| && |Component(g, v)| == |LargestSpec(g)|
    requires Leads(g, lu, u) && Leads(g, lv, v)
    ensures lv <= lu
  {
    if v !in LargestSpec(g) {
      PostOrderPermutes(g);
      var order := PostOrderSpec(g);
      assert v in Nodes(|g|) && v in ToSet(order);
      var m :| 0 <= m < |order| && order[m] == v;
      LastFinisherIsKept(g, m);
      var q :| m < q < |g| && order[q] in LargestSpec(g);
      LeaderOfComponent(g, u, order[q], lu);
      hide LargestSpec, PostOrderSpec, Component, Leads;
      if lu < lv {
        SmallerLeaderFirst(g, order[q], v, lu, lv, q, m);
      }
    } else {
      LeaderOfComponent(g, u, v, lu);
      LeaderUnique(g, lu, lv, v);
    }
  }

  lemma LeaderUnique(g: Adj, a: nat, b: nat, x: nat)
    requires Leads(g, a, x) && Leads(g, b, x)
    ensures a == b
  {
    hide Reach;
  }

  /** The members of a component have one leader. */
  lemma LeaderOfComponent(g: Adj, u: nat, w: nat, l: nat)
    requires WellFormed(g) && u in LargestSpec(g) && w in LargestSpec(g) && |g| > 0 && Leads(g, l, u)
    ensures Leads(g, l, w)
  {
    LargestIsComponent(g);
    hide LargestSpec;
    var c :| c in LargestSpec(g) && LargestSpec(g) == Component(g, c);
    assert Mutual(g, {}, c, u) && Mutual(g, {}, c, w);
    ReachTrans(g, {}, u, c, w);
    ReachTrans(g, {}, w, c, u);
    ReachTrans(g, {}, l, u, w);
    forall h: nat | h < l ensures !Reach(g, {}, h, w) {
      if Reach(g, {}, h, w) {
        ReachTrans(g, {}, h, w, u);
      }
    }
  }
}
