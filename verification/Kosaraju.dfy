/** The iterative two-pass search of graph.go, refining the recursive
    specification in module Scc. */
module Kosaraju {
  import opened Graph
  import opened Scc
  import opened SearchOrder

  /** One explicit stack frame: the next edge of v to look at is its i-th. */
  datatype Frame = Frame(v: nat, i: nat)

  ghost predicate FramesOk(g: Adj, frames: seq<Frame>, vis: set<nat>) {
    forall f :: f in frames ==> f.v < |g| && f.i <= |g[f.v]| && f.v in vis
  }

  /** The postorder that remains to be emitted by a stack of frames. */
  ghost function Resume(g: Adj, frames: seq<Frame>, vis: set<nat>): seq<nat>
    requires WellFormed(g) && FramesOk(g, frames, vis)
  {
    if frames == [] then []
    else
      var f := frames[|frames| - 1];
      assert f in frames && Below(g[f.v][f.i..], |g|);
      var p := Dfs(g, g[f.v][f.i..], vis);
      p + [f.v] + Resume(g, frames[..|frames| - 1], vis + ToSet(p))
  }

  /** What the whole first pass still has to emit. */
  ghost function Pending(g: Adj, frames: seq<Frame>, vis: set<nat>, next: nat): seq<nat>
    requires WellFormed(g) && FramesOk(g, frames, vis) && next <= |g|
  {
    var p := Resume(g, frames, vis);
    p + Dfs(g, UpTo(next, |g|), vis + ToSet(p))
  }

  lemma PendingIdle(g: Adj, vis: set<nat>, next: nat)
    requires WellFormed(g) && next <= |g|
    ensures Pending(g, [], vis, next) == Dfs(g, UpTo(next, |g|), vis)
  {
    assert vis + ToSet([]) == vis;
  }

  lemma PendingStart(g: Adj, vis: set<nat>, next: nat)
    requires WellFormed(g) && next < |g|
    ensures next in vis ==> Pending(g, [], vis, next) == Pending(g, [], vis, next + 1)
    ensures next !in vis ==> Pending(g, [], vis, next) == Pending(g, [Frame(next, 0)], vis + {next}, next + 1)
  {
    PendingIdle(g, vis, next);
    PendingIdle(g, vis, next + 1);
    assert UpTo(next, |g|) == [next] + UpTo(next + 1, |g|);
    assert UpTo(next, |g|)[1..] == UpTo(next + 1, |g|);
    if next !in vis {
      var p1, vis2, p2 := DfsCut(g, UpTo(next, |g|), vis);
      var frames := [Frame(next, 0)];
      assert g[next][0..] == g[next];
      var p := Resume(g, frames, vis + {next});
      assert p == p1 + [next] + Resume(g, [], vis + {next} + ToSet(p1)) == p1 + [next];
      assert vis + {next} + ToSet(p) == vis2;
    }
  }

  /** The next edge of the top frame leads to a visited node. */
  lemma ResumeSkip(g: Adj, below: seq<Frame>, f: Frame, vis: set<nat>)
    requires WellFormed(g) && FramesOk(g, below + [f], vis)
    requires f.i < |g[f.v]| && g[f.v][f.i] in vis
    ensures FramesOk(g, below + [f.(i := f.i + 1)], vis)
    ensures Resume(g, below + [f], vis) == Resume(g, below + [f.(i := f.i + 1)], vis)
  {
    assert (below + [f])[..|below|] == below == (below + [f.(i := f.i + 1)])[..|below|];
    assert forall x :: x in below + [f.(i := f.i + 1)] ==> x in below + [f] || x == f.(i := f.i + 1);
    assert f in below + [f];
    assert g[f.v][f.i..][1..] == g[f.v][f.i + 1..];
  }

  /** The next edge of the top frame leads to a new node, which is pushed. */
  lemma ResumePush(g: Adj, below: seq<Frame>, f: Frame, vis: set<nat>)
    requires WellFormed(g) && FramesOk(g, below + [f], vis)
    requires f.i < |g[f.v]| && g[f.v][f.i] !in vis
    ensures var to := g[f.v][f.i];
            var frames := below + [f.(i := f.i + 1)] + [Frame(to, 0)];
            FramesOk(g, frames, vis + {to})
            && Resume(g, below + [f], vis) == Resume(g, frames, vis + {to})
  {
    var to := g[f.v][f.i];
    var f' := f.(i := f.i + 1);
    var mid := below + [f'];
    var frames := mid + [Frame(to, 0)];
    assert (below + [f])[..|below|] == below == mid[..|below|];
    assert frames[..|mid|] == mid;
    assert f in below + [f] && Below(g[f.v], |g|);
    assert forall x :: x in frames ==> x in below + [f] || x == f' || x == Frame(to, 0);
    assert forall x :: x in mid ==> x in frames;
    assert g[f.v][f.i..][1..] == g[f.v][f.i + 1..];
    assert g[f.v][f.i..][0] == to;
    var p1, vis2, p2 := DfsCut(g, g[f.v][f.i..], vis);
    hide Dfs;
    assert g[to][0..] == g[to];
    assert Resume(g, frames, vis + {to}) == p1 + [to] + Resume(g, mid, vis2);
    assert Resume(g, mid, vis2) == p2 + [f.v] + Resume(g, below, vis2 + ToSet(p2));
    assert vis2 + ToSet(p2) == vis + ToSet(p1 + [to] + p2);
    assert Resume(g, below + [f], vis) == (p1 + [to] + p2) + [f.v] + Resume(g, below, vis2 + ToSet(p2));
    SeqAssoc(p1 + [to], p2, [f.v], Resume(g, below, vis2 + ToSet(p2)));
  }

  lemma SeqAssoc(a: seq<nat>, b: seq<nat>, c: seq<nat>, d: seq<nat>)
    ensures a + (b + c + d) == a + b + c + d
  {
  }

  /** The top frame is exhausted and its node is emitted. */
  lemma ResumePop(g: Adj, below: seq<Frame>, f: Frame, vis: set<nat>)
    requires WellFormed(g) && FramesOk(g, below + [f], vis) && f.i == |g[f.v]|
    ensures FramesOk(g, below, vis)
    ensures Resume(g, below + [f], vis) == [f.v] + Resume(g, below, vis)
    ensures vis + ToSet(Resume(g, below + [f], vis)) == vis + ToSet(Resume(g, below, vis))
  {
    assert (below + [f])[..|below|] == below;
    assert f in below + [f];
    assert forall x :: x in below ==> x in below + [f];
    assert vis + ToSet([]) == vis;
  }

  /** Edges still to be looked at plus frames still to be popped. */
  ghost function Work(g: Adj, frames: seq<Frame>): nat
    requires forall f :: f in frames ==> f.v < |g| && f.i <= |g[f.v]|
  {
    if frames == [] then 0
    else
      var f := frames[|frames| - 1];
      Work(g, frames[..|frames| - 1]) + (|g[f.v]| - f.i) + 1
  }

  lemma WorkTop(g: Adj, below: seq<Frame>, f: Frame, vis: set<nat>)
    requires FramesOk(g, below + [f], vis)
    ensures FramesOk(g, below, vis)
    ensures Work(g, below + [f]) == Work(g, below) + (|g[f.v]| - f.i) + 1
  {
    assert (below + [f])[..|below|] == below;
    assert forall x :: x in below ==> x in below + [f];
    assert f in below + [f];
  }

  /** One step of the first pass that visits no new node: skip an edge or pop. */
  lemma StepWithin(g: Adj, below: seq<Frame>, f: Frame, vis: set<nat>, next: nat)
    requires WellFormed(g) && FramesOk(g, below + [f], vis) && next <= |g|
    ensures f.i < |g[f.v]| && g[f.v][f.i] in vis ==>
      var frames := below + [f.(i := f.i + 1)];
      && FramesOk(g, frames, vis)
      && Pending(g, below + [f], vis, next) == Pending(g, frames, vis, next)
      && Work(g, frames) < Work(g, below + [f])
    ensures f.i == |g[f.v]| ==>
      && FramesOk(g, below, vis)
      && Pending(g, below + [f], vis, next) == [f.v] + Pending(g, below, vis, next)
      && Work(g, below) < Work(g, below + [f])
  {
    WorkTop(g, below, f, vis);
    if f.i == |g[f.v]| {
      ResumePop(g, below, f, vis);
    } else if g[f.v][f.i] in vis {
      ResumeSkip(g, below, f, vis);
      WorkTop(g, below, f.(i := f.i + 1), vis);
    }
  }

  lemma PushKeepsPending(g: Adj, below: seq<Frame>, f: Frame, vis: set<nat>, next: nat)
    requires WellFormed(g) && FramesOk(g, below + [f], vis) && next <= |g|
    requires f.i < |g[f.v]| && g[f.v][f.i] !in vis
    ensures var to := g[f.v][f.i];
            var frames := below + [f.(i := f.i + 1)] + [Frame(to, 0)];
            FramesOk(g, frames, vis + {to})
            && Pending(g, below + [f], vis, next) == Pending(g, frames, vis + {to}, next)
  {
    ResumePush(g, below, f, vis);
    var to := g[f.v][f.i];
    assert (below + [f])[..|below|] == below;
    assert f in below + [f] && Below(g[f.v][f.i..], |g|);
    var p := Dfs(g, g[f.v][f.i..], vis);
    DfsVisits(g, g[f.v][f.i..], vis);
    assert to == g[f.v][f.i..][0] && to in p;
    assert to in Resume(g, below + [f], vis);
    assert vis + {to} + ToSet(Resume(g, below + [f], vis)) == vis + ToSet(Resume(g, below + [f], vis));
  }

  /** The first pass has emitted `order` and will go on to emit the rest of the postorder. */
  ghost predicate OnTrack(g: Adj, order: seq<nat>, frames: seq<Frame>, vis: set<nat>, next: nat) {
    && WellFormed(g) && FramesOk(g, frames, vis) && next <= |g|
    && order + Pending(g, frames, vis, next) == PostOrderSpec(g)
  }

  lemma SplitTop(frames: seq<Frame>)
    requires frames != []
    ensures frames == frames[..|frames| - 1] + [frames[|frames| - 1]]
  {
  }

  /** An exhausted frame is popped and its node emitted. */
  lemma PopOnTrack(g: Adj, order: seq<nat>, below: seq<Frame>, f: Frame, vis: set<nat>, next: nat)
    requires OnTrack(g, order, below + [f], vis, next) && f.i == |g[f.v]|
    ensures OnTrack(g, order + [f.v], below, vis, next) && Work(g, below) < Work(g, below + [f])
  {
    StepWithin(g, below, f, vis, next);
    assert order + ([f.v] + Pending(g, below, vis, next)) == order + [f.v] + Pending(g, below, vis, next);
  }

  /** An edge is taken: its target is skipped if visited and pushed otherwise. */
  lemma EdgeOnTrack(g: Adj, order: seq<nat>, below: seq<Frame>, f: Frame, vis: set<nat>, next: nat)
    requires OnTrack(g, order, below + [f], vis, next) && f.i < |g[f.v]|
    ensures var to := g[f.v][f.i];
      var moved := below + [f.(i := f.i + 1)];
      && to < |g|
      && (to in vis ==> OnTrack(g, order, moved, vis, next) && Work(g, moved) < Work(g, below + [f]))
      && (to !in vis ==>
            OnTrack(g, order, moved + [Frame(to, 0)], vis + {to}, next) && Free(|g|, vis + {to}) < Free(|g|, vis))
  {
    assert f in below + [f] && Below(g[f.v], |g|);
    var to := g[f.v][f.i];
    if to in vis {
      StepWithin(g, below, f, vis, next);
    } else {
      PushKeepsPending(g, below, f, vis, next);
      FreeShrinks(|g|, vis, to, vis + {to});
    }
  }

  ghost predicate MarksOk(visited: array<bool>, vis: set<nat>)
    reads visited
  {
    forall v: nat :: v < visited.Length ==> (visited[v] <==> v in vis)
  }

  /** The loop over frames, started at an unvisited root. */
  method FinishTree(adj: Adj, visited: array<bool>, root: nat, order0: seq<nat>, ghost vis0: set<nat>)
    returns (order: seq<nat>, ghost vis: set<nat>)
    requires visited.Length == |adj| && MarksOk(visited, vis0)
    requires OnTrack(adj, order0, [Frame(root, 0)], vis0, root + 1)
    modifies visited
    ensures MarksOk(visited, vis)
    ensures OnTrack(adj, order, [], vis, root + 1)
  {
    hide PostOrderSpec, Pending;
    order, vis := order0, vis0;
    var frames := [Frame(root, 0)];
    while |frames| > 0
      invariant MarksOk(visited, vis)
      invariant OnTrack(adj, order, frames, vis, root + 1)
      decreases Free(|adj|, vis), Work(adj, frames)
    {
      var f := frames[|frames| - 1];
      SplitTop(frames);
      assert f in frames;
      if f.i < |adj[f.v]| {
        EdgeOnTrack(adj, order, frames[..|frames| - 1], f, vis, root + 1);
        var to := adj[f.v][f.i];
        frames := frames[..|frames| - 1] + [f.(i := f.i + 1)];
        if !visited[to] {
          visited[to] := true;
          vis := vis + {to};
          frames := frames + [Frame(to, 0)];
        }
        continue;
      }
      PopOnTrack(adj, order, frames[..|frames| - 1], f, vis, root + 1);
      order := order + [f.v];
      frames := frames[..|frames| - 1];
    }
  }

  /** The postorder lists nodes in the order of walks from the starts 0, 1, 2, ... */
  lemma InWalkOrder(adj: Adj)
    requires WellFormed(adj)
    ensures forall starts, a, b :: InOrder(starts, |adj|) && 0 <= a < b < |PostOrderSpec(adj)| ==>
      Before(adj, starts, {}, PostOrderSpec(adj)[a], PostOrderSpec(adj)[b])
  {
    hide PostOrderSpec, Before, InOrder;
    forall starts, a: nat, b: nat | InOrder(starts, |adj|) && a < b < |PostOrderSpec(adj)|
      ensures Before(adj, starts, {}, PostOrderSpec(adj)[a], PostOrderSpec(adj)[b])
    {
      PostOrderIs(adj, starts, a, b);
    }
  }

  /** First pass: postorder over adj with explicit frames. */
  method PostOrder(adj: Adj) returns (order: seq<nat>)
    requires WellFormed(adj)
    ensures order == PostOrderSpec(adj)
    ensures forall starts, a, b :: InOrder(starts, |adj|) && 0 <= a < b < |order| ==>
      Before(adj, starts, {}, order[a], order[b])
  {
    hide Pending, Before, InOrder;
    var n := |adj|;
    order := [];
    var visited := new bool[n](_ => false);
    ghost var vis: set<nat> := {};
    PendingIdle(adj, {}, 0);
    for v0 := 0 to n
      invariant MarksOk(visited, vis)
      invariant OnTrack(adj, order, [], vis, v0)
    {
      PendingStart(adj, vis, v0);
      if visited[v0] {
        continue;
      }
      visited[v0] := true;
      order, vis := FinishTree(adj, visited, v0, order, vis + {v0});
    }
    PendingIdle(adj, vis, n);
    InWalkOrder(adj);
  }

  // ------------------------------------------------------------ second pass

  /** Collecting from root: comp is expanded, the nodes of stack are found but
      not expanded, and both consist of nodes that reach root outside `done`. */
  ghost predicate Collecting(adj: Adj, done: set<nat>, root: nat, comp: seq<nat>, stack: seq<nat>) {
    && NoDup(comp + stack)
    && root in comp + stack
    && (forall x :: x in comp + stack ==> Reach(adj, done, x, root))
  }

  /** Every edge of rev out of an expanded node leads to `done` or a found node. */
  ghost predicate Expanded(rev: Adj, done: set<nat>, comp: seq<nat>, found: seq<nat>) {
    forall x, y :: x in comp && x < |rev| && y in rev[x] ==> y in done || y in found
  }

  lemma CollectedFacts(adj: Adj, done: set<nat>, root: nat, comp: seq<nat>, stack: seq<nat>)
    requires Collecting(adj, done, root, comp, stack)
    ensures forall x :: x in comp + stack ==> x < |adj| && x !in done
    ensures |comp| + |stack| <= |adj|
  {
    var found := comp + stack;
    forall x | x in found ensures x < |adj| && x !in done { ReachEnds(adj, done, x, root); }
    assert forall i :: 0 <= i < |found| ==> found[i] in found;
    NoDupBound(found, |adj|);
  }

  /** A newly found predecessor of a collected node may be pushed. */
  lemma CollectPush(adj: Adj, rev: Adj, done: set<nat>, root: nat, comp: seq<nat>, stack: seq<nat>, x: nat, to: nat)
    requires Transposed(adj, rev) && Collecting(adj, done, root, comp, stack)
    requires x in comp && x < |rev| && to in rev[x] && to < |adj| && to !in done && to !in comp + stack
    ensures Collecting(adj, done, root, comp, stack + [to])
  {
    assert comp + (stack + [to]) == comp + stack + [to];
    assert x in comp + stack;
    ReachEnds(adj, done, x, root);
    ReachEdge(adj, done, to, x);
    ReachTrans(adj, done, to, x, root);
  }

  /** Moving the top of the stack to the component changes nothing found. */
  lemma CollectMove(adj: Adj, rev: Adj, done: set<nat>, root: nat, comp: seq<nat>, stack: seq<nat>)
    requires Collecting(adj, done, root, comp, stack) && stack != []
    requires Expanded(rev, done, comp, comp + stack)
    ensures Collecting(adj, done, root, comp + [stack[|stack| - 1]], stack[..|stack| - 1])
    ensures Expanded(rev, done, comp, comp + [stack[|stack| - 1]] + stack[..|stack| - 1])
    ensures ToSet(comp + stack) == ToSet(comp + [stack[|stack| - 1]] + stack[..|stack| - 1])
    ensures stack[|stack| - 1] < |adj|
  {
    var top := stack[|stack| - 1];
    var rest := stack[..|stack| - 1];
    assert stack == rest + [top];
    var a, b := comp + stack, comp + [top] + rest;
    assert forall x :: x in a <==> x in b;
    assert top in a;
    ReachEnds(adj, done, top, root);
    forall i, j | 0 <= i < j < |b| ensures b[i] != b[j] {
      assert b[i] == a[MovedFrom(|comp|, |a|, i)] && b[j] == a[MovedFrom(|comp|, |a|, j)];
    }
  }

  function MovedFrom(c: int, n: int, i: int): int {
    if i < c then i else if i == c then n - 1 else i - 1
  }

  /** With nothing left on the stack, exactly root's component was collected. */
  lemma CollectedIsComponent(adj: Adj, rev: Adj, done: set<nat>, k: nat, comp: seq<nat>)
    requires WellFormed(adj) && Transposed(adj, rev) && NextRoot(adj, done, k)
    requires Collecting(adj, done, PostOrderSpec(adj)[k], comp, [])
    requires Expanded(rev, done, comp, comp)
    ensures ToSet(comp) == Component(adj, PostOrderSpec(adj)[k])
    ensures |comp| == |Component(adj, PostOrderSpec(adj)[k])|
  {
    var root := PostOrderSpec(adj)[k];
    assert comp + [] == comp;
    NoDupCard(comp);
    forall x | x in comp ensures x in Component(adj, root) {
      CollectedAreMutual(adj, done, k, x);
    }
    assert Closed(rev, done, ToSet(comp));
    forall x | x in Component(adj, root) ensures x in comp {
      MutualAreCollected(adj, done, root, x);
      ReachReversed(adj, rev, done, root, x);
      ReachStays(rev, done, ToSet(comp), root, x);
    }
  }

  /** The loop over the stack of the second pass: everything that reaches root
      over unvisited nodes, each node once. */
  method Collect(ghost adj: Adj, rev: Adj, visited: array<bool>, ghost k: nat, root: nat, ghost done: set<nat>)
    returns (comp: seq<nat>)
    requires WellFormed(adj) && WellFormed(rev) && Transposed(adj, rev)
    requires NextRoot(adj, done, k) && root == PostOrderSpec(adj)[k] && root < |adj|
    requires visited.Length == |rev| && MarksOk(visited, done + {root})
    modifies visited
    ensures ToSet(comp) == Component(adj, root) && |comp| == |Component(adj, root)|
    ensures MarksOk(visited, done + Component(adj, root))
  {
    comp := [];
    var stack := [root];
    ReachRefl(adj, done, root);
    assert comp + stack == [root];
    assert Collecting(adj, done, root, comp, stack) && Expanded(rev, done, comp, comp + stack);
    assert ToSet([root]) == {root};
    hide Component, NextRoot, PostOrderSpec, Collecting, Expanded, ToSet;
    while |stack| > 0
      invariant Collecting(adj, done, root, comp, stack)
      invariant Expanded(rev, done, comp, comp + stack)
      invariant MarksOk(visited, done + ToSet(comp + stack))
      decreases |rev| - |comp|
    {
      CollectedFacts(adj, done, root, comp, stack);
      CollectMove(adj, rev, done, root, comp, stack);
      var x := stack[|stack| - 1];
      ghost var before := comp;
      stack := stack[..|stack| - 1];
      comp := comp + [x];
      stack := ExpandNode(adj, rev, visited, root, done, before, comp, stack, x);
    }
    assert comp + stack == comp;
    CollectedIsComponent(adj, rev, done, k, comp);
  }

  /** The inner loop of Collect: pushes the unvisited predecessors of x. */
  method ExpandNode(ghost adj: Adj, rev: Adj, visited: array<bool>, ghost root: nat, ghost done: set<nat>,
      ghost before: seq<nat>, ghost comp: seq<nat>, stack0: seq<nat>, x: nat)
    returns (stack: seq<nat>)
    requires WellFormed(rev) && Transposed(adj, rev) && x < |rev|
    requires comp == before + [x]
    requires visited.Length == |rev| && MarksOk(visited, done + ToSet(comp + stack0))
    requires Collecting(adj, done, root, comp, stack0)
    requires Expanded(rev, done, before, comp + stack0)
    modifies visited
    ensures MarksOk(visited, done + ToSet(comp + stack))
    ensures Collecting(adj, done, root, comp, stack)
    ensures Expanded(rev, done, comp, comp + stack)
  {
    stack := stack0;
    assert Below(rev[x], |rev|);
    for k := 0 to |rev[x]|
      invariant MarksOk(visited, done + ToSet(comp + stack))
      invariant Collecting(adj, done, root, comp, stack)
      invariant stack0 <= stack
      invariant forall j :: 0 <= j < k ==> rev[x][j] in done || rev[x][j] in comp + stack
    {
      var to := rev[x][k];
      if !visited[to] {
        CollectPush(adj, rev, done, root, comp, stack, x, to);
        visited[to] := true;
        stack := stack + [to];
      }
    }
    forall u, y | u in comp && u < |rev| && y in rev[u] ensures y in done || y in comp + stack {
      if u in before {
        assert y in done || y in comp + stack0;
      }
    }
  }

  ghost predicate SuffixIn(order: seq<nat>, k: int, done: set<nat>) {
    forall j :: 0 <= k <= j < |order| ==> order[j] in done
  }

  /** After order[k..] has been dealt with, `done` is visited, and going on with
      the components of order[..k] from `best` gives the selected component. */
  ghost predicate PassTwo(adj: Adj, k: nat, done: set<nat>, best: set<nat>) {
    && WellFormed(adj) && k <= |PostOrderSpec(adj)|
    && Saturated(adj, done) && SuffixIn(PostOrderSpec(adj), k, done)
    && FirstLargest(Components(adj, PostOrderSpec(adj), k, done), best) == LargestSpec(adj)
  }

  lemma OrderNode(adj: Adj, k: nat)
    requires WellFormed(adj) && k < |PostOrderSpec(adj)|
    ensures PostOrderSpec(adj)[k] < |adj|
  {
    PostOrderPermutes(adj);
    assert PostOrderSpec(adj)[k] in ToSet(PostOrderSpec(adj));
  }

  lemma PassTwoStart(adj: Adj)
    requires WellFormed(adj)
    ensures PassTwo(adj, |PostOrderSpec(adj)|, {}, {})
  {
  }

  lemma PassTwoEnd(adj: Adj, done: set<nat>, best: set<nat>)
    requires PassTwo(adj, 0, done, best)
    ensures best == LargestSpec(adj)
  {
  }

  lemma PassTwoSkip(adj: Adj, k: nat, done: set<nat>, best: set<nat>)
    requires PassTwo(adj, k + 1, done, best) && PostOrderSpec(adj)[k] in done
    ensures PassTwo(adj, k, done, best)
  {
  }

  lemma PassTwoTake(adj: Adj, k: nat, done: set<nat>, best: set<nat>)
    requires PassTwo(adj, k + 1, done, best) && PostOrderSpec(adj)[k] !in done
    ensures NextRoot(adj, done, k)
    ensures var c := Component(adj, PostOrderSpec(adj)[k]);
      PassTwo(adj, k, done + c, if |c| > |best| then c else best)
  {
    var order := PostOrderSpec(adj);
    OrderNode(adj, k);
    var c := Component(adj, order[k]);
    SaturatedGrows(adj, done, order[k]);
    ComponentSelf(adj, order[k]);
    var rest := Components(adj, order, k, done + c);
    assert ([c] + rest)[1..] == rest && ([c] + rest)[0] == c;
  }

  /** Nodes of other components of maximum size have smaller leaders. */
  lemma GreatestLeader(adj: Adj)
    requires WellFormed(adj)
    ensures forall u, v: nat, lu, lv ::
      (u in LargestSpec(adj) && v < |adj| && |Component(adj, v)| == |LargestSpec(adj)|
       && Leads(adj, lu, u) && Leads(adj, lv, v)) ==> lv <= lu
  {
    hide LargestSpec, Component, Leads;
    forall u, v: nat, lu, lv | u in LargestSpec(adj) && v < |adj| && |Component(adj, v)| == |LargestSpec(adj)|
      && Leads(adj, lu, u) && Leads(adj, lv, v)
      ensures lv <= lu
    {
      GreatestLeaderIsKept(adj, u, v, lu, lv);
    }
  }

  /** Second pass: components over rev in reverse finishing order, keeping the
      first of maximum size. */
  method LargestComponent(ghost adj: Adj, rev: Adj, order: seq<nat>) returns (largest: seq<nat>)
    requires WellFormed(adj) && WellFormed(rev) && Transposed(adj, rev)
    requires order == PostOrderSpec(adj)
    ensures ToSet(largest) == LargestSpec(adj) && |largest| == |LargestSpec(adj)|
    ensures forall u, v: nat, lu, lv ::
      (u in largest && v < |adj| && |Component(adj, v)| == |largest|
       && Leads(adj, lu, u) && Leads(adj, lv, v)) ==> lv <= lu
  {
    hide Leads;
    hide PassTwo, Component, LargestSpec, NextRoot, PostOrderSpec;
    var visited := new bool[|rev|](_ => false);
    ghost var done: set<nat> := {};
    largest := [];
    PassTwoStart(adj);
    assert ToSet(largest) == {};
    for i := |order| downto 0
      invariant MarksOk(visited, done)
      invariant |largest| == |ToSet(largest)|
      invariant PassTwo(adj, i, done, ToSet(largest))
    {
      var v := order[i];
      OrderNode(adj, i);
      if visited[v] {
        PassTwoSkip(adj, i, done, ToSet(largest));
        continue;
      }
      PassTwoTake(adj, i, done, ToSet(largest));
      visited[v] := true;
      var comp := Collect(adj, rev, visited, i, v, done);
      done := done + Component(adj, v);
      if |comp| > |largest| {
        largest := comp;
      }
    }
    PassTwoEnd(adj, done, ToSet(largest));
    GreatestLeader(adj);
    assert forall u :: u in largest ==> u in ToSet(largest);
  }
}
