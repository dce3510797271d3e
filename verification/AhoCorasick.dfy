/** The multi-pattern automaton of aho_corasick.go. */
module AhoCorasick {
  import opened Bytes
  import opened AhoTrie

  /** A visitor threads a state through the reports and can stop the scan. */
  type Visitor<!S> = (S, nat) -> (S, bool)

  /** Feeds ids to the visitor until it returns false. */
  function Run<S>(visit: Visitor<S>, s: S, ids: seq<nat>): (S, bool) {
    if ids == [] then (s, true)
    else
      var r := visit(s, ids[0]);
      if r.1 then Run(visit, r.0, ids[1..]) else (r.0, false)
  }

  lemma {:induction false} RunAppend<S>(visit: Visitor<S>, s: S, a: seq<nat>, b: seq<nat>)
    ensures Run(visit, s, a + b) == if Run(visit, s, a).1 then Run(visit, Run(visit, s, a).0, b) else Run(visit, s, a)
  {
    if a == [] {
      assert a + b == b;
    } else {
      assert (a + b)[1..] == a[1..] + b;
      RunAppend(visit, visit(s, a[0]).0, a[1..], b);
    }
  }

  lemma {:induction false} HitsExtend(patterns: seq<Str>, text: Str, k: nat, m: nat)
    requires k <= m <= |text|
    ensures Hits(patterns, text, k) <= Hits(patterns, text, m)
    decreases m
  {
    if k < m {
      HitsExtend(patterns, text, k, m - 1);
    }
  }

  lemma RunStopped<S>(visit: Visitor<S>, s: S, a: seq<nat>, all: seq<nat>)
    requires a <= all && !Run(visit, s, a).1
    ensures Run(visit, s, all) == Run(visit, s, a)
  {
    assert all == a + all[|a|..];
    RunAppend(visit, s, a, all[|a|..]);
  }

  class Automaton {
    var nodes: seq<Node>
    ghost var words: seq<Str>
    ghost const patterns: seq<Str>

    ghost predicate Valid()
      reads this
    {
      AllNodesFinal(nodes, words, patterns)
    }

    constructor (patterns: seq<Str>)
      ensures Valid() && this.patterns == patterns
    {
      this.patterns := patterns;
      nodes := [NEW_NODE];
      words := [[]];
      new;
      for id := 0 to |patterns|
        invariant this.patterns == patterns
        invariant Inserted(nodes, words, patterns, id)
      {
        if patterns[id] == [] {
          SkipEmpty(nodes, words, patterns, id);
          continue;
        }
        Insert(patterns[id], id);
      }
      BuildFailures();
    }

    /** Adds the path of one non-empty pattern and records its id at the end. */
    method Insert(pattern: Str, id: nat)
      requires id < |patterns| && pattern == patterns[id] != []
      requires Inserted(nodes, words, patterns, id)
      modifies this
      ensures Inserted(nodes, words, patterns, id + 1)
    {
      hide Inserted;
      var state: nat := 0;
      InsertedRoot(nodes, words, patterns, id);
      for i := 0 to |pattern|
        invariant Inserted(nodes, words, patterns, id)
        invariant state < |words| && words[state] == pattern[..i]
      {
        var b := pattern[i];
        assert pattern[..i] + [b] == pattern[..i + 1];
        InsertedStep(nodes, words, patterns, id, state, b);
        var next := Next(nodes, state, b);
        if next < 0 {
          next := |nodes|;
          nodes := WithEdge(nodes, state, b, next);
          nodes := nodes + [NEW_NODE];
          words := words + [words[state] + [b]];
        }
        state := next;
      }
      assert pattern[..|pattern|] == pattern;
      InsertedEnd(nodes, words, patterns, id, state);
      nodes := nodes[state := nodes[state].(out := nodes[state].out + [id])];
    }

    /** The fail loop and the edge after it: from the longest suffix of w in the
        trie to the longest suffix of w + [b]. Each followed link is paid for by
        a byte read earlier. */
    method Follow(from: nat, b: Byte, ghost w: Str) returns (t: nat, ghost steps: nat)
      requires LongestSuffix(words, w, from) && LinksUpTo(nodes, words, |words[from]|)
      ensures LongestSuffix(words, w + [b], t) && t < |nodes|
      ensures steps + |words[t]| <= |words[from]| + 1
    {
      var state := from;
      steps := 0;
      ExtendableStart(nodes, words, w, b, from);
      while state != 0 && Next(nodes, state, b) < 0
        invariant Extendable(words, w, b, state)
        invariant steps + |words[state]| <= |words[from]|
        decreases |words[state]|
      {
        assert FailOk(nodes, words, state);
        ExtendableFail(nodes, words, w, b, state);
        state := nodes[state].fail;
        steps := steps + 1;
      }
      ExtendableStop(nodes, words, w, b, state);
      assert EdgeOk(nodes, words, state, b);
      var next := Next(nodes, state, b);
      t := if next >= 0 then next else 0;
    }

    /** The children of the root fail to the root. */
    method ExpandRoot() returns (queue: seq<nat>)
      requires Bfs(nodes, words, patterns, [], {}, 0, 0)
      modifies this
      ensures Bfs(nodes, words, patterns, queue, {}, 0, 256)
      ensures words == old(words) && SameEdges(old(nodes), nodes)
    {
      hide Bfs;
      queue := [];
      for b := 0 to 256
        invariant Bfs(nodes, words, patterns, queue, {}, 0, b)
        invariant words == old(words) && SameEdges(old(nodes), nodes)
      {
        var c: Byte := b as char;
        BfsChild(nodes, words, patterns, queue, {}, 0, c);
        var next := nodes[0].next[b];
        if next < 0 {
          continue;
        }
        RootChild(nodes, words, patterns, queue, c, next);
        nodes := nodes[next := nodes[next].(fail := 0)];
        queue := queue + [next];
      }
    }

    /** Enqueues the children of cur with their final links and outputs. */
    method ExpandNode(queue0: seq<nat>, ghost front: set<nat>, cur: nat) returns (queue: seq<nat>)
      requires Bfs(nodes, words, patterns, queue0, front, cur, 0) && cur !in front && cur != 0
      modifies this
      ensures queue0 <= queue && Bfs(nodes, words, patterns, queue, front, cur, 256)
      ensures words == old(words) && SameEdges(old(nodes), nodes)
    {
      hide Bfs, LongestSuffix, LinksUpTo;
      queue := queue0;
      for b := 0 to 256
        invariant queue0 <= queue && Bfs(nodes, words, patterns, queue, front, cur, b)
        invariant words == old(words) && SameEdges(old(nodes), nodes)
      {
        var c: Byte := b as char;
        BfsChild(nodes, words, patterns, queue, front, cur, c);
        var next := nodes[cur].next[b];
        if next < 0 {
          continue;
        }
        ghost var before := queue;
        queue := queue + [next];
        BfsLinks(nodes, words, patterns, before, front, cur, b);
        ChildTail(words[cur], words[next], c);
        var fallback, _ := Follow(nodes[cur].fail, c, words[cur][1..]);
        Enqueue(nodes, words, patterns, before, front, cur, c, next, fallback);
        LinksInTwoSteps(nodes, next, fallback);
        nodes := nodes[next := nodes[next].(fail := fallback)];
        var failOut := nodes[fallback].out;
        if |failOut| > 0 {
          nodes := nodes[next := nodes[next].(out := nodes[next].out + failOut)];
        }
      }
    }

    /** Breadth-first computation of failure links and merged outputs. */
    method BuildFailures()
      requires Inserted(nodes, words, patterns, |patterns|)
      modifies this
      ensures Valid() && words == old(words) && SameEdges(old(nodes), nodes)
    {
      hide Inserted, Bfs, BetweenNodes;
      BfsStart(nodes, words, patterns);
      var queue := ExpandRoot();
      ghost var front: set<nat> := {};
      ghost var cur: nat := 0;
      BfsRootDone(nodes, words, patterns, queue);
      var head := 0;
      while head < |queue|
        invariant head <= |queue|
        invariant words == old(words) && SameEdges(old(nodes), nodes)
        invariant Bfs(nodes, words, patterns, queue, front, cur, 256)
        invariant BetweenNodes(words, queue, head, front, cur)
        decreases |nodes| - head
      {
        BfsAdvance(nodes, words, patterns, queue, front, cur, head);
        ghost var before := queue;
        front, cur := Prefix(queue, head), queue[head];
        queue := ExpandNode(queue, front, queue[head]);
        assert queue[..head] == before[..head];
        BfsAdvanced(nodes, words, patterns, queue, front, cur, head);
        head := head + 1;
      }
      BfsDone(nodes, words, patterns, queue, front, cur);
    }

    /** Reports the patterns ending at each position in turn until the visitor
        stops the scan; the scan follows at most one failure link per byte read. */
    method Search<S>(text: Str, s0: S, visit: Visitor<S>) returns (s: S, ghost steps: nat)
      requires Valid()
      ensures s == Run(visit, s0, Hits(patterns, text, |text|)).0
      ensures steps <= |text|
    {
      hide AllNodesFinal, LinksUpTo, LongestSuffix;
      s := s0;
      var state: nat := 0;
      steps := 0;
      StartState(nodes, words, patterns);
      for i := 0 to |text|
        invariant LongestSuffix(words, text[..i], state) && state < |words|
        invariant Run(visit, s0, Hits(patterns, text, i)) == (s, true)
        invariant steps + |words[state]| <= i
      {
        FinalLinks(nodes, words, patterns, |words[state]|);
        ghost var more: nat;
        state, more := Follow(state, text[i], text[..i]);
        steps := steps + more;
        assert text[..i] + [text[i]] == text[..i + 1];
        StateReports(nodes, words, patterns, text[..i + 1], state);
        var out := nodes[state].out;
        RunAppend(visit, s0, Hits(patterns, text, i), out);
        var go;
        s, go := Report(out, s, visit);
        if !go {
          HitsExtend(patterns, text, i + 1, |text|);
          RunStopped(visit, s0, Hits(patterns, text, i + 1), Hits(patterns, text, |text|));
          return;
        }
      }
    }

    /** The inner loop of Search over the outputs at one position. */
    static method Report<S>(out: seq<nat>, s0: S, visit: Visitor<S>) returns (s: S, go: bool)
      ensures (s, go) == Run(visit, s0, out)
    {
      s := s0;
      for k := 0 to |out|
        invariant Run(visit, s0, out[..k]) == (s, true)
      {
        assert out[..k + 1] == out[..k] + [out[k]];
        RunAppend(visit, s0, out[..k], [out[k]]);
        var r := visit(s, out[k]);
        s := r.0;
        if !r.1 {
          RunStopped(visit, s0, out[..k + 1], out);
          return s, false;
        }
      }
      assert out[..|out|] == out;
      return s, true;
    }
  }
}
