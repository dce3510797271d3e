/** What the multi-pattern automaton of aho_corasick.go reports, and the facts
    about tries, failure links and breadth-first order behind it. */
module AhoTrie {
  import opened Bytes
  import opened Graph

  // ------------------------------------------------ what is to be reported

  /** Ids below k of the patterns equal to w, ascending. */
  function IdsOf(patterns: seq<Str>, w: Str, k: nat): seq<nat>
    requires k <= |patterns|
  {
    if k == 0 then []
    else if patterns[k - 1] == w then IdsOf(patterns, w, k - 1) + [k - 1]
    else IdsOf(patterns, w, k - 1)
  }

  /** Ids of the non-empty patterns that are suffixes of w, longest pattern first. */
  function Endings(patterns: seq<Str>, w: Str): seq<nat> {
    if w == [] then [] else IdsOf(patterns, w, |patterns|) + Endings(patterns, w[1..])
  }

  /** Everything reported while reading text[..k]: per position, the patterns that end there. */
  function Hits(patterns: seq<Str>, text: Str, k: nat): seq<nat>
    requires k <= |text|
  {
    if k == 0 then [] else Hits(patterns, text, k - 1) + Endings(patterns, text[..k])
  }

  /** The order of reports at one position: longer patterns first, then by id. */
  ghost predicate Before(patterns: seq<Str>, x: nat, y: nat) {
    && x < |patterns| && y < |patterns|
    && (|patterns[x]| > |patterns[y]| || (|patterns[x]| == |patterns[y]| && x < y))
  }

  ghost predicate Ordered(patterns: seq<Str>, ids: seq<nat>) {
    forall i, j :: 0 <= i < j < |ids| ==> Before(patterns, ids[i], ids[j])
  }

  lemma {:induction false} IdsOfExact(patterns: seq<Str>, w: Str, k: nat)
    requires k <= |patterns|
    ensures forall id: nat :: id in IdsOf(patterns, w, k) <==> id < k && patterns[id] == w
    ensures Ordered(patterns, IdsOf(patterns, w, k))
  {
    if k > 0 {
      IdsOfExact(patterns, w, k - 1);
      var ids := IdsOf(patterns, w, k - 1);
      assert forall i :: 0 <= i < |ids| ==> ids[i] in ids;
    }
  }

  /** The reports at one position are exactly the non-empty patterns that end
      there; the strict order implies that each is reported once. */
  lemma {:induction false} EndingsExact(patterns: seq<Str>, w: Str)
    ensures forall id: nat :: id in Endings(patterns, w) <==>
              id < |patterns| && patterns[id] != [] && HasSuffix(w, patterns[id])
    ensures Ordered(patterns, Endings(patterns, w))
  {
    if w != [] {
      var own, rest := IdsOf(patterns, w, |patterns|), Endings(patterns, w[1..]);
      IdsOfExact(patterns, w, |patterns|);
      EndingsExact(patterns, w[1..]);
      var all := own + rest;
      forall id: nat | id < |patterns| && patterns[id] != []
        ensures HasSuffix(w, patterns[id]) <==> patterns[id] == w || HasSuffix(w[1..], patterns[id])
      {
        SuffixStep(w, patterns[id]);
      }
      forall i, j | 0 <= i < j < |all| ensures Before(patterns, all[i], all[j]) {
        if i < |own| <= j {
          assert own[i] in own && rest[j - |own|] in rest;
        }
      }
    }
  }

  lemma SuffixStep(w: Str, p: Str)
    requires w != []
    ensures HasSuffix(w, p) <==> p == w || HasSuffix(w[1..], p)
  {
    if |p| < |w| {
      assert w[|w| - |p|..] == w[1..][|w| - 1 - |p|..];
    }
  }

  ghost predicate EndsAt(text: Str, p: Str, e: nat) {
    1 <= e <= |text| && HasSuffix(text[..e], p)
  }

  /** Reading text[..k] reports exactly the non-empty patterns ending at some position up to k. */
  lemma {:induction false} HitsExact(patterns: seq<Str>, text: Str, k: nat, id: nat)
    requires k <= |text|
    ensures id in Hits(patterns, text, k) <==>
      id < |patterns| && patterns[id] != [] && exists e: nat :: e <= k && EndsAt(text, patterns[id], e)
  {
    hide HasSuffix, Endings;
    if k > 0 {
      HitsExact(patterns, text, k - 1, id);
      EndingsExact(patterns, text[..k]);
      assert id < |patterns| ==> (EndsAt(text, patterns[id], k) <==> HasSuffix(text[..k], patterns[id]));
    }
  }

  /** A whole scan reports exactly the non-empty patterns that occur in the text. */
  lemma HitsAreOccurrences(patterns: seq<Str>, text: Str, id: nat)
    ensures id in Hits(patterns, text, |text|) <==>
      id < |patterns| && patterns[id] != [] && Occurs(text, patterns[id])
  {
    HitsExact(patterns, text, |text|, id);
    if id < |patterns| && patterns[id] != [] {
      hide Hits, EndsAt, OccursAt;
      var p := patterns[id];
      if e: nat :| e <= |text| && EndsAt(text, p, e) {
        EndsIsOccurs(text, p, e);
      }
      if i :| OccursAt(text, p, i) {
        OccursIsEnds(text, p, i);
      }
    }
  }

  lemma EndsIsOccurs(text: Str, p: Str, e: nat)
    requires EndsAt(text, p, e)
    ensures OccursAt(text, p, e - |p|)
  {
    assert text[e - |p|..e - |p| + |p|] == text[..e][e - |p|..];
  }

  lemma OccursIsEnds(text: Str, p: Str, i: int)
    requires OccursAt(text, p, i) && p != []
    ensures 0 <= i + |p| <= |text| && EndsAt(text, p, i + |p|)
  {
    assert text[..i + |p|][i..] == text[i..i + |p|];
  }

  // ------------------------------------------------------------- the trie

  datatype Node = Node(next: seq<int>, fail: nat, out: seq<nat>)

  const NEW_NODE: Node := Node(seq(256, _ => -1), 0, [])

  /** `words[s]` is the string spelled by node s. */
  ghost predicate Shape(nodes: seq<Node>, words: seq<Str>) {
    && |nodes| == |words| > 0 && words[0] == []
    && (forall s :: 0 <= s < |nodes| ==> |nodes[s].next| == 256)
    && (forall s: nat, b: Byte :: s < |nodes| ==> EdgeOk(nodes, words, s, b))
    && (forall t :: 0 < t < |nodes| ==> words[t] != [] && HasParent(nodes, words, t))
    && (forall s, t :: 0 <= s < |words| && 0 <= t < |words| && words[s] == words[t] ==> s == t)
  }

  function Next(nodes: seq<Node>, s: nat, b: Byte): int
    requires s < |nodes| && |nodes[s].next| == 256
  {
    nodes[s].next[b as int]
  }

  ghost predicate EdgeOk(nodes: seq<Node>, words: seq<Str>, s: nat, b: Byte)
    requires s < |nodes| == |words| && |nodes[s].next| == 256
  {
    var t := Next(nodes, s, b);
    t == -1 || (0 < t < |nodes| && words[t] == words[s] + [b])
  }

  function Last(w: Str): Byte
    requires w != []
  {
    w[|w| - 1]
  }

  ghost predicate HasParent(nodes: seq<Node>, words: seq<Str>, t: nat)
    requires |nodes| == |words| && t < |nodes| && words[t] != []
    requires forall s :: 0 <= s < |nodes| ==> |nodes[s].next| == 256
  {
    exists s: nat :: s < t && Next(nodes, s, Last(words[t])) == t
  }

  /** The edge to the word of s extended by b exists exactly when that word is in the trie. */
  lemma EdgeComplete(nodes: seq<Node>, words: seq<Str>, s: nat, b: Byte)
    requires Shape(nodes, words) && s < |nodes|
    ensures Next(nodes, s, b) >= 0 <==> words[s] + [b] in words
  {
    assert EdgeOk(nodes, words, s, b);
    if words[s] + [b] in words {
      var t :| 0 <= t < |words| && words[t] == words[s] + [b];
      assert Last(words[t]) == b;
      assert HasParent(nodes, words, t);
      var p: nat :| p < t && Next(nodes, p, b) == t;
      assert EdgeOk(nodes, words, p, b);
      assert words[p] == words[t][..|words[s]|] == words[s];
    }
  }

  lemma PrefixClosed(nodes: seq<Node>, words: seq<Str>, w: Str, b: Byte)
    requires Shape(nodes, words) && w + [b] in words
    ensures w in words
  {
    var t :| 0 <= t < |words| && words[t] == w + [b];
    assert HasParent(nodes, words, t) && Last(words[t]) == b;
    var p: nat :| p < t && Next(nodes, p, b) == t;
    assert EdgeOk(nodes, words, p, b);
    assert words[p] == words[t][..|w|] == w;
  }

  // -------------------------------------------- longest suffixes in the trie

  /** Node f spells the longest suffix of w that is in the trie. */
  ghost predicate LongestSuffix(words: seq<Str>, w: Str, f: nat) {
    && f < |words| && HasSuffix(w, words[f])
    && (forall x :: HasSuffix(w, x) && x in words ==> |x| <= |words[f]|)
  }

  /** f is reachable by fail links and no longer candidate can be extended by b. */
  ghost predicate Extendable(words: seq<Str>, w: Str, b: Byte, f: nat) {
    && f < |words| && HasSuffix(w, words[f])
    && (forall x :: HasSuffix(w, x) && x + [b] in words ==> |x| <= |words[f]|)
  }

  ghost predicate FailOk(nodes: seq<Node>, words: seq<Str>, t: nat)
    requires t < |nodes| == |words|
  {
    words[t] != [] ==> LongestSuffix(words, words[t][1..], nodes[t].fail)
  }

  lemma SuffixOfSuffix(w: Str, x: Str, y: Str)
    requires HasSuffix(w, x) && HasSuffix(w, y) && |x| <= |y|
    ensures HasSuffix(y, x)
  {
    assert w[|w| - |y|..][|y| - |x|..] == w[|w| - |x|..];
  }

  lemma SuffixTrans(w: Str, y: Str, x: Str)
    requires HasSuffix(w, y) && HasSuffix(y, x)
    ensures HasSuffix(w, x)
  {
    assert w[|w| - |x|..] == w[|w| - |y|..][|y| - |x|..];
  }

  lemma ExtendableStart(nodes: seq<Node>, words: seq<Str>, w: Str, b: Byte, f: nat)
    requires Shape(nodes, words) && LongestSuffix(words, w, f)
    ensures Extendable(words, w, b, f)
  {
    forall x | HasSuffix(w, x) && x + [b] in words ensures |x| <= |words[f]| {
      PrefixClosed(nodes, words, x, b);
    }
  }

  /** Following one fail link keeps the invariant of the fail loops and shortens the word. */
  lemma ExtendableFail(nodes: seq<Node>, words: seq<Str>, w: Str, b: Byte, f: nat)
    requires Shape(nodes, words) && Extendable(words, w, b, f)
    requires f != 0 && FailOk(nodes, words, f) && Next(nodes, f, b) < 0
    ensures Extendable(words, w, b, nodes[f].fail)
    ensures |words[nodes[f].fail]| < |words[f]|
  {
    var u := words[f];
    assert u != [];
    EdgeComplete(nodes, words, f, b);
    var g := nodes[f].fail;
    assert HasSuffix(u, words[g]) by { SuffixStep(u, words[g]); }
    SuffixTrans(w, u, words[g]);
    forall x | HasSuffix(w, x) && x + [b] in words ensures |x| <= |words[g]| {
      SuffixOfSuffix(w, x, u);
      SuffixStep(u, x);
      PrefixClosed(nodes, words, x, b);
    }
  }

  /** When the fail loop stops, one more edge (or the root) is the answer for w + [b]. */
  lemma ExtendableStop(nodes: seq<Node>, words: seq<Str>, w: Str, b: Byte, f: nat)
    requires Shape(nodes, words) && Extendable(words, w, b, f)
    requires f == 0 || Next(nodes, f, b) >= 0
    ensures LongestSuffix(words, w + [b], if Next(nodes, f, b) >= 0 then Next(nodes, f, b) else 0)
  {
    EdgeComplete(nodes, words, f, b);
    assert EdgeOk(nodes, words, f, b);
    var g := if Next(nodes, f, b) >= 0 then Next(nodes, f, b) else 0;
    if Next(nodes, f, b) >= 0 {
      SuffixSnoc(w, b, words[g]);
    }
    forall y | HasSuffix(w + [b], y) && y in words ensures |y| <= |words[g]| {
      if y != [] {
        SuffixSnoc(w, b, y);
      }
    }
  }

  lemma SuffixSnoc(w: Str, b: Byte, y: Str)
    requires y != []
    ensures HasSuffix(w + [b], y) <==> y == y[..|y| - 1] + [b] && HasSuffix(w, y[..|y| - 1])
  {
    if |y| <= |w| + 1 {
      assert (w + [b])[|w| + 1 - |y|..] == w[|w| - (|y| - 1)..] + [b];
    }
  }

  ghost predicate AllIn(patterns: seq<Str>, words: seq<Str>, k: nat)
    requires k <= |patterns|
  {
    forall i :: 0 <= i < k ==> patterns[i] == [] || patterns[i] in words
  }

  lemma {:induction false} IdsOfAbsent(patterns: seq<Str>, words: seq<Str>, w: Str, k: nat)
    requires k <= |patterns| && AllIn(patterns, words, k) && w != [] && w !in words
    ensures IdsOf(patterns, w, k) == []
  {
    if k > 0 {
      IdsOfAbsent(patterns, words, w, k - 1);
    }
  }

  /** Suffixes outside the trie report nothing, so the longest one inside it reports all. */
  lemma {:induction false} EndingsOfLongest(patterns: seq<Str>, words: seq<Str>, w: Str, f: nat)
    requires AllIn(patterns, words, |patterns|) && LongestSuffix(words, w, f)
    ensures Endings(patterns, w) == Endings(patterns, words[f])
  {
    if w != words[f] {
      assert |words[f]| < |w|;
      assert w !in words by { assert HasSuffix(w, w); }
      IdsOfAbsent(patterns, words, w, |patterns|);
      SuffixStep(w, words[f]);
      forall x | HasSuffix(w[1..], x) && x in words ensures |x| <= |words[f]| {
        SuffixStep(w, x);
      }
      EndingsOfLongest(patterns, words, w[1..], f);
    }
  }

  // ------------------------------------------------------ building the trie

  /** Ids that insertion leaves at a node: the root never gets any. */
  function OwnIds(patterns: seq<Str>, w: Str, k: nat): seq<nat>
    requires k <= |patterns|
  {
    if w == [] then [] else IdsOf(patterns, w, k)
  }

  /** The trie of the first k patterns, before failure links. */
  ghost predicate Inserted(nodes: seq<Node>, words: seq<Str>, patterns: seq<Str>, k: nat)
    requires k <= |patterns|
  {
    && Shape(nodes, words) && AllIn(patterns, words, k)
    && (forall t :: 0 <= t < |nodes| ==> nodes[t].out == OwnIds(patterns, words[t], k))
  }

  function WithEdge(nodes: seq<Node>, s: nat, b: Byte, t: int): seq<Node>
    requires s < |nodes| && |nodes[s].next| == 256
  {
    nodes[s := nodes[s].(next := nodes[s].next[b as int := t])]
  }

  /** Growing the trie by one node at a missing edge. */
  lemma AddNode(nodes: seq<Node>, words: seq<Str>, s: nat, b: Byte)
    requires Shape(nodes, words) && s < |nodes| && Next(nodes, s, b) < 0
    ensures Shape(WithEdge(nodes, s, b, |nodes|) + [NEW_NODE], words + [words[s] + [b]])
  {
    var n := |nodes|;
    var nodes' := WithEdge(nodes, s, b, n) + [NEW_NODE];
    var words' := words + [words[s] + [b]];
    EdgeComplete(nodes, words, s, b);
    forall p: nat, c: Byte | p < |nodes'| ensures EdgeOk(nodes', words', p, c) {
      if p < n {
        assert EdgeOk(nodes, words, p, c);
        assert Next(nodes', p, c) == if p == s && c == b then n else Next(nodes, p, c);
      }
    }
    forall t | 0 < t < |nodes'| ensures words'[t] != [] && HasParent(nodes', words', t) {
      if t < n {
        assert HasParent(nodes, words, t);
        var p: nat :| p < t && Next(nodes, p, Last(words[t])) == t;
        assert Next(nodes', p, Last(words'[t])) == t;
      } else {
        assert Next(nodes', s, Last(words'[t])) == t;
      }
    }
  }

  lemma AddNodeInserted(nodes: seq<Node>, words: seq<Str>, patterns: seq<Str>, k: nat, s: nat, b: Byte)
    requires k <= |patterns| && Inserted(nodes, words, patterns, k)
    requires s < |nodes| && Next(nodes, s, b) < 0
    ensures Inserted(WithEdge(nodes, s, b, |nodes|) + [NEW_NODE], words + [words[s] + [b]], patterns, k)
  {
    AddNode(nodes, words, s, b);
    EdgeComplete(nodes, words, s, b);
    IdsOfAbsent(patterns, words, words[s] + [b], k);
  }

  /** Recording pattern k at the node that spells it. */
  lemma AddId(nodes: seq<Node>, words: seq<Str>, patterns: seq<Str>, k: nat, s: nat)
    requires k < |patterns| && Inserted(nodes, words, patterns, k)
    requires s < |nodes| && words[s] == patterns[k] != []
    ensures Inserted(nodes[s := nodes[s].(out := nodes[s].out + [k])], words, patterns, k + 1)
  {
    var nodes' := nodes[s := nodes[s].(out := nodes[s].out + [k])];
    ShapeKept(nodes, nodes', words);
    assert patterns[k] in words;
  }

  ghost predicate SameEdges(nodes: seq<Node>, nodes': seq<Node>) {
    |nodes| == |nodes'| && forall s :: 0 <= s < |nodes| ==> nodes[s].next == nodes'[s].next
  }

  lemma ShapeKept(nodes: seq<Node>, nodes': seq<Node>, words: seq<Str>)
    requires Shape(nodes, words) && SameEdges(nodes, nodes')
    ensures Shape(nodes', words)
  {
    forall p: nat, c: Byte | p < |nodes'| ensures EdgeOk(nodes', words, p, c) {
      assert EdgeOk(nodes, words, p, c);
    }
    forall t | 0 < t < |nodes'| ensures words[t] != [] && HasParent(nodes', words, t) {
      assert HasParent(nodes, words, t);
      var p: nat :| p < t && Next(nodes, p, Last(words[t])) == t;
      assert Next(nodes', p, Last(words[t])) == t;
    }
  }

  // ---------------------------------------------- the breadth-first invariant

  /** The children enqueued so far are those of the nodes in `front` and the
      children of `cur` over bytes below `bound`. */
  ghost predicate Expanded(front: set<nat>, cur: nat, bound: int, p: nat, b: Byte) {
    p in front || (p == cur && b as int < bound)
  }

  ghost predicate Final(nodes: seq<Node>, words: seq<Str>, patterns: seq<Str>, t: nat)
    requires t < |nodes| == |words|
  {
    FailOk(nodes, words, t) && nodes[t].out == Endings(patterns, words[t])
  }

  /** The queue is sorted by depth and all nodes above `cur` are expanded. */
  ghost predicate QueueOk(words: seq<Str>, queue: seq<nat>, front: set<nat>, cur: nat) {
    && cur < |words| && (cur == 0 || 0 in front)
    && (forall i :: 0 <= i < |queue| ==> 0 < queue[i] < |words| && |words[queue[i]]| <= |words[cur]| + 1)
    && (forall i, j :: 0 <= i < j < |queue| ==> |words[queue[i]]| <= |words[queue[j]]|)
    && NoDup(queue)
    && (forall t :: t in queue && |words[t]| < |words[cur]| ==> t in front)
  }

  /** Enqueued nodes are final, the others untouched. */
  ghost predicate LinksOk(nodes: seq<Node>, words: seq<Str>, patterns: seq<Str>, queue: seq<nat>)
    requires |nodes| == |words| > 0
  {
    nodes[0].out == [] && forall t: nat :: t < |nodes| ==> NodeOk(nodes, words, patterns, queue, t)
  }

  ghost predicate NodeOk(nodes: seq<Node>, words: seq<Str>, patterns: seq<Str>, queue: seq<nat>, t: nat)
    requires t < |nodes| == |words|
  {
    if t in queue then Final(nodes, words, patterns, t)
    else nodes[t].out == OwnIds(patterns, words[t], |patterns|)
  }

  /** A node is in the queue exactly when the edge to it has been looked at. */
  ghost predicate Covered(nodes: seq<Node>, queue: seq<nat>, front: set<nat>, cur: nat, bound: int)
    requires forall s :: 0 <= s < |nodes| ==> |nodes[s].next| == 256
  {
    forall p: nat, b: Byte :: p < |nodes| && Next(nodes, p, b) >= 0 ==>
      (Next(nodes, p, b) in queue <==> Expanded(front, cur, bound, p, b))
  }

  ghost predicate Bfs(nodes: seq<Node>, words: seq<Str>, patterns: seq<Str>,
                      queue: seq<nat>, front: set<nat>, cur: nat, bound: int)
  {
    && Shape(nodes, words) && AllIn(patterns, words, |patterns|)
    && QueueOk(words, queue, front, cur)
    && LinksOk(nodes, words, patterns, queue)
    && Covered(nodes, queue, front, cur, bound)
  }

  /** Every node no deeper than the one being expanded is final already. */
  lemma {:induction false} ShallowAreQueued(nodes: seq<Node>, words: seq<Str>, patterns: seq<Str>,
      queue: seq<nat>, front: set<nat>, cur: nat, bound: int, t: nat)
    requires Bfs(nodes, words, patterns, queue, front, cur, bound)
    requires 0 < t < |nodes| && |words[t]| <= |words[cur]|
    ensures t in queue
    decreases t
  {
    assert HasParent(nodes, words, t);
    var b := Last(words[t]);
    var p: nat :| p < t && Next(nodes, p, b) == t;
    assert EdgeOk(nodes, words, p, b);
    if p > 0 {
      ShallowAreQueued(nodes, words, patterns, queue, front, cur, bound, p);
    }
    assert Expanded(front, cur, bound, p, b);
  }

  function WithLinks(nodes: seq<Node>, t: nat, fail: nat, more: seq<nat>): seq<Node>
    requires t < |nodes|
  {
    nodes[t := nodes[t].(fail := fail, out := nodes[t].out + more)]
  }

  lemma CoverOne(nodes: seq<Node>, words: seq<Str>, queue: seq<nat>, front: set<nat>, cur: nat, b: Byte)
    requires Shape(nodes, words) && Covered(nodes, queue, front, cur, b as int)
    requires cur < |nodes| && cur !in front && Next(nodes, cur, b) >= 0
    ensures Next(nodes, cur, b) !in queue
    ensures Covered(nodes, queue + [Next(nodes, cur, b)], front, cur, b as int + 1)
  {
    var t := Next(nodes, cur, b);
    assert EdgeOk(nodes, words, cur, b);
    assert !Expanded(front, cur, b as int, cur, b);
    assert words[t][..|words[t]| - 1] == words[cur] && Last(words[t]) == b;
    hide Shape;
    forall p: nat, c: Byte | p < |nodes| && Next(nodes, p, c) >= 0
      ensures Next(nodes, p, c) in queue + [t] <==> Expanded(front, cur, b as int + 1, p, c)
    {
      SameEdge(nodes, words, p, c, cur, b);
    }
  }

  /** Different edges lead to different nodes. */
  lemma SameEdge(nodes: seq<Node>, words: seq<Str>, p: nat, c: Byte, q: nat, b: Byte)
    requires Shape(nodes, words) && p < |nodes| && q < |nodes| && Next(nodes, p, c) >= 0
    ensures Next(nodes, p, c) == Next(nodes, q, b) ==> p == q && c == b
  {
    assert EdgeOk(nodes, words, p, c) && EdgeOk(nodes, words, q, b);
    var t := Next(nodes, p, c);
    if t == Next(nodes, q, b) {
      assert words[p] == words[t][..|words[t]| - 1] == words[q];
      assert Last(words[t]) == c && Last(words[t]) == b;
    }
  }

  /** The outputs of the failure target are final: it is no deeper than `cur`. */
  lemma FailOutputs(nodes: seq<Node>, words: seq<Str>, patterns: seq<Str>,
      queue: seq<nat>, front: set<nat>, cur: nat, bound: int, t: nat, fail: nat)
    requires Bfs(nodes, words, patterns, queue, front, cur, bound)
    requires t < |words| && 0 < |words[t]| <= |words[cur]| + 1
    requires LongestSuffix(words, words[t][1..], fail)
    ensures fail < |nodes| && nodes[fail].out == Endings(patterns, words[t][1..])
  {
    if fail != 0 {
      ShallowAreQueued(nodes, words, patterns, queue, front, cur, bound, fail);
      assert NodeOk(nodes, words, patterns, queue, fail);
    }
    EndingsOfLongest(patterns, words, words[t][1..], fail);
  }

  /** The failure link and merged outputs of a newly enqueued child are final. */
  lemma Enqueue(nodes: seq<Node>, words: seq<Str>, patterns: seq<Str>,
      queue: seq<nat>, front: set<nat>, cur: nat, b: Byte, t: nat, fail: nat)
    requires Bfs(nodes, words, patterns, queue, front, cur, b as int) && cur !in front
    requires Next(nodes, cur, b) == t && t < |words| && words[t] == words[cur] + [b]
    requires LongestSuffix(words, words[t][1..], fail)
    ensures Bfs(WithLinks(nodes, t, fail, nodes[fail].out), words, patterns, queue + [t], front, cur, b as int + 1)
  {
    hide LongestSuffix, Endings, Final, OwnIds, AllIn, HasParent, Covered, LinksOk;
    assert EdgeOk(nodes, words, cur, b);
    FailOutputs(nodes, words, patterns, queue, front, cur, b as int, t, fail);
    CoverOne(nodes, words, queue, front, cur, b);
    LinksGrow(nodes, words, patterns, queue, t, fail);
    QueueGrow(words, queue, front, cur, t);
    hide QueueOk;
    var nodes' := WithLinks(nodes, t, fail, nodes[fail].out);
    ShapeKept(nodes, nodes', words);
    CoveredKept(nodes, nodes', queue + [t], front, cur, b as int + 1);
  }

  lemma CoveredKept(nodes: seq<Node>, nodes': seq<Node>, queue: seq<nat>, front: set<nat>, cur: nat, bound: int)
    requires forall s :: 0 <= s < |nodes| ==> |nodes[s].next| == 256
    requires SameEdges(nodes, nodes') && Covered(nodes, queue, front, cur, bound)
    ensures Covered(nodes', queue, front, cur, bound)
  {
    assert forall p: nat, c: Byte :: p < |nodes| ==> Next(nodes', p, c) == Next(nodes, p, c);
  }

  lemma QueueGrow(words: seq<Str>, queue: seq<nat>, front: set<nat>, cur: nat, t: nat)
    requires QueueOk(words, queue, front, cur)
    requires 0 < t < |words| && |words[t]| == |words[cur]| + 1 && t !in queue
    ensures QueueOk(words, queue + [t], front, cur)
  {
  }

  lemma LinksGrow(nodes: seq<Node>, words: seq<Str>, patterns: seq<Str>, queue: seq<nat>, t: nat, fail: nat)
    requires |nodes| == |words| > 0 && LinksOk(nodes, words, patterns, queue)
    requires 0 < t < |words| && fail < |words| && t !in queue && words[t] != []
    requires LongestSuffix(words, words[t][1..], fail)
    requires nodes[fail].out == Endings(patterns, words[t][1..])
    ensures LinksOk(WithLinks(nodes, t, fail, nodes[fail].out), words, patterns, queue + [t])
  {
    var nodes' := WithLinks(nodes, t, fail, nodes[fail].out);
    assert Endings(patterns, words[t]) == OwnIds(patterns, words[t], |patterns|) + Endings(patterns, words[t][1..]);
    hide LongestSuffix, Endings, OwnIds;
    assert NodeOk(nodes, words, patterns, queue, t);
    assert nodes'[t].out == Endings(patterns, words[t]);
    forall u: nat | u < |nodes'| ensures NodeOk(nodes', words, patterns, queue + [t], u) {
      assert NodeOk(nodes, words, patterns, queue, u);
    }
  }

  lemma NoChild(nodes: seq<Node>, words: seq<Str>, patterns: seq<Str>,
      queue: seq<nat>, front: set<nat>, cur: nat, b: Byte)
    requires Bfs(nodes, words, patterns, queue, front, cur, b as int)
    requires Next(nodes, cur, b) < 0
    ensures Bfs(nodes, words, patterns, queue, front, cur, b as int + 1)
  {
    hide HasParent, EdgeOk, LinksOk, QueueOk;
    forall p: nat, c: Byte | p < |nodes| && Next(nodes, p, c) >= 0
      ensures Next(nodes, p, c) in queue <==> Expanded(front, cur, b as int + 1, p, c)
    {
      assert Expanded(front, cur, b as int + 1, p, c) <==> Expanded(front, cur, b as int, p, c);
    }
  }

  ghost function Prefix(queue: seq<nat>, head: nat): set<nat>
    requires head <= |queue|
  {
    {0} + set t | t in queue[..head]
  }

  /** All children of the current node are queued: the next node can be taken up. */
  lemma NextNode(nodes: seq<Node>, words: seq<Str>, patterns: seq<Str>,
      queue: seq<nat>, front: set<nat>, cur: nat, head: nat)
    requires Bfs(nodes, words, patterns, queue, front, cur, 256)
    requires head < |queue| && front + {cur} == Prefix(queue, head)
    requires |words[cur]| <= |words[queue[head]]|
    ensures Bfs(nodes, words, patterns, queue, Prefix(queue, head), queue[head], 0)
  {
    hide LinksOk, HasParent, EdgeOk, AllIn;
    var front' := Prefix(queue, head);
    forall p: nat, c: Byte | p < |nodes| && Next(nodes, p, c) >= 0
      ensures Next(nodes, p, c) in queue <==> Expanded(front', queue[head], 0, p, c)
    {
      assert Expanded(front, cur, 256, p, c) <==> p in front + {cur};
    }
    forall t | t in queue && |words[t]| < |words[queue[head]]| ensures t in front' {
      var i :| 0 <= i < |queue| && queue[i] == t;
      assert i < head;
      assert queue[..head][i] == t;
    }
  }

  /** With the queue exhausted every node is final. */
  lemma {:induction false} AllFinal(nodes: seq<Node>, words: seq<Str>, patterns: seq<Str>,
      queue: seq<nat>, front: set<nat>, cur: nat, t: nat)
    requires Bfs(nodes, words, patterns, queue, front, cur, 256)
    requires front + {cur} == Prefix(queue, |queue|) && t < |nodes|
    ensures Final(nodes, words, patterns, t)
  {
    if t != 0 {
      assert HasParent(nodes, words, t);
      var p: nat :| p < t && Next(nodes, p, Last(words[t])) == t;
      AllFinalQueued(nodes, words, patterns, queue, front, cur, t);
      assert NodeOk(nodes, words, patterns, queue, t);
    }
  }

  lemma {:induction false} AllFinalQueued(nodes: seq<Node>, words: seq<Str>, patterns: seq<Str>,
      queue: seq<nat>, front: set<nat>, cur: nat, t: nat)
    requires Bfs(nodes, words, patterns, queue, front, cur, 256)
    requires front + {cur} == Prefix(queue, |queue|) && 0 < t < |nodes|
    ensures t in queue
    decreases t
  {
    assert HasParent(nodes, words, t);
    var b := Last(words[t]);
    var p: nat :| p < t && Next(nodes, p, b) == t;
    if p > 0 {
      AllFinalQueued(nodes, words, patterns, queue, front, cur, p);
      assert queue[..|queue|] == queue;
    }
    assert p in front + {cur};
    assert Expanded(front, cur, 256, p, b);
  }

  // ------------------------------------------- steps of the builder methods

  lemma SkipEmpty(nodes: seq<Node>, words: seq<Str>, patterns: seq<Str>, k: nat)
    requires k < |patterns| && patterns[k] == [] && Inserted(nodes, words, patterns, k)
    ensures Inserted(nodes, words, patterns, k + 1)
  {
  }

  lemma InsertedRoot(nodes: seq<Node>, words: seq<Str>, patterns: seq<Str>, k: nat)
    requires k <= |patterns| && Inserted(nodes, words, patterns, k)
    ensures |nodes| == |words| > 0 && words[0] == []
  {
  }

  /** One step down the trie, growing it if the edge is missing. */
  lemma InsertedStep(nodes: seq<Node>, words: seq<Str>, patterns: seq<Str>, k: nat, s: nat, b: Byte)
    requires k <= |patterns| && Inserted(nodes, words, patterns, k) && s < |words|
    ensures |nodes| == |words| && |nodes[s].next| == 256
    ensures var t := Next(nodes, s, b);
      if t < 0 then Inserted(WithEdge(nodes, s, b, |nodes|) + [NEW_NODE], words + [words[s] + [b]], patterns, k)
      else t < |words| && words[t] == words[s] + [b]
  {
    assert EdgeOk(nodes, words, s, b);
    if Next(nodes, s, b) < 0 {
      AddNodeInserted(nodes, words, patterns, k, s, b);
    }
  }

  /** Before the search only the root's (empty) outputs are final. */
  lemma BfsStart(nodes: seq<Node>, words: seq<Str>, patterns: seq<Str>)
    requires Inserted(nodes, words, patterns, |patterns|)
    ensures Bfs(nodes, words, patterns, [], {}, 0, 0)
  {
    assert forall t: nat :: t < |nodes| ==> NodeOk(nodes, words, patterns, [], t);
  }

  /** The queue is between two nodes: those before head are expanded. */
  ghost predicate BetweenNodes(words: seq<Str>, queue: seq<nat>, head: nat, front: set<nat>, cur: nat) {
    && head <= |queue| && front + {cur} == Prefix(queue, head) && cur < |words|
    && (forall i :: head <= i < |queue| ==> queue[i] < |words| && |words[cur]| <= |words[queue[i]]|)
  }

  lemma BfsRootDone(nodes: seq<Node>, words: seq<Str>, patterns: seq<Str>, queue: seq<nat>)
    requires Bfs(nodes, words, patterns, queue, {}, 0, 256)
    ensures BetweenNodes(words, queue, 0, {}, 0)
  {
  }

  lemma BfsAdvance(nodes: seq<Node>, words: seq<Str>, patterns: seq<Str>,
      queue: seq<nat>, front: set<nat>, cur: nat, head: nat)
    requires Bfs(nodes, words, patterns, queue, front, cur, 256)
    requires BetweenNodes(words, queue, head, front, cur) && head < |queue|
    ensures Bfs(nodes, words, patterns, queue, Prefix(queue, head), queue[head], 0)
    ensures queue[head] !in Prefix(queue, head)
  {
    NextNode(nodes, words, patterns, queue, front, cur, head);
  }

  lemma BfsAdvanced(nodes: seq<Node>, words: seq<Str>, patterns: seq<Str>,
      queue: seq<nat>, front: set<nat>, cur: nat, head: nat)
    requires Bfs(nodes, words, patterns, queue, front, cur, 256)
    requires head < |queue| && front == Prefix(queue, head) && cur == queue[head]
    ensures BetweenNodes(words, queue, head + 1, front, cur)
    ensures head < |nodes| == |words|
  {
    assert queue[..head + 1] == queue[..head] + [cur];
    NoDupBound(queue, |words|);
  }

  lemma BfsDone(nodes: seq<Node>, words: seq<Str>, patterns: seq<Str>, queue: seq<nat>, front: set<nat>, cur: nat)
    requires Bfs(nodes, words, patterns, queue, front, cur, 256)
    requires BetweenNodes(words, queue, |queue|, front, cur)
    ensures AllNodesFinal(nodes, words, patterns)
  {
    forall t: nat | t < |nodes| ensures Final(nodes, words, patterns, t) {
      AllFinal(nodes, words, patterns, queue, front, cur, t);
    }
  }

  /** Every failure link leads to the longest proper suffix in the trie, and every
      node's outputs are exactly the patterns that are suffixes of its word. */
  ghost predicate AllNodesFinal(nodes: seq<Node>, words: seq<Str>, patterns: seq<Str>) {
    && Shape(nodes, words) && AllIn(patterns, words, |patterns|)
    && (forall t: nat {:trigger Final(nodes, words, patterns, t)} ::
          t < |nodes| ==> Final(nodes, words, patterns, t))
  }

  /** All failure links up to depth d are right. */
  ghost predicate LinksUpTo(nodes: seq<Node>, words: seq<Str>, d: int) {
    && Shape(nodes, words)
    && (forall t: nat {:trigger FailOk(nodes, words, t)} ::
          t < |nodes| && |words[t]| <= d ==> FailOk(nodes, words, t))
  }

  lemma BfsLinks(nodes: seq<Node>, words: seq<Str>, patterns: seq<Str>,
      queue: seq<nat>, front: set<nat>, cur: nat, bound: int)
    requires Bfs(nodes, words, patterns, queue, front, cur, bound) && cur != 0
    ensures words[cur] != [] && nodes[cur].fail < |words|
    ensures LinksUpTo(nodes, words, |words[nodes[cur].fail]|)
    ensures LongestSuffix(words, words[cur][1..], nodes[cur].fail)
  {
    forall t: nat | t < |nodes| && |words[t]| <= |words[cur]| ensures FailOk(nodes, words, t) {
      if t != 0 {
        ShallowAreQueued(nodes, words, patterns, queue, front, cur, bound, t);
        assert NodeOk(nodes, words, patterns, queue, t);
      }
    }
    assert FailOk(nodes, words, cur);
  }

  lemma FinalLinks(nodes: seq<Node>, words: seq<Str>, patterns: seq<Str>, d: int)
    requires AllNodesFinal(nodes, words, patterns)
    ensures LinksUpTo(nodes, words, d)
  {
    forall t: nat | t < |nodes| && |words[t]| <= d ensures FailOk(nodes, words, t) {
      assert Final(nodes, words, patterns, t);
    }
  }

  /** The outputs of the state reached on text are what ends at this position. */
  lemma StateReports(nodes: seq<Node>, words: seq<Str>, patterns: seq<Str>, w: Str, f: nat)
    requires AllNodesFinal(nodes, words, patterns) && LongestSuffix(words, w, f)
    ensures f < |nodes| && nodes[f].out == Endings(patterns, w)
  {
    assert Final(nodes, words, patterns, f);
    EndingsOfLongest(patterns, words, w, f);
  }

  lemma InsertedEnd(nodes: seq<Node>, words: seq<Str>, patterns: seq<Str>, k: nat, s: nat)
    requires k < |patterns| && Inserted(nodes, words, patterns, k)
    requires s < |words| && words[s] == patterns[k] != []
    ensures |nodes| == |words|
    ensures Inserted(nodes[s := nodes[s].(out := nodes[s].out + [k])], words, patterns, k + 1)
  {
    AddId(nodes, words, patterns, k, s);
  }

  /** What the loop over bytes knows about the next edge of cur. */
  lemma BfsChild(nodes: seq<Node>, words: seq<Str>, patterns: seq<Str>,
      queue: seq<nat>, front: set<nat>, cur: nat, b: Byte)
    requires Bfs(nodes, words, patterns, queue, front, cur, b as int)
    ensures cur < |nodes| == |words| && |nodes[cur].next| == 256
    ensures var t := Next(nodes, cur, b);
      if t < 0 then Bfs(nodes, words, patterns, queue, front, cur, b as int + 1)
      else 0 < t < |words| && words[t] == words[cur] + [b]
  {
    assert EdgeOk(nodes, words, cur, b);
    if Next(nodes, cur, b) < 0 {
      NoChild(nodes, words, patterns, queue, front, cur, b);
    }
  }

  lemma RootChild(nodes: seq<Node>, words: seq<Str>, patterns: seq<Str>, queue: seq<nat>, b: Byte, t: nat)
    requires Bfs(nodes, words, patterns, queue, {}, 0, b as int)
    requires Next(nodes, 0, b) == t && t < |words| && words[t] == words[0] + [b]
    ensures Bfs(nodes[t := nodes[t].(fail := 0)], words, patterns, queue + [t], {}, 0, b as int + 1)
  {
    assert words[t][1..] == [] && nodes[0].out == [];
    hide Bfs;
    Enqueue(nodes, words, patterns, queue, {}, 0, b, t, 0);
    assert nodes[t].out + [] == nodes[t].out;
  }

  lemma ChildTail(w: Str, v: Str, b: Byte)
    requires v == w + [b]
    ensures w != [] ==> v[1..] == w[1..] + [b]
  {
  }

  lemma StartState(nodes: seq<Node>, words: seq<Str>, patterns: seq<Str>)
    requires AllNodesFinal(nodes, words, patterns)
    ensures LongestSuffix(words, [], 0) && words[0] == []
  {
  }

  /** Setting the link and then appending outputs only if there are any. */
  lemma LinksInTwoSteps(nodes: seq<Node>, t: nat, fail: nat)
    requires t < |nodes| && fail < |nodes|
    ensures var linked := nodes[t := nodes[t].(fail := fail)];
      && linked[fail].out == nodes[fail].out
      && WithLinks(nodes, t, fail, nodes[fail].out)
         == if |nodes[fail].out| > 0 then linked[t := linked[t].(out := linked[t].out + nodes[fail].out)] else linked
  {
    if |nodes[fail].out| == 0 {
      assert nodes[t].out + nodes[fail].out == nodes[t].out;
    }
  }
}
