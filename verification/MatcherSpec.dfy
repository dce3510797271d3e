/** What the matcher has to answer - the best-ranked matching template - and why
    its three indexes and its pruned candidate lists find it. */
module MatcherSpec {
  import opened Bytes
  import opened Placeholder
  import opened GreedyMatch
  import opened AhoCorasick

  // ----------------------------------------------------------- brute force

  /** More literal bytes win, then fewer placeholders, then the earlier template. */
  predicate Better(a: Compiled, b: Compiled) {
    if a.literalBytes != b.literalBytes then a.literalBytes > b.literalBytes
    else if a.placeholderCount != b.placeholderCount then a.placeholderCount < b.placeholderCount
    else a.id < b.id
  }

  /** A template table: compiled, normalized, without duplicates. */
  ghost predicate Table(entries: seq<Compiled>) {
    && (forall i :: 0 <= i < |entries| ==> entries[i] == CompiledFor(i, entries[i].template))
    && (forall i :: 0 <= i < |entries| ==> Normalized(entries[i].template))
    && (forall i, j :: 0 <= i < j < |entries| ==> entries[i].template != entries[j].template)
  }

  ghost predicate Hit(entries: seq<Compiled>, msg: Str, id: int) {
    0 <= id < |entries| && |entries[id].parts| > 0 && MatchOf(entries[id].parts, msg).Some?
  }

  /** A matching template other than the lone placeholder. */
  ghost predicate Candidate(entries: seq<Compiled>, msg: Str, id: int) {
    Hit(entries, msg, id) && entries[id].template != PLACEHOLDER
  }

  /** The best of the candidates. */
  ghost predicate Best(entries: seq<Compiled>, msg: Str, id: int) {
    && Candidate(entries, msg, id)
    && forall j :: Candidate(entries, msg, j) && j != id ==> Better(entries[id], entries[j])
  }

  /** rank[i] < rank[j] says the same as Better, in numbers below the table size. */
  ghost predicate Ranks(entries: seq<Compiled>, rank: seq<nat>) {
    && |rank| == |entries|
    && (forall i :: 0 <= i < |rank| ==> rank[i] < |rank|)
    && (forall i, j :: 0 <= i < |rank| && 0 <= j < |rank| ==> (rank[i] < rank[j] <==> Better(entries[i], entries[j])))
  }

  lemma DistinctTemplates(entries: seq<Compiled>, i: int, j: int)
    requires Table(entries) && 0 <= i < |entries| && 0 <= j < |entries| && i != j
    ensures entries[i].template != entries[j].template
  {
    if i < j {
    } else {
      assert entries[j].template != entries[i].template;
    }
  }

  /** Only messages that are long enough can match. */
  lemma EntryFacts(entries: seq<Compiled>, msg: Str, id: int)
    requires Table(entries) && 0 <= id < |entries|
    ensures |entries[id].parts| > 0
    ensures MatchOf(entries[id].parts, msg).Some? ==> |msg| >= entries[id].minMsgLen
  {
    var t := entries[id];
    assert t == CompiledFor(id, t.template);
    if MatchOf(t.parts, msg).Some? {
      MatchLength(t.parts, msg);
    }
  }

  /** A template is as long as its literals and its placeholders together. */
  lemma {:induction false} LiteralLength(parts: seq<Str>)
    requires |parts| > 0
    ensures |Join(parts)| == TotalLen(parts) + |PLACEHOLDER| * (|parts| - 1)
  {
    if |parts| == 1 {
      TotalLenOne(parts[0]);
      assert parts == [parts[0]];
    } else {
      LiteralLength(parts[1..]);
    }
  }

  /** The ranking, on the texts of the templates. */
  lemma BetterOnTexts(entries: seq<Compiled>, i: nat, j: nat)
    requires Table(entries) && i < |entries| && j < |entries|
    ensures var p, q := Split(entries[i].template), Split(entries[j].template);
      Better(entries[i], entries[j]) <==>
      (TotalLen(p) > TotalLen(q)
       || (TotalLen(p) == TotalLen(q) && |p| < |q|)
       || (TotalLen(p) == TotalLen(q) && |p| == |q| && i < j))
  {
    var a, b := entries[i], entries[j];
    assert a == CompiledFor(i, a.template) && b == CompiledFor(j, b.template);
    hide Split, TotalLen, Table;
  }

  lemma TotalLenOne(s: Str)
    ensures TotalLen([s]) == |s|
  {
    assert [s][1..] == [];
  }

  /** A literal template equal to the message outranks every other match. */
  lemma ExactBeats(entries: seq<Compiled>, msg: Str, id: int, j: int)
    requires Table(entries) && 0 <= id < |entries| && j != id
    requires entries[id].placeholderCount == 0 && entries[id].template == msg
    requires Hit(entries, msg, j)
    ensures Better(entries[id], entries[j])
  {
    JoinSplit(msg);
    var t := entries[j];
    assert t == CompiledFor(j, t.template);
    assert entries[id] == CompiledFor(id, msg);
    assert entries[id].parts == [msg];
    TotalLenOne(msg);
    JoinSplit(t.template);
    if t.placeholderCount > 0 {
      MatchLength(t.parts, msg);
    } else {
      DistinctTemplates(entries, id, j);
    }
  }

  lemma LiteralHit(entries: seq<Compiled>, msg: Str, id: int)
    requires Table(entries) && 0 <= id < |entries| && entries[id].placeholderCount == 0
    ensures Hit(entries, msg, id) <==> entries[id].template == msg
    ensures entries[id].template != PLACEHOLDER
  {
    var t := entries[id];
    assert t == CompiledFor(id, t.template);
    JoinSplit(t.template);
    PlaceholderParts();
  }

  lemma PlaceholderParts()
    ensures Split(PLACEHOLDER) == [[], []]
  {
    var none: Str := [];
    SplitAt(none, none);
    assert none + PLACEHOLDER + none == PLACEHOLDER;
    assert Split(none) == [none];
  }

  /** The lone placeholder ranks below every other normalized template. */
  lemma PlaceholderRanksLast(entries: seq<Compiled>, w: int, j: int)
    requires Table(entries) && 0 <= w < |entries| && 0 <= j < |entries| && j != w
    requires entries[w].template == PLACEHOLDER
    ensures Better(entries[j], entries[w])
  {
    PlaceholderParts();
    var t := entries[j];
    assert t == CompiledFor(j, t.template) && entries[w] == CompiledFor(w, PLACEHOLDER);
    assert entries[w].parts == [[], []];
    TotalLenOne([]);
    assert entries[w].parts[1..] == [[]];
    if t.literalBytes == 0 && t.placeholderCount > 0 {
      ZeroLength(t.parts);
      assert Normalized(t.template);
      assert t.parts[0] == [] && t.parts[1] == [];
      assert |t.parts| == 2;
      assert t.parts == [[], []];
      JoinSplit(t.template);
      JoinSplit(PLACEHOLDER);
      DistinctTemplates(entries, j, w);
    }
  }

  lemma {:induction false} ZeroLength(parts: seq<Str>)
    requires TotalLen(parts) == 0
    ensures forall i :: 0 <= i < |parts| ==> parts[i] == []
  {
    if parts != [] {
      ZeroLength(parts[1..]);
      assert forall i :: 0 < i < |parts| ==> parts[i] == parts[1..][i - 1];
    }
  }

  /** The best of all matching templates, the lone placeholder included. */
  ghost predicate BestOfAll(entries: seq<Compiled>, msg: Str, id: int) {
    && Hit(entries, msg, id)
    && forall j :: Hit(entries, msg, j) && j != id ==> Better(entries[id], entries[j])
  }

  /** Leaving the lone placeholder out of the indexes changes the answer exactly
      when it is the best of all matches, that is, the only match. */
  lemma PlaceholderOnlyLoses(entries: seq<Compiled>, msg: Str, id: int)
    requires Table(entries)
    ensures Best(entries, msg, id) <==> BestOfAll(entries, msg, id) && entries[id].template != PLACEHOLDER
    ensures BestOfAll(entries, msg, id) && entries[id].template == PLACEHOLDER ==>
              forall j :: Hit(entries, msg, j) ==> j == id
  {
    if Best(entries, msg, id) {
      forall j | Hit(entries, msg, j) && j != id ensures Better(entries[id], entries[j]) {
        if entries[j].template == PLACEHOLDER {
          PlaceholderRanksLast(entries, j, id);
        } else {
          assert Candidate(entries, msg, j);
        }
      }
    }
    if BestOfAll(entries, msg, id) && entries[id].template == PLACEHOLDER {
      forall j | Hit(entries, msg, j) ensures j == id {
        if j != id { PlaceholderRanksLast(entries, id, j); }
      }
    }
  }

  // ---------------------------------------------------------------- anchors

  /** The longest interior literal among parts[1..k], the first of its length. */
  function StrongestUpTo(parts: seq<Str>, k: nat): Str
    requires k < |parts|
  {
    if k <= 1 then []
    else
      var best := StrongestUpTo(parts, k - 1);
      if |parts[k - 1]| > |best| then parts[k - 1] else best
  }

  function Strongest(parts: seq<Str>): Str {
    if |parts| <= 2 then [] else StrongestUpTo(parts, |parts| - 1)
  }

  /** The anchor is the first longest interior literal. */
  lemma {:induction false} StrongestIsLongest(parts: seq<Str>, k: nat)
    requires k < |parts|
    ensures forall i :: 0 < i < k ==> |parts[i]| <= |StrongestUpTo(parts, k)|
    ensures StrongestUpTo(parts, k) != [] ==>
      exists i :: 0 < i < k && parts[i] == StrongestUpTo(parts, k) &&
                  forall h :: 0 < h < i ==> |parts[h]| < |parts[i]|
  {
    if k > 1 {
      StrongestIsLongest(parts, k - 1);
      var best := StrongestUpTo(parts, k - 1);
      if |parts[k - 1]| > |best| {
        assert forall h :: 0 < h < k - 1 ==> |parts[h]| < |parts[k - 1]|;
        assert StrongestUpTo(parts, k) == parts[k - 1];
      } else if best != [] {
        var i :| 0 < i < k - 1 && parts[i] == best && forall h :: 0 < h < i ==> |parts[h]| < |parts[i]|;
        assert 0 < i < k && parts[i] == StrongestUpTo(parts, k);
      }
    }
  }

  /** The index a placeholder template is put into, and under which literal. */
  datatype Side = Prefix | Suffix | Middle

  predicate AnchoredAt(side: Side, t: Compiled) {
    t.placeholderCount > 0 &&
    match side
    case Prefix => t.firstLiteral != []
    case Suffix => t.firstLiteral == [] && t.lastLiteral != []
    case Middle => t.firstLiteral == [] && t.lastLiteral == [] && Strongest(t.parts) != []
  }

  function AnchorOf(side: Side, t: Compiled): Str {
    match side
    case Prefix => t.firstLiteral
    case Suffix => t.lastLiteral
    case Middle => Strongest(t.parts)
  }

  /** Only the lone placeholder is missing from all three indexes. */
  lemma EveryTemplateIsAnchored(entries: seq<Compiled>, id: int)
    requires Table(entries) && 0 <= id < |entries| && entries[id].placeholderCount > 0
    ensures (exists side :: AnchoredAt(side, entries[id])) <==> entries[id].template != PLACEHOLDER
  {
    var t := entries[id];
    assert t == CompiledFor(id, t.template) && Normalized(t.template);
    JoinSplit(t.template);
    PlaceholderParts();
    if t.firstLiteral != [] {
      assert AnchoredAt(Prefix, t);
    } else if t.lastLiteral != [] {
      assert AnchoredAt(Suffix, t);
    } else if |t.parts| == 2 {
      assert t.parts == [[], []];
      assert Join(t.parts) == PLACEHOLDER by { assert t.parts[1..] == [[]]; }
    } else {
      StrongestIsLongest(t.parts, |t.parts| - 1);
      assert t.parts[1] != [];
      assert AnchoredAt(Middle, t);
    }
  }

  /** Where an anchor has to be seen in a matching message. */
  ghost predicate SeenAt(side: Side, msg: Str, anchor: Str) {
    match side
    case Prefix => HasPrefix(msg, anchor)
    case Suffix => HasSuffix(msg, anchor)
    case Middle => Occurs(msg, anchor)
  }

  lemma {:induction false} FillHasParts(parts: seq<Str>, args: seq<Str>, k: nat)
    requires |parts| == |args| + 1 && k < |parts|
    ensures HasPrefix(Fill(parts, args), parts[0])
    ensures HasSuffix(Fill(parts, args), parts[|parts| - 1])
    ensures Occurs(Fill(parts, args), parts[k])
  {
    var s := Fill(parts, args);
    if args == [] {
      assert OccursAt(s, parts[k], 0);
    } else {
      var rest := Fill(parts[1..], args[1..]);
      assert s == parts[0] + (args[0] + rest) == parts[0] + args[0] + rest;
      FillHasParts(parts[1..], args[1..], if k > 0 then k - 1 else 0);
      var last := parts[|parts| - 1];
      assert s[|s| - |last|..] == rest[|rest| - |last|..];
      if k == 0 {
        assert OccursAt(s, parts[0], 0);
      } else {
        OccursInPart(parts[0] + args[0], rest, [], parts[k]);
        assert parts[0] + args[0] + rest + [] == s;
      }
    }
  }

  /** A matching template's anchor is seen in the message. */
  lemma MatchShowsAnchor(entries: seq<Compiled>, msg: Str, id: int, side: Side)
    requires Table(entries) && Hit(entries, msg, id) && AnchoredAt(side, entries[id])
    ensures SeenAt(side, msg, AnchorOf(side, entries[id])) && AnchorOf(side, entries[id]) != []
  {
    var t := entries[id];
    assert t == CompiledFor(id, t.template);
    hide *;
    MatchShowsParts(t.parts, msg, 0);
    AnchorIsPart(t, side);
    if side == Middle {
      var i: nat :| i < |t.parts| && t.parts[i] == AnchorOf(side, t);
      MatchShowsParts(t.parts, msg, i);
    }
    SeenParts(t, msg, side);
  }

  lemma SeenParts(t: Compiled, msg: Str, side: Side)
    requires |t.parts| > 0 && t.firstLiteral == t.parts[0] && t.lastLiteral == t.parts[|t.parts| - 1]
    requires HasPrefix(msg, t.parts[0]) && HasSuffix(msg, t.parts[|t.parts| - 1])
    requires side == Middle ==> Occurs(msg, AnchorOf(side, t))
    ensures SeenAt(side, msg, AnchorOf(side, t))
  {
  }

  /** A middle anchor is one of the literals. */
  lemma AnchorIsPart(t: Compiled, side: Side)
    requires AnchoredAt(side, t) && |t.parts| > 0
    ensures AnchorOf(side, t) != []
    ensures side == Middle ==> exists i: nat :: i < |t.parts| && t.parts[i] == AnchorOf(side, t)
  {
    if side == Middle {
      StrongestIsLongest(t.parts, |t.parts| - 1);
    }
  }

  /** A matching message begins and ends with the outer literals and contains all others. */
  lemma MatchShowsParts(parts: seq<Str>, msg: Str, k: nat)
    requires k < |parts| && MatchOf(parts, msg).Some?
    ensures HasPrefix(msg, parts[0]) && HasSuffix(msg, parts[|parts| - 1]) && Occurs(msg, parts[k])
  {
    var args := MatchOf(parts, msg).value;
    MatchIsLeftmost(parts, msg, args);
    FillHasParts(parts, args, k);
  }

  // -------------------------------------------------------- candidate lists

  datatype BestSoFar = BestSoFar(id: int, rank: nat)

  /** The scan of one rank-sorted candidate list: it stops at the first entry
      that cannot beat the best so far. */
  function Evaluate(entries: seq<Compiled>, rank: seq<nat>, msg: Str, list: seq<nat>, st: BestSoFar): BestSoFar {
    if list == [] then st
    else
      var id := list[0];
      if id >= |entries| || id >= |rank| || |entries[id].parts| == 0 then st
      else if rank[id] >= st.rank then st
      else if |msg| < entries[id].minMsgLen || MatchOf(entries[id].parts, msg).None? then
        Evaluate(entries, rank, msg, list[1..], st)
      else
        Evaluate(entries, rank, msg, list[1..], BestSoFar(id, rank[id]))
  }

  /** st holds a candidate at least as good as every candidate among seen. */
  ghost predicate Covers(entries: seq<Compiled>, rank: seq<nat>, msg: Str, st: BestSoFar, seen: set<nat>) {
    && |rank| == |entries|
    && (if st.id == -1 then st.rank == |entries| + 1 else Candidate(entries, msg, st.id) && st.rank == rank[st.id])
    && (forall c :: c in seen && Candidate(entries, msg, c) ==> st.rank <= rank[c])
  }

  /** Lists hold anchored ids by ascending rank. */
  ghost predicate ListOk(entries: seq<Compiled>, rank: seq<nat>, list: seq<nat>) {
    && |rank| == |entries|
    && (forall i :: 0 <= i < |list| ==> list[i] < |entries| && entries[list[i]].template != PLACEHOLDER)
    && (forall i, j :: 0 <= i < j < |list| ==> rank[list[i]] < rank[list[j]])
  }

  function Members(list: seq<nat>): set<nat> {
    set id | id in list
  }

  lemma {:induction false} EvaluateCovers(entries: seq<Compiled>, rank: seq<nat>, msg: Str, list: seq<nat>,
      st: BestSoFar, seen: set<nat>)
    requires Table(entries) && ListOk(entries, rank, list) && Covers(entries, rank, msg, st, seen)
    ensures Covers(entries, rank, msg, Evaluate(entries, rank, msg, list, st), seen + Members(list))
    decreases |list|
  {
    hide Table, MatchOf, CompiledFor;
    if list != [] {
      var id := list[0];
      EntryFacts(entries, msg, id);
      MembersCons(list);
      if rank[id] >= st.rank {
        forall c | c in list ensures st.rank <= rank[c] {
          var i :| 0 <= i < |list| && list[i] == c;
        }
      } else {
        assert ListOk(entries, rank, list[1..]);
        if MatchOf(entries[id].parts, msg).Some? {
          EvaluateCovers(entries, rank, msg, list[1..], BestSoFar(id, rank[id]), seen + {id});
        } else {
          EvaluateCovers(entries, rank, msg, list[1..], st, seen + {id});
        }
        assert seen + {id} + Members(list[1..]) == seen + Members(list);
      }
    }
  }

  lemma MembersCons(list: seq<nat>)
    requires list != []
    ensures Members(list) == {list[0]} + Members(list[1..])
  {
  }

  /** The visitor the matcher hands to the automaton: evaluate the list of the
      reported pattern and go on unless the best possible rank was reached. */
  function MiddleVisitor(entries: seq<Compiled>, rank: seq<nat>, msg: Str, lists: seq<seq<nat>>): Visitor<BestSoFar> {
    (st: BestSoFar, p: nat) =>
      var next := if p < |lists| then Evaluate(entries, rank, msg, lists[p], st) else st;
      (next, next.rank > 0)
  }

  ghost function Listed(lists: seq<seq<nat>>, hits: seq<nat>): set<nat> {
    set p, id | p in hits && p < |lists| && id in lists[p] :: id
  }

  /** Nothing outranks rank 0. */
  lemma CoversAll(entries: seq<Compiled>, rank: seq<nat>, msg: Str, st: BestSoFar, seen: set<nat>, more: set<nat>)
    requires Covers(entries, rank, msg, st, seen) && st.rank == 0
    ensures Covers(entries, rank, msg, st, more)
  {
  }

  lemma ListedStep(lists: seq<seq<nat>>, hits: seq<nat>)
    requires hits != [] && hits[0] < |lists|
    ensures Listed(lists, hits) == Members(lists[hits[0]]) + Listed(lists, hits[1..])
  {
    assert forall p :: p in hits <==> p == hits[0] || p in hits[1..];
  }

  /** The scan covers every list it was told about, or stops with the best rank there is. */
  lemma {:induction false} RunCovers(entries: seq<Compiled>, rank: seq<nat>, msg: Str, lists: seq<seq<nat>>,
      hits: seq<nat>, st: BestSoFar, seen: set<nat>)
    requires Table(entries) && Covers(entries, rank, msg, st, seen)
    requires forall p :: 0 <= p < |lists| ==> ListOk(entries, rank, lists[p])
    requires forall i :: 0 <= i < |hits| ==> hits[i] < |lists|
    ensures var r := Run(MiddleVisitor(entries, rank, msg, lists), st, hits);
      Covers(entries, rank, msg, r.0, seen + Listed(lists, hits))
    decreases |hits|
  {
    hide Covers, ListOk, Evaluate, Table;
    var visit := MiddleVisitor(entries, rank, msg, lists);
    if hits == [] {
      assert seen + Listed(lists, hits) == seen;
    } else {
      var p := hits[0];
      ListedStep(lists, hits);
      EvaluateCovers(entries, rank, msg, lists[p], st, seen);
      var next := Evaluate(entries, rank, msg, lists[p], st);
      assert visit(st, p) == (next, next.rank > 0);
      if next.rank > 0 {
        RunCovers(entries, rank, msg, lists, hits[1..], next, seen + Members(lists[p]));
        assert seen + Members(lists[p]) + Listed(lists, hits[1..]) == seen + Listed(lists, hits);
      } else {
        CoversAll(entries, rank, msg, next, seen + Members(lists[p]), seen + Listed(lists, hits));
      }
    }
  }

  /** When every non-literal candidate was covered and no literal template equals
      the message, the state is the answer. */
  lemma CoveredIsBest(entries: seq<Compiled>, rank: seq<nat>, msg: Str, st: BestSoFar, seen: set<nat>)
    requires Table(entries) && Ranks(entries, rank) && Covers(entries, rank, msg, st, seen)
    requires forall c :: Candidate(entries, msg, c) ==> c in seen
    ensures if st.id >= 0 then Best(entries, msg, st.id) else forall c :: !Candidate(entries, msg, c)
  {
    if st.id >= 0 {
      forall j | Candidate(entries, msg, j) && j != st.id ensures Better(entries[st.id], entries[j]) {
        assert j in seen;
        assert st.rank <= rank[j];
        var a, b := entries[st.id], entries[j];
        assert a == CompiledFor(st.id, a.template) && b == CompiledFor(j, b.template);
        assert !Better(b, a);
      }
    }
  }
}
