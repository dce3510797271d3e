/** Deduplication of identical messages before the per-row stages of parse. */
module Dedup {
  import opened Bytes
  import opened Sorting
  import opened TokenRecord

  /** The distinct messages in order of first appearance. */
  function FirstSeen(messages: seq<Str>): seq<Str> {
    if messages == [] then []
    else
      var front, last := FirstSeen(messages[..|messages| - 1]), messages[|messages| - 1];
      if last in front then front else front + [last]
  }

  /** rowOf maps every message to its row; the rows are the distinct messages and
      counts their multiplicities. */
  ghost predicate Deduped(messages: seq<Str>, rowOf: seq<nat>, unique: seq<Str>, counts: seq<nat>) {
    && |rowOf| == |messages| && |counts| == |unique|
    && (forall i :: 0 <= i < |rowOf| ==> rowOf[i] < |unique| && unique[rowOf[i]] == messages[i])
    && Distinct(unique) && unique == FirstSeen(messages)
    && CountsMultiplicities(counts, rowOf)
    && (forall u :: 0 <= u < |counts| ==> counts[u] > 0)
    && Total(counts, |counts|) == |messages|
  }

  /** The index finds each row by its message. */
  ghost predicate Indexed(lineIndex: map<Str, nat>, unique: seq<Str>) {
    && (forall s :: s in lineIndex ==> lineIndex[s] < |unique| && unique[lineIndex[s]] == s)
    && (forall u :: 0 <= u < |unique| ==> unique[u] in lineIndex && lineIndex[unique[u]] == u)
  }

  /** Two messages share a row iff they are equal. */
  lemma SameRowIffEqual(messages: seq<Str>, rowOf: seq<nat>, unique: seq<Str>, counts: seq<nat>, i: nat, j: nat)
    requires Deduped(messages, rowOf, unique, counts) && i < |messages| && j < |messages|
    ensures rowOf[i] == rowOf[j] <==> messages[i] == messages[j]
  {
    var a, b := rowOf[i], rowOf[j];
    assert a < b ==> unique[a] != unique[b];
    assert b < a ==> unique[b] != unique[a];
  }

  lemma {:induction false} FirstSeenGrows(messages: seq<Str>, i: nat, j: nat)
    requires i <= j <= |messages|
    ensures |FirstSeen(messages[..i])| <= |FirstSeen(messages[..j])|
    ensures forall s :: s in FirstSeen(messages[..i]) <==> s in messages[..i]
    decreases j
  {
    if j > 0 {
      assert messages[..j][..j - 1] == messages[..j - 1];
      if i < j {
        FirstSeenGrows(messages, i, j - 1);
      } else {
        FirstSeenGrows(messages, i - 1, i - 1);
        assert messages[..i] == messages[..i - 1] + [messages[i - 1]];
      }
    }
  }

  lemma {:induction false} FirstSeenPrefix(messages: seq<Str>, i: nat, j: nat)
    requires i <= j <= |messages|
    ensures FirstSeen(messages[..i]) <= FirstSeen(messages[..j])
    decreases j
  {
    if i < j {
      assert messages[..j][..j - 1] == messages[..j - 1];
      FirstSeenPrefix(messages, i, j - 1);
    }
  }

  /** A message that did not appear before gets the next row. */
  lemma NewRow(messages: seq<Str>, rowOf: seq<nat>, unique: seq<Str>, counts: seq<nat>, i: nat)
    requires Deduped(messages, rowOf, unique, counts) && i < |messages| && messages[i] !in messages[..i]
    ensures rowOf[i] == |FirstSeen(messages[..i])|
    ensures |FirstSeen(messages[..i + 1])| == rowOf[i] + 1
  {
    assert messages[..i + 1][..i] == messages[..i];
    FirstSeenGrows(messages, i, i);
    FirstSeenPrefix(messages, i + 1, |messages|);
    assert messages[..|messages|] == messages;
    var u := |FirstSeen(messages[..i])|;
    assert FirstSeen(messages[..i + 1])[u] == messages[i];
    assert unique[u] == messages[i];
  }

  /** Rows are numbered in the order in which their messages first appear. */
  lemma RowsInOrder(messages: seq<Str>, rowOf: seq<nat>, unique: seq<Str>, counts: seq<nat>, i: nat, j: nat)
    requires Deduped(messages, rowOf, unique, counts) && i < j < |messages|
    requires messages[i] !in messages[..i] && messages[j] !in messages[..j]
    ensures rowOf[i] < rowOf[j]
  {
    NewRow(messages, rowOf, unique, counts, i);
    NewRow(messages, rowOf, unique, counts, j);
    FirstSeenGrows(messages, i + 1, j);
  }

  /** The messages determine rows, counts and the mapping. */
  lemma DedupDetermined(messages: seq<Str>, rowOfA: seq<nat>, uniqueA: seq<Str>, countsA: seq<nat>,
      rowOfB: seq<nat>, uniqueB: seq<Str>, countsB: seq<nat>)
    requires Deduped(messages, rowOfA, uniqueA, countsA) && Deduped(messages, rowOfB, uniqueB, countsB)
    ensures rowOfA == rowOfB && uniqueA == uniqueB && countsA == countsB
  {
    forall i | 0 <= i < |messages| ensures rowOfA[i] == rowOfB[i] {
      var a, b := rowOfA[i], rowOfB[i];
      assert uniqueA[a] == uniqueA[b];
    }
  }

  /** Every row has a message. */
  lemma {:induction false} RowHasMessage(rowOf: seq<nat>, k: nat, u: nat) returns (i: nat)
    requires k <= |rowOf| && Multiplicity(rowOf, k, u) > 0
    ensures i < k && rowOf[i] == u
  {
    if rowOf[k - 1] == u {
      i := k - 1;
    } else {
      i := RowHasMessage(rowOf, k - 1, u);
    }
  }

  lemma {:induction false} MultiplicityNext(rowOf: seq<nat>, r: nat, k: nat, u: nat)
    requires k <= |rowOf|
    ensures Multiplicity(rowOf + [r], k, u) == Multiplicity(rowOf, k, u)
  {
    if k > 0 {
      assert (rowOf + [r])[k - 1] == rowOf[k - 1];
      MultiplicityNext(rowOf, r, k - 1, u);
    }
  }

  lemma {:induction false} NoMultiplicity(rowOf: seq<nat>, k: nat, u: nat)
    requires k <= |rowOf| && forall i :: 0 <= i < |rowOf| ==> rowOf[i] != u
    ensures Multiplicity(rowOf, k, u) == 0
  {
    if k > 0 {
      NoMultiplicity(rowOf, k - 1, u);
    }
  }

  lemma {:induction false} TotalBump(counts: seq<nat>, k: nat, u: nat)
    requires k <= |counts| && u < |counts|
    ensures Total(counts[u := counts[u] + 1], k) == Total(counts, k) + (if u < k then 1 else 0)
  {
    if k > 0 {
      TotalBump(counts, k - 1, u);
    }
  }

  lemma {:induction false} TotalSnoc(counts: seq<nat>, x: nat, k: nat)
    requires k <= |counts|
    ensures Total(counts + [x], k) == Total(counts, k)
  {
    if k > 0 {
      TotalSnoc(counts, x, k - 1);
    }
  }

  /** Counting one more message of row u. */
  lemma CountOne(messages: seq<Str>, i: nat, rowOf: seq<nat>, unique: seq<Str>, counts: seq<nat>, u: nat)
    requires i < |messages| && Deduped(messages[..i], rowOf, unique, counts)
    requires u < |unique| && unique[u] == messages[i]
    ensures Deduped(messages[..i + 1], rowOf + [u], unique, counts[u := counts[u] + 1])
  {
    assert messages[..i + 1][..i] == messages[..i];
    var bumped := counts[u := counts[u] + 1];
    assert Multiplicity(rowOf + [u], |rowOf| + 1, u) == Multiplicity(rowOf + [u], |rowOf|, u) + 1;
    forall v | 0 <= v < |bumped| ensures bumped[v] == Multiplicity(rowOf + [u], |rowOf| + 1, v) {
      MultiplicityNext(rowOf, u, |rowOf|, v);
    }
    TotalBump(counts, |counts|, u);
  }

  /** The first message of a new row. */
  lemma CountNew(messages: seq<Str>, i: nat, rowOf: seq<nat>, unique: seq<Str>, counts: seq<nat>)
    requires i < |messages| && Deduped(messages[..i], rowOf, unique, counts) && messages[i] !in unique
    ensures Deduped(messages[..i + 1], rowOf + [|unique|], unique + [messages[i]], counts + [1])
  {
    assert messages[..i + 1][..i] == messages[..i];
    var u := |unique|;
    forall v | 0 <= v <= u ensures (counts + [1])[v] == Multiplicity(rowOf + [u], |rowOf| + 1, v) {
      MultiplicityNext(rowOf, u, |rowOf|, v);
      if v == u { NoMultiplicity(rowOf, |rowOf|, u); }
    }
    TotalSnoc(counts, 1, |counts|);
  }

  /** The loop that maps messages to unique rows. */
  method Deduplicate(messages: seq<Str>) returns (rowOf: seq<nat>, unique: seq<Str>, counts: seq<nat>)
    requires |messages| <= MAX_INT32
    ensures Deduped(messages, rowOf, unique, counts)
  {
    hide Deduped;
    var lineIndex: map<Str, nat> := map[];
    rowOf, unique, counts := [], [], [];
    NothingCounted(messages);
    for i := 0 to |messages|
      invariant Deduped(messages[..i], rowOf, unique, counts) && Indexed(lineIndex, unique)
      invariant |counts| == |unique|
    {
      var msg := messages[i];
      ghost var rowOf0, unique0, counts0 := rowOf, unique, counts;
      if msg !in lineIndex {
        lineIndex := lineIndex[msg := |unique|];
        unique := unique + [msg];
        counts := counts + [0];
      }
      var id := lineIndex[msg];
      counts := counts[id := counts[id] + 1];
      rowOf := rowOf + [id];
      if msg in unique0 {
        CountOne(messages, i, rowOf0, unique0, counts0, id);
      } else {
        CountNew(messages, i, rowOf0, unique0, counts0);
        assert counts == counts0 + [1];
      }
    }
    assert messages[..|messages|] == messages;
  }

  lemma NothingCounted(messages: seq<Str>)
    ensures Deduped(messages[..0], [], [], [])
  {
  }
}
