/** Dense ids for token slices (internRows of parser.go). */
module Interner {
  import opened Bytes
  import opened Tokens
  import opened TokenRecord

  /** Different slices have different ids, and the ids are 0 .. |m|-1. */
  ghost predicate InternerOk(m: map<Str, nat>) {
    && (forall s :: s in m ==> m[s] < |m|)
    && (forall s, t :: s in m && t in m && m[s] == m[t] ==> s == t)
    && (forall id: nat :: id < |m| ==> Taken(m, id))
  }

  ghost predicate Taken(m: map<Str, nat>, id: nat) {
    exists s :: s in m && m[s] == id
  }

  ghost predicate Extends(m0: map<Str, nat>, m: map<Str, nat>) {
    |m0| <= |m| && forall s :: s in m0 ==> s in m && m[s] == m0[s]
  }

  /** The ids of a row are those of its slices. */
  ghost predicate IdsFit(ids: seq<nat>, toks: seq<Token>, m: map<Str, nat>) {
    |ids| == |toks| && forall j :: 0 <= j < |toks| ==> toks[j].slice in m && ids[j] == m[toks[j].slice]
  }

  ghost predicate RowsInterned(rows: seq<Row>, m: map<Str, nat>) {
    forall i :: 0 <= i < |rows| ==> IdsFit(rows[i].ids, rows[i].toks, m)
  }

  /** All slices of the tokens are in the vocabulary. */
  ghost predicate SlicesIn(toks: seq<Token>, vocabulary: set<Str>) {
    forall j :: 0 <= j < |toks| ==> toks[j].slice in vocabulary
  }

  ghost predicate AllSlicesIn(tokenized: seq<seq<Token>>, vocabulary: set<Str>) {
    forall i :: 0 <= i < |tokenized| ==> SlicesIn(tokenized[i], vocabulary)
  }

  /** The interner after the slices of toks, in order of first appearance. */
  function InternedToks(toks: seq<Token>, m0: map<Str, nat>): map<Str, nat> {
    if toks == [] then m0
    else
      var m, s := InternedToks(toks[..|toks| - 1], m0), toks[|toks| - 1].slice;
      if s in m then m else m[s := |m|]
  }

  function InternedAll(tokenized: seq<seq<Token>>, m0: map<Str, nat>): map<Str, nat> {
    if tokenized == [] then m0
    else InternedToks(tokenized[|tokenized| - 1], InternedAll(tokenized[..|tokenized| - 1], m0))
  }

  /** Tokens and interner determine the rows. */
  lemma RowsDetermined(a: seq<Row>, b: seq<Row>, m: map<Str, nat>)
    requires |a| == |b| && RowsInterned(a, m) && RowsInterned(b, m)
    requires forall i :: 0 <= i < |a| ==> a[i].toks == b[i].toks
    ensures a == b
  {
    forall i | 0 <= i < |a| ensures a[i] == b[i] {
      assert IdsFit(a[i].ids, a[i].toks, m) && IdsFit(b[i].ids, b[i].toks, m);
      assert a[i].ids == b[i].ids;
    }
  }

  /** Two tokens of interned rows have the same id iff they have the same slice. */
  lemma IdsTellSlices(rows: seq<Row>, m: map<Str, nat>, i: nat, j: nat, k: nat, l: nat)
    requires InternerOk(m) && RowsInterned(rows, m)
    requires i < |rows| && j < |rows| && k < |rows[i].toks| && l < |rows[j].toks|
    ensures |rows[i].ids| == |rows[i].toks| && |rows[j].ids| == |rows[j].toks|
    ensures rows[i].ids[k] == rows[j].ids[l] <==> rows[i].toks[k].slice == rows[j].toks[l].slice
    ensures rows[i].ids[k] < |m|
  {
    assert IdsFit(rows[i].ids, rows[i].toks, m) && IdsFit(rows[j].ids, rows[j].toks, m);
  }

  lemma InternedRowsOk(rows: seq<Row>, m: map<Str, nat>)
    requires InternerOk(m) && RowsInterned(rows, m)
    ensures RowsOk(rows, |m|)
  {
    forall r | 0 <= r < |rows| ensures RowOk(rows[r], |m|) {
      assert IdsFit(rows[r].ids, rows[r].toks, m);
    }
  }

  lemma AddSlice(m: map<Str, nat>, s: Str)
    requires InternerOk(m) && s !in m
    ensures InternerOk(m[s := |m|]) && Extends(m, m[s := |m|]) && |m[s := |m|]| == |m| + 1
  {
    var n := m[s := |m|];
    assert n.Keys == m.Keys + {s};
    forall id: nat | id < |n| ensures Taken(n, id) {
      if id == |m| {
        assert s in n && n[s] == id;
      } else {
        assert Taken(m, id);
        var t :| t in m && m[t] == id;
        assert t in n && n[t] == id;
      }
    }
  }

  lemma IdsStay(ids: seq<nat>, toks: seq<Token>, m0: map<Str, nat>, m: map<Str, nat>)
    requires IdsFit(ids, toks, m0) && Extends(m0, m)
    ensures IdsFit(ids, toks, m)
  {
  }

  lemma ExtendsTrans(a: map<Str, nat>, b: map<Str, nat>, c: map<Str, nat>)
    requires Extends(a, b) && Extends(b, c)
    ensures Extends(a, c)
  {
  }

  lemma NoIds(toks: seq<Token>, m: map<Str, nat>)
    ensures IdsFit([], toks[..0], m) && Extends(m, m) && InternedToks(toks[..0], m) == m
  {
  }

  lemma NextInterned(toks: seq<Token>, j: nat, m0: map<Str, nat>)
    requires j < |toks|
    ensures var m, s := InternedToks(toks[..j], m0), toks[j].slice;
      InternedToks(toks[..j + 1], m0) == if s in m then m else m[s := |m|]
  {
    assert toks[..j + 1][..j] == toks[..j];
  }

  lemma NextId(ids: seq<nat>, toks: seq<Token>, j: nat, m: map<Str, nat>)
    requires j < |toks| && IdsFit(ids, toks[..j], m) && toks[j].slice in m
    ensures IdsFit(ids + [m[toks[j].slice]], toks[..j + 1], m)
  {
  }

  /** A vocabulary that still has an unseen slice has room for its id. */
  lemma RoomForSlice(m: map<Str, nat>, s: Str, vocabulary: set<Str>)
    requires m.Keys <= vocabulary && s in vocabulary && s !in m
    ensures |m| < |vocabulary|
  {
    SmallerSet(m.Keys + {s}, vocabulary);
  }

  lemma {:induction false} SmallerSet(a: set<Str>, b: set<Str>)
    requires a <= b
    ensures |a| <= |b|
  {
    if x :| x in a {
      SmallerSet(a - {x}, b - {x});
    }
  }

  /** Looking up one slice, with a new id if there is none yet. */
  method InternSlice(interner0: map<Str, nat>, s: Str, ghost vocabulary: set<Str>) returns (interner: map<Str, nat>)
    requires InternerOk(interner0) && interner0.Keys <= vocabulary && s in vocabulary && |vocabulary| <= UINT32
    ensures InternerOk(interner) && Extends(interner0, interner) && interner.Keys <= vocabulary
    ensures s in interner && interner == if s in interner0 then interner0 else interner0[s := |interner0|]
  {
    hide InternerOk;
    interner := interner0;
    if s !in interner {
      RoomForSlice(interner, s, vocabulary);
      AddSlice(interner, s);
      interner := interner[s := |interner| % UINT32];
    }
  }

  /** The loop over one row. */
  method InternRow(toks: seq<Token>, interner0: map<Str, nat>, ghost vocabulary: set<Str>)
    returns (interner: map<Str, nat>, ids: seq<nat>)
    requires InternerOk(interner0) && interner0.Keys <= vocabulary
    requires SlicesIn(toks, vocabulary) && |vocabulary| <= UINT32
    ensures InternerOk(interner) && Extends(interner0, interner) && IdsFit(ids, toks, interner)
    ensures interner.Keys <= vocabulary && interner == InternedToks(toks, interner0)
  {
    hide InternerOk, IdsFit, Extends, InternedToks;
    interner := interner0;
    ids := [];
    NoIds(toks, interner);
    for j := 0 to |toks|
      invariant InternerOk(interner) && Extends(interner0, interner) && IdsFit(ids, toks[..j], interner)
      invariant interner.Keys <= vocabulary && interner == InternedToks(toks[..j], interner0)
    {
      NextInterned(toks, j, interner0);
      ghost var before := interner;
      interner := InternSlice(interner, toks[j].slice, vocabulary);
      IdsStay(ids, toks[..j], before, interner);
      ExtendsTrans(interner0, before, interner);
      NextId(ids, toks, j, interner);
      ids := ids + [interner[toks[j].slice]];
    }
    assert toks[..|toks|] == toks;
  }

  /** internRows: one id per distinct slice, shared by all rows and kept from one call
      to the next. The number of distinct slices must fit 32 bits. */
  method InternRows(tokenized: seq<seq<Token>>, interner0: map<Str, nat>, ghost vocabulary: set<Str>)
    returns (interner: map<Str, nat>, rows: seq<Row>)
    requires InternerOk(interner0) && interner0.Keys <= vocabulary
    requires AllSlicesIn(tokenized, vocabulary) && |vocabulary| <= UINT32
    ensures InternerOk(interner) && Extends(interner0, interner) && RowsInterned(rows, interner)
    ensures |rows| == |tokenized| && forall i :: 0 <= i < |rows| ==> rows[i].toks == tokenized[i]
    ensures interner.Keys <= vocabulary && |interner| <= UINT32
    ensures interner == InternedAll(tokenized, interner0)
  {
    hide InternerOk, IdsFit, SlicesIn, InternedToks, Extends;
    NoIds([], interner0);
    interner, rows := interner0, [];
    for i := 0 to |tokenized|
      invariant InternerOk(interner) && Extends(interner0, interner) && RowsInterned(rows, interner)
      invariant |rows| == i && forall k :: 0 <= k < i ==> rows[k].toks == tokenized[k]
      invariant interner.Keys <= vocabulary && interner == InternedAll(tokenized[..i], interner0)
    {
      assert tokenized[..i + 1][..i] == tokenized[..i];
      ghost var before := interner;
      var ids;
      interner, ids := InternRow(tokenized[i], interner, vocabulary);
      forall k | 0 <= k < |rows| ensures IdsFit(rows[k].ids, rows[k].toks, interner) {
        IdsStay(rows[k].ids, rows[k].toks, before, interner);
      }
      ExtendsTrans(interner0, before, interner);
      rows := rows + [Row(tokenized[i], ids)];
    }
    SmallerSet(interner.Keys, vocabulary);
    assert tokenized[..|tokenized|] == tokenized;
  }
}
