/** Row-parallel stages of parser.go: contiguous shards, and workers whose steps
    interleave in any order, giving what the serial loop gives. */
module Sharding {
  import opened Bytes
  import opened Tokens
  import opened Splitting
  import opened SymbolTable
  import opened Tokenize

  /** The rows lo..hi of one worker. */
  datatype Range = Range(lo: nat, hi: nat)

  ghost predicate InRange(r: Range, i: nat) {
    r.lo <= i < r.hi
  }

  /** Non-empty, ascending, disjoint ranges without gaps that end at n. */
  ghost predicate Chained(out: seq<Range>, n: nat) {
    && (forall s :: 0 <= s < |out| ==> out[s].lo < out[s].hi <= n)
    && (forall s, t :: 0 <= s < t < |out| ==> out[s].hi <= out[t].lo)
    && (forall s, t :: 0 <= s < t < |out| && t == s + 1 ==> out[s].hi == out[t].lo)
    && (if out == [] then n == 0 else out[0].lo == 0 && out[|out| - 1].hi == n)
  }

  /** Every row lies in exactly one range. */
  lemma ChainedCovers(out: seq<Range>, n: nat, i: nat)
    requires Chained(out, n) && i < n
    ensures exists s :: 0 <= s < |out| && InRange(out[s], i)
    ensures forall s, t :: 0 <= s < |out| && 0 <= t < |out| && InRange(out[s], i) && InRange(out[t], i) ==> s == t
  {
    var s := 0;
    while out[s].hi <= i
      invariant 0 <= s < |out| && out[s].lo <= i
      decreases |out| - s
    {
      assert s + 1 < |out|;
      s := s + 1;
    }
    assert InRange(out[s], i);
  }

  /** shardRanges: at most `workers` ranges covering n rows. */
  method ShardRanges(n: nat, workers: nat) returns (out: seq<Range>)
    requires workers >= 1
    ensures Chained(out, n) && |out| <= workers
  {
    var chunk := (n + workers - 1) / workers;
    ChunkCovers(n, workers);
    hide Chained;
    out := [];
    NoRanges();
    var lo := 0;
    ghost var k: nat := 0;
    while lo < n
      invariant Chained(out, if lo < n then lo else n) && |out| == k
      invariant lo == k * chunk && (k > 0 ==> (k - 1) * chunk < n)
      decreases n - lo
    {
      var hi := lo + chunk;
      if hi > n {
        hi := n;
      }
      ChainOn(out, lo, hi);
      out := out + [Range(lo, hi)];
      NextChunk(k, chunk);
      lo := lo + chunk;
      k := k + 1;
    }
    if k > 0 {
      FewChunks(k - 1, workers, chunk, n);
    }
  }

  lemma NoRanges()
    ensures Chained([], 0)
  {
  }

  lemma ChainOn(out: seq<Range>, lo: nat, hi: nat)
    requires Chained(out, lo) && lo < hi
    ensures Chained(out + [Range(lo, hi)], hi)
  {
  }

  lemma ChunkCovers(n: nat, workers: nat)
    requires workers >= 1
    ensures var chunk := (n + workers - 1) / workers; workers * chunk >= n && (n > 0 ==> chunk >= 1)
  {
    var chunk := (n + workers - 1) / workers;
    assert n + workers - 1 == workers * chunk + (n + workers - 1) % workers;
  }

  lemma NextChunk(k: nat, chunk: nat)
    ensures (k + 1) * chunk == k * chunk + chunk
  {
  }

  lemma FewChunks(k: nat, workers: nat, chunk: nat, n: nat)
    requires k * chunk < n <= workers * chunk
    ensures k < workers
  {
    MulMono(k, workers, chunk);
  }

  lemma MulMono(a: nat, b: nat, c: nat)
    ensures a >= b ==> a * c >= b * c
  {
  }

  // ------------------------------------------------------------ per-row stages

  /** A stage that computes every row independently. */
  datatype Stage =
    | Tokenization(lexer: Lexer, messages: seq<Str>)
    | Retokenization(fine: Lex, coarse: Lex, rows: seq<seq<Token>>, table: Table, simdTokenize: bool)

  ghost predicate StageOk(stage: Stage) {
    match stage
    case Tokenization(lexer, messages) => LexerOk(lexer)
    case Retokenization(fine, coarse, rows, table, simdTokenize) =>
      && Refines(fine, coarse) && Represents(table, fine.symbols)
      && forall i :: 0 <= i < |rows| ==> AllImpureOk(coarse, rows[i]) && NoneEmpty(rows[i])
  }

  function StageSize(stage: Stage): nat {
    match stage
    case Tokenization(lexer, messages) => |messages|
    case Retokenization(fine, coarse, rows, table, simdTokenize) => |rows|
  }

  ghost function StageRow(stage: Stage, i: nat): seq<Token>
    requires StageOk(stage) && i < StageSize(stage)
  {
    match stage
    case Tokenization(lexer, messages) => TokensIn(lexer, messages[i])
    case Retokenization(fine, coarse, rows, table, simdTokenize) => Resplit(fine, rows[i])
  }

  method RunRow(stage: Stage, i: nat) returns (toks: seq<Token>)
    requires StageOk(stage) && i < StageSize(stage)
    ensures toks == StageRow(stage, i)
  {
    hide LexerOk, TokensIn, Resplit, Refines, Represents;
    match stage
    case Tokenization(lexer, messages) =>
      toks := TokenizeInto(lexer, messages[i]);
    case Retokenization(fine, coarse, rows, table, simdTokenize) =>
      var needed;
      toks, needed := RetokenizeInto(fine, coarse, rows[i], table, simdTokenize);
  }

  /** The serial loop. */
  method RunSerial(stage: Stage) returns (out: seq<seq<Token>>)
    requires StageOk(stage)
    ensures |out| == StageSize(stage)
    ensures forall i :: 0 <= i < |out| ==> out[i] == StageRow(stage, i)
  {
    hide StageOk, StageRow, StageSize;
    out := [];
    var n := StageSize(stage);
    for i := 0 to n
      invariant |out| == i
      invariant forall k :: 0 <= k < i ==> out[k] == StageRow(stage, k)
    {
      var toks := RunRow(stage, i);
      out := out + [toks];
    }
  }

  // ------------------------------------------------------------- interleavings

  /** next[s] is the row at which worker s stands. */
  ghost predicate InProgress(ranges: seq<Range>, next: seq<nat>) {
    |next| == |ranges| && forall s :: 0 <= s < |ranges| ==> ranges[s].lo <= next[s] <= ranges[s].hi
  }

  /** The number of rows the workers s.. have still to do. */
  ghost function RowsLeft(ranges: seq<Range>, next: seq<nat>, s: nat): nat
    requires InProgress(ranges, next) && s <= |ranges|
    decreases |ranges| - s
  {
    if s == |ranges| then 0 else ranges[s].hi - next[s] + RowsLeft(ranges, next, s + 1)
  }

  lemma {:induction false} StepLeavesLess(ranges: seq<Range>, next: seq<nat>, s: nat, t: nat)
    requires InProgress(ranges, next) && s <= |ranges| && t < |ranges| && next[t] < ranges[t].hi
    ensures InProgress(ranges, next[t := next[t] + 1])
    ensures RowsLeft(ranges, next[t := next[t] + 1], s) == RowsLeft(ranges, next, s) - (if s <= t then 1 else 0)
    decreases |ranges| - s
  {
    if s < |ranges| {
      StepLeavesLess(ranges, next, s + 1, t);
    }
  }

  function Starts(ranges: seq<Range>): seq<nat> {
    seq(|ranges|, s requires 0 <= s < |ranges| => ranges[s].lo)
  }

  /** The slots of the rows that the workers have done hold the rows' results. */
  ghost predicate DoneRows(stage: Stage, ranges: seq<Range>, next: seq<nat>, slots: seq<seq<Token>>)
    requires StageOk(stage)
  {
    && Chained(ranges, StageSize(stage)) && InProgress(ranges, next) && |slots| == StageSize(stage)
    && forall s, i :: 0 <= s < |ranges| && ranges[s].lo <= i < next[s] ==> RowIs(stage, slots, i)
  }

  ghost predicate RowIs(stage: Stage, slots: seq<seq<Token>>, i: nat)
    requires StageOk(stage)
  {
    i < |slots| && i < StageSize(stage) && slots[i] == StageRow(stage, i)
  }

  lemma NothingDone(stage: Stage, ranges: seq<Range>, slots: seq<seq<Token>>)
    requires StageOk(stage) && Chained(ranges, StageSize(stage)) && |slots| == StageSize(stage)
    ensures DoneRows(stage, ranges, Starts(ranges), slots)
  {
  }

  lemma RangeRow(ranges: seq<Range>, n: nat, s: nat, i: nat)
    requires Chained(ranges, n) && s < |ranges| && i < ranges[s].hi
    ensures i < n
  {
  }

  lemma RowDone(stage: Stage, ranges: seq<Range>, next: seq<nat>, slots: seq<seq<Token>>, s: nat, toks: seq<Token>)
    requires StageOk(stage) && DoneRows(stage, ranges, next, slots) && s < |ranges| && next[s] < ranges[s].hi
    requires next[s] < StageSize(stage) && toks == StageRow(stage, next[s])
    ensures DoneRows(stage, ranges, next[s := next[s] + 1], slots[next[s] := toks])
  {
    hide StageOk, StageRow, StageSize;
    var slots' := slots[next[s] := toks];
    var next' := next[s := next[s] + 1];
    forall u, i | 0 <= u < |ranges| && ranges[u].lo <= i < next'[u] ensures RowIs(stage, slots', i) {
      if i != next[s] {
        assert i < next[u];
        assert RowIs(stage, slots, i);
      }
    }
  }

  lemma AllRowsDone(stage: Stage, ranges: seq<Range>, next: seq<nat>, slots: seq<seq<Token>>)
    requires StageOk(stage) && DoneRows(stage, ranges, next, slots)
    requires forall s :: 0 <= s < |ranges| ==> next[s] >= ranges[s].hi
    ensures |slots| == StageSize(stage) && forall i :: 0 <= i < |slots| ==> slots[i] == StageRow(stage, i)
  {
    hide StageOk, StageRow, StageSize;
    forall i | 0 <= i < |slots| ensures slots[i] == StageRow(stage, i) {
      ChainedCovers(ranges, StageSize(stage), i);
      var s :| 0 <= s < |ranges| && InRange(ranges[s], i);
      assert RowIs(stage, slots, i);
    }
  }

  /** The workers' steps in an arbitrary interleaving, each writing its own slots:
      the result is that of the serial loop. */
  method RunSharded(stage: Stage, workers: nat) returns (out: seq<seq<Token>>)
    requires StageOk(stage) && workers >= 1
    ensures |out| == StageSize(stage)
    ensures forall i :: 0 <= i < |out| ==> out[i] == StageRow(stage, i)
  {
    hide StageOk, StageRow, StageSize, RowsLeft, DoneRows, Chained;
    var n := StageSize(stage);
    var slots := new seq<Token>[n](_ => []);
    var ranges := ShardRanges(n, workers);
    var next: seq<nat> := Starts(ranges);
    NothingDone(stage, ranges, slots[..]);
    while exists s :: 0 <= s < |ranges| && next[s] < ranges[s].hi
      invariant InProgress(ranges, next)
      invariant DoneRows(stage, ranges, next, slots[..])
      decreases RowsLeft(ranges, next, 0)
    {
      var s :| 0 <= s < |ranges| && next[s] < ranges[s].hi;
      RangeRow(ranges, n, s, next[s]);
      var toks := RunRow(stage, next[s]);
      RowDone(stage, ranges, next, slots[..], s, toks);
      ghost var before: seq<seq<Token>> := slots[..];
      slots[next[s]] := toks;
      assert slots[..] == before[next[s] := toks];
      StepLeavesLess(ranges, next, 0, s);
      next := next[s := next[s] + 1];
    }
    out := slots[..];
    AllRowsDone(stage, ranges, next, out);
  }
}
