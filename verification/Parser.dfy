/** parse (parser.go): from messages to cluster ids, templates and masks. */
module Parser {
  import opened Bytes
  import opened Unicode
  import opened Tokens
  import opened Specials
  import opened Splitting
  import opened SymbolTable
  import opened Tokenize
  import opened TokenRecord
  import opened Sharding
  import opened Dedup
  import opened Interner
  import opened Anchors
  import opened AnchorKey
  import opened Grouping
  import opened Clusters
  import opened Sampling
  import opened Template
  import opened Sorting

  /** A configured parser. maxProcs is what the runtime reports, tables the Unicode
      character classes. */
  datatype Config = Config(
    whites: seq<SpecialMatcher>,
    blacks: seq<SpecialMatcher>,
    symbols: set<nat>,
    tables: Tables,
    filter: StaticFilter,
    threshold: real,
    patternSample: real,
    parallelism: int,
    maxProcs: nat,
    simdTokenize: bool)

  ghost predicate ConfigOk(cfg: Config) {
    MatchersOk(cfg.whites) && MatchersOk(cfg.blacks) && 0.0 < cfg.patternSample <= 1.0
  }

  /** The punctuation of ASCII. */
  predicate IsPunctuation(c: nat) {
    33 <= c <= 47 || 58 <= c <= 64 || 91 <= c <= 96 || 123 <= c <= 126
  }

  /** allPunctuationSymbolSet */
  function AllPunctuation(): set<nat> {
    set c: nat | c < 128 && IsPunctuation(c)
  }

  /** allPunctuationSymbols */
  const PUNCTUATION: Str := "!\"#$%&'()*+,-./:;<=>?@[\\]^_`{|}~"

  /** The set has the characters of that string, and no others. */
  lemma PunctuationIs(c: nat)
    ensures c in AllPunctuation() <==> c < 256 && c as char in PUNCTUATION
  {
    assert |PUNCTUATION| == 32;
    assert 33 <= c <= 47 ==> PUNCTUATION[c - 33] == c as char;
    assert 58 <= c <= 64 ==> PUNCTUATION[c - 43] == c as char;
    assert 91 <= c <= 96 ==> PUNCTUATION[c - 69] == c as char;
    assert 123 <= c <= 126 ==> PUNCTUATION[c - 95] == c as char;
    assert forall i :: 0 <= i < 32 ==> IsPunctuation(PUNCTUATION[i] as nat);
  }

  /** No letter and no digit is punctuation, so re-splitting with the full set refines
      any split with some of its symbols. */
  lemma PunctuationRefines(tables: Tables, symbols: set<nat>)
    requires symbols <= AllPunctuation()
    ensures Refines(Lex(tables, AllPunctuation()), Lex(tables, symbols))
  {
  }

  const ROWS_PER_WORKER: nat := 512

  /** The configured parallelism, or the processor count if none is configured. */
  function WorkerLimit(cfg: Config): nat {
    if cfg.parallelism <= 0 then cfg.maxProcs else cfg.parallelism
  }

  /** workersFor: the largest number of workers within the limit that leaves each enough rows. */
  function WorkersFor(cfg: Config, rows: nat): (n: nat)
    ensures n >= 1 && (n > 1 ==> n * ROWS_PER_WORKER <= rows)
    ensures n > 1 ==> n <= if cfg.parallelism <= 0 then cfg.maxProcs else cfg.parallelism
    ensures forall m: nat ::
      (1 < m <= (if cfg.parallelism <= 0 then cfg.maxProcs else cfg.parallelism) && m * ROWS_PER_WORKER <= rows) ==> m <= n
  {
    var limit := WorkerLimit(cfg);
    var byWork := rows / ROWS_PER_WORKER;
    var capped := if byWork < limit then byWork else limit;
    if capped < 2 then 1 else capped
  }

  /** The tokenizer of a configuration with the given split symbols. */
  ghost predicate LexerFor(t: Lexer, cfg: Config, symbols: set<nat>) {
    && LexerOk(t) && t.whites == cfg.whites && t.blacks == cfg.blacks
    && t.lex == Lex(cfg.tables, symbols)
  }

  method NewTokenizer(cfg: Config, symbols: set<nat>) returns (t: Lexer)
    requires ConfigOk(cfg)
    ensures LexerFor(t, cfg, symbols)
  {
    var table := NewSymbolTable(symbols);
    t := Lexer(cfg.whites, cfg.blacks, Lex(cfg.tables, symbols), table, cfg.simdTokenize);
  }

  /** A tokenizer value for specifications: the tokens do not depend on the table. */
  ghost function AbstractLexer(cfg: Config, symbols: set<nat>): Lexer {
    Lexer(cfg.whites, cfg.blacks, Lex(cfg.tables, symbols), Table([], [], {}), false)
  }

  /** The tokens of a message, as a function of the configuration. */
  ghost function RowTokens(cfg: Config, symbols: set<nat>, msg: Str): seq<Token>
    requires ConfigOk(cfg)
  {
    TokensIn(AbstractLexer(cfg, symbols), msg)
  }

  lemma LexerTokens(t: Lexer, cfg: Config, symbols: set<nat>, msg: Str)
    requires ConfigOk(cfg) && LexerFor(t, cfg, symbols)
    ensures TokensIn(t, msg) == RowTokens(cfg, symbols, msg)
  {
  }

  /** The rich tokens, split at all punctuation, from which templates and masks are rendered. */
  ghost function RichTokens(cfg: Config, msg: Str): seq<Token>
    requires ConfigOk(cfg)
  {
    RowTokens(cfg, AllPunctuation(), msg)
  }

  /** Every slice of either tokenization of the messages. */
  ghost predicate CoversSlices(cfg: Config, messages: seq<Str>, vocabulary: set<Str>)
    requires ConfigOk(cfg)
  {
    forall i :: 0 <= i < |messages| ==>
      SlicesIn(RowTokens(cfg, cfg.symbols, messages[i]), vocabulary) && SlicesIn(RichTokens(cfg, messages[i]), vocabulary)
  }

  /** The intermediate results of one parse. */
  datatype Run = Run(
    rowOf: seq<nat>,
    unique: seq<Str>,
    counts: seq<nat>,
    interner: map<Str, nat>,
    rows: seq<Row>,
    numPrimary: nat,
    record: Record,
    groups: seq<Group>,
    richRows: seq<Row>,
    numIDs: nat)

  function NoRun(): Run {
    Run([], [], [], map[], [], 0, Record([], map[]), [], [], 0)
  }

  ghost function RunSets(cfg: Config, run: Run): seq<set<Token>>
    requires RowsOk(run.rows, |run.record.occ|)
  {
    AnchorSets(run.rows, run.record, cfg.threshold)
  }

  ghost predicate Tokenized(rows: seq<seq<Token>>, cfg: Config, symbols: set<nat>, unique: seq<Str>)
    requires ConfigOk(cfg)
  {
    |rows| == |unique| && forall u :: 0 <= u < |unique| ==> rows[u] == RowTokens(cfg, symbols, unique[u])
  }

  function TokensOfRows(rows: seq<Row>): seq<seq<Token>> {
    seq(|rows|, u requires 0 <= u < |rows| => rows[u].toks)
  }

  /** The interner after the primary tokens. */
  function PrimaryInterner(run: Run): map<Str, nat> {
    InternedAll(TokensOfRows(run.rows), map[])
  }

  /** The primary stages: unique rows, their tokens, ids and counts, and the groups. */
  ghost predicate PrimaryOk(cfg: Config, messages: seq<Str>, run: Run)
    requires ConfigOk(cfg)
  {
    && Deduped(messages, run.rowOf, run.unique, run.counts)
    && Tokenized(TokensOfRows(run.rows), cfg, cfg.symbols, run.unique)
    && RowsOk(run.rows, run.numPrimary) && RowsInterned(run.rows, run.interner)
    && InternerOk(run.interner) && run.numPrimary == |PrimaryInterner(run)|
    && RowsInterned(run.rows, PrimaryInterner(run))
    && Counts(run.record, run.rows, run.counts, cfg.filter, run.numPrimary, |run.counts|)
    && RowsBelow(run.rowOf, |RunSets(cfg, run)|)
    && GroupsOk(run.groups, RunSets(cfg, run), run.rowOf)
  }

  /** The rich rows of the unique messages, with ids from the same interner. */
  ghost predicate RichOk(cfg: Config, run: Run)
    requires ConfigOk(cfg)
  {
    && Tokenized(TokensOfRows(run.richRows), cfg, AllPunctuation(), run.unique)
    && run.numIDs == |run.interner|
    && run.interner == (
         if cfg.symbols == AllPunctuation() then PrimaryInterner(run)
         else InternedAll(TokensOfRows(run.richRows), PrimaryInterner(run)))
    && RowsInterned(run.richRows, run.interner) && RowsOk(run.richRows, run.numIDs)
  }

  lemma MessageOfRow(messages: seq<Str>, rowOf: seq<nat>, unique: seq<Str>, counts: seq<nat>, u: nat) returns (i: nat)
    requires Deduped(messages, rowOf, unique, counts) && u < |unique|
    ensures i < |messages| && rowOf[i] == u && messages[i] == unique[u]
  {
    i := RowHasMessage(rowOf, |rowOf|, u);
  }

  lemma SlicesOfRows(cfg: Config, messages: seq<Str>, vocabulary: set<Str>, symbols: set<nat>, rows: seq<seq<Token>>,
      rowOf: seq<nat>, unique: seq<Str>, counts: seq<nat>)
    requires ConfigOk(cfg) && CoversSlices(cfg, messages, vocabulary)
    requires symbols == cfg.symbols || symbols == AllPunctuation()
    requires Deduped(messages, rowOf, unique, counts) && Tokenized(rows, cfg, symbols, unique)
    ensures AllSlicesIn(rows, vocabulary)
  {
    hide RowTokens, SlicesIn, Deduped, AllPunctuation;
    forall u | 0 <= u < |rows| ensures SlicesIn(rows[u], vocabulary) {
      var i := MessageOfRow(messages, rowOf, unique, counts, u);
      assert messages[i] == unique[u];
    }
  }

  /** Tokenizing the unique rows, serially or sharded. */
  method TokenizeRows(cfg: Config, symbols: set<nat>, t: Lexer, unique: seq<Str>, workers: nat)
    returns (tokenized: seq<seq<Token>>)
    requires ConfigOk(cfg) && LexerFor(t, cfg, symbols) && workers >= 1
    ensures Tokenized(tokenized, cfg, symbols, unique)
  {
    var stage := Tokenization(t, unique);
    if workers > 1 {
      tokenized := RunSharded(stage, workers);
    } else {
      tokenized := RunSerial(stage);
    }
    forall u | 0 <= u < |unique| ensures tokenized[u] == RowTokens(cfg, symbols, unique[u]) {
      LexerTokens(t, cfg, symbols, unique[u]);
    }
  }

  /** Re-splitting the primary tokens with all punctuation. */
  method RetokenizeRows(cfg: Config, t: Lexer, rich: Lexer, tokenized: seq<seq<Token>>, ghost unique: seq<Str>,
      workers: nat)
    returns (richTokenized: seq<seq<Token>>)
    requires ConfigOk(cfg) && LexerFor(t, cfg, cfg.symbols) && LexerFor(rich, cfg, AllPunctuation()) && workers >= 1
    requires cfg.symbols <= AllPunctuation() && Tokenized(tokenized, cfg, cfg.symbols, unique)
    ensures Tokenized(richTokenized, cfg, AllPunctuation(), unique)
  {
    PunctuationRefines(cfg.tables, cfg.symbols);
    var stage := Retokenization(rich.lex, t.lex, tokenized, rich.table, cfg.simdTokenize);
    forall u | 0 <= u < |unique|
      ensures AllImpureOk(t.lex, tokenized[u]) && NoneEmpty(tokenized[u])
      ensures Resplit(rich.lex, tokenized[u]) == RichTokens(cfg, unique[u])
    {
      LexerTokens(t, cfg, cfg.symbols, unique[u]);
      TokenizeNoneEmpty(t, unique[u]);
      ResplitTokens(rich.lex, t.lex, PreTokens(t, unique[u]));
    }
    if workers > 1 {
      richTokenized := RunSharded(stage, workers);
    } else {
      richTokenized := RunSerial(stage);
    }
  }

  lemma RowsAreTokenized(rows: seq<Row>, tokenized: seq<seq<Token>>)
    requires |rows| == |tokenized| && forall i :: 0 <= i < |rows| ==> rows[i].toks == tokenized[i]
    ensures TokensOfRows(rows) == tokenized
  {
  }

  lemma NoInterner()
    ensures InternerOk(map[])
  {
  }

  /** The primary stages. */
  method PrimaryStages(cfg: Config, messages: seq<Str>, t: Lexer, ghost vocabulary: set<Str>)
    returns (run: Run, tokenized: seq<seq<Token>>, workers: nat)
    requires ConfigOk(cfg) && LexerFor(t, cfg, cfg.symbols) && |messages| <= MAX_INT32
    requires CoversSlices(cfg, messages, vocabulary) && |vocabulary| <= UINT32
    ensures PrimaryOk(cfg, messages, run) && tokenized == TokensOfRows(run.rows) && workers >= 1
    ensures run.interner.Keys <= vocabulary && |run.unique| <= MAX_INT32
    ensures run.interner == PrimaryInterner(run)
  {
    hide Deduped, RowTokens, CoversSlices, LexerFor, InternerOk, IdsFit, AllSlicesIn, GroupsOk, AnchorSets, Counts;
    hide InternedAll;
    var rowOf, unique, counts := Deduplicate(messages);
    CountsFit(messages, rowOf, unique, counts);
    workers := WorkersFor(cfg, |unique|);
    tokenized := TokenizeRows(cfg, cfg.symbols, t, unique, workers);
    SlicesOfRows(cfg, messages, vocabulary, cfg.symbols, tokenized, rowOf, unique, counts);
    NoInterner();
    var interner, rows := InternRows(tokenized, map[], vocabulary);
    RowsAreTokenized(rows, tokenized);
    InternedRowsOk(rows, interner);
    var numPrimary := |interner|;
    var record := NewTokenRecord(rows, counts, numPrimary, cfg.filter);
    RecordSize(record, rows, counts, cfg.filter, numPrimary);
    var groups := GroupByAnchorTokens(rows, record, cfg.threshold, rowOf, workers);
    run := Run(rowOf, unique, counts, interner, rows, numPrimary, record, groups, [], 0);
    assert |AnchorSets(rows, record, cfg.threshold)| == |rows| by { SetsSize(rows, record, cfg.threshold); }
  }

  lemma SetsSize(rows: seq<Row>, record: Record, threshold: real)
    requires RowsOk(rows, |record.occ|)
    ensures |AnchorSets(rows, record, threshold)| == |rows|
  {
  }

  lemma RecordSize(record: Record, rows: seq<Row>, counts: seq<nat>, f: StaticFilter, numIDs: nat)
    requires Counts(record, rows, counts, f, numIDs, |counts|)
    ensures |record.occ| == numIDs
  {
  }

  lemma CountsFit(messages: seq<Str>, rowOf: seq<nat>, unique: seq<Str>, counts: seq<nat>)
    requires Deduped(messages, rowOf, unique, counts) && |messages| <= MAX_INT32
    ensures |counts| == |unique| && Total(counts, |counts|) <= MAX_INT32 && RowsBelow(rowOf, |unique|)
    ensures |unique| <= MAX_INT32
  {
    TotalAtLeast(counts, |counts|);
  }

  lemma {:induction false} TotalAtLeast(counts: seq<nat>, k: nat)
    requires k <= |counts| && forall u :: 0 <= u < |counts| ==> counts[u] > 0
    ensures Total(counts, k) >= k
  {
    if k > 0 {
      TotalAtLeast(counts, k - 1);
    }
  }

  /** The rich rows: the primary ones when they are already split at all punctuation,
      re-split when some symbols were missing, tokenized anew otherwise. */
  method RichStages(cfg: Config, messages: seq<Str>, t: Lexer, tokenized: seq<seq<Token>>, run0: Run, workers: nat,
      ghost vocabulary: set<Str>)
    returns (run: Run)
    requires ConfigOk(cfg) && LexerFor(t, cfg, cfg.symbols) && workers >= 1
    requires CoversSlices(cfg, messages, vocabulary) && |vocabulary| <= UINT32
    requires PrimaryOk(cfg, messages, run0) && tokenized == TokensOfRows(run0.rows)
    requires run0.interner.Keys <= vocabulary && run0.interner == PrimaryInterner(run0)
    ensures PrimaryOk(cfg, messages, run) && RichOk(cfg, run)
    ensures run == run0.(interner := run.interner, richRows := run.richRows, numIDs := run.numIDs)
  {
    hide Deduped, RowTokens, CoversSlices, LexerFor, InternerOk, IdsFit, AllSlicesIn, GroupsOk, AnchorSets, Counts;
    hide AllPunctuation, InternedAll;
    var canReuse := cfg.symbols <= AllPunctuation();
    if canReuse && cfg.symbols == AllPunctuation() {
      InternedRowsOk(run0.rows, run0.interner);
      run := run0.(richRows := run0.rows, numIDs := |run0.interner|);
      return;
    }
    var rich := NewTokenizer(cfg, AllPunctuation());
    var richTokenized;
    if canReuse {
      richTokenized := RetokenizeRows(cfg, t, rich, tokenized, run0.unique, workers);
    } else {
      richTokenized := TokenizeRows(cfg, AllPunctuation(), rich, run0.unique, workers);
    }
    SlicesOfRows(cfg, messages, vocabulary, AllPunctuation(), richTokenized, run0.rowOf, run0.unique, run0.counts);
    var interner, richRows := InternRows(richTokenized, run0.interner, vocabulary);
    RowsAreTokenized(richRows, richTokenized);
    InternedRowsOk(richRows, interner);
    RowsStayInterned(run0.rows, run0.interner, interner);
    run := run0.(interner := interner, richRows := richRows, numIDs := |interner|);
  }

  lemma RowsStayInterned(rows: seq<Row>, m0: map<Str, nat>, m: map<Str, nat>)
    requires RowsInterned(rows, m0) && Extends(m0, m)
    ensures RowsInterned(rows, m) && |m0| <= |m|
  {
    forall i | 0 <= i < |rows| ensures IdsFit(rows[i].ids, rows[i].toks, m) {
      IdsStay(rows[i].ids, rows[i].toks, m0, m);
    }
  }

  lemma RunSizes(cfg: Config, messages: seq<Str>, run: Run)
    requires ConfigOk(cfg) && PrimaryOk(cfg, messages, run)
    ensures |run.record.occ| == run.numPrimary && |run.rowOf| == |messages|
    ensures |run.rows| == |run.unique| == |RunSets(cfg, run)|
  {
    assert |TokensOfRows(run.rows)| == |run.rows|;
  }

  /** How the run makes patterns. */
  function PolicyOf(cfg: Config, run: Run): Policy {
    Policy(cfg.filter, cfg.patternSample, run.rowOf)
  }

  /** The rows of a group's messages, in message order. */
  ghost function MessageRows(g: Group, rowOf: seq<nat>): seq<nat>
    requires RowsBelow(g.indices, |rowOf|)
  {
    seq(|g.indices|, k requires 0 <= k < |g.indices| => rowOf[g.indices[k]])
  }

  /** The rows of a group are those of its messages. */
  lemma SameRows(g: Group, sets: seq<set<Token>>, messages: seq<Str>, rowOf: seq<nat>, unique: seq<Str>, counts: seq<nat>)
    requires Deduped(messages, rowOf, unique, counts) && RowsBelow(rowOf, |sets|) && |sets| == |unique|
    requires GroupUpTo(g, sets, |sets|, rowOf, |rowOf|)
    ensures AscendBelow(g.indices, |rowOf|) && AscendBelow(g.rows, |sets|) && RowsBelow(g.indices, |rowOf|)
    ensures forall h: nat :: h < |rowOf| ==> (rowOf[h] in g.rows <==> h in g.indices)
    ensures Elements(MessageRows(g, rowOf)) == Elements(g.rows)
  {
    GroupMembers(g, sets, rowOf);
    assert RowsBelow(g.rows, |unique|);
    hide KeyOfSet, GroupUpTo, AscendBelow, Deduped, Elements;
    RowsHaveMessages(g, messages, rowOf, unique, counts);
  }

  /** Which rows and messages a group has. */
  lemma GroupMembers(g: Group, sets: seq<set<Token>>, rowOf: seq<nat>)
    requires RowsBelow(rowOf, |sets|) && GroupUpTo(g, sets, |sets|, rowOf, |rowOf|)
    ensures AscendBelow(g.indices, |rowOf|) && AscendBelow(g.rows, |sets|) && RowsBelow(g.indices, |rowOf|)
    ensures forall h: nat :: h < |rowOf| ==> (rowOf[h] in g.rows <==> h in g.indices)
  {
    hide KeyOfSet, RowsWith, IndicesWith;
    RowsAscend(sets, |sets|, g.key);
    IndicesAscend(sets, rowOf, |rowOf|, g.key);
    forall h: nat | h < |rowOf| ensures rowOf[h] in g.rows <==> h in g.indices {
      RowsWithExact(sets, |sets|, g.key, rowOf[h]);
      IndicesWithExact(sets, rowOf, |rowOf|, g.key, h);
    }
  }

  lemma RowsHaveMessages(g: Group, messages: seq<Str>, rowOf: seq<nat>, unique: seq<Str>, counts: seq<nat>)
    requires Deduped(messages, rowOf, unique, counts) && RowsBelow(g.indices, |rowOf|) && RowsBelow(g.rows, |unique|)
    requires forall h: nat :: h < |rowOf| ==> (rowOf[h] in g.rows <==> h in g.indices)
    ensures Elements(MessageRows(g, rowOf)) == Elements(g.rows)
  {
    var rows := MessageRows(g, rowOf);
    forall r | r in g.rows ensures r in rows {
      var i := MessageOfRow(messages, rowOf, unique, counts, r);
      assert i in g.indices;
      var k :| 0 <= k < |g.indices| && g.indices[k] == i;
      assert rows[k] == r;
    }
    forall r | r in rows ensures r in g.rows {
      var k :| 0 <= k < |rows| && rows[k] == r;
      assert g.indices[k] in g.indices;
    }
  }

  lemma {:induction false} FewElements(s: seq<nat>)
    ensures |Elements(s)| <= |s|
    ensures |Elements(s)| == |s| ==> Distinct(s)
  {
    if s != [] {
      var n := |s| - 1;
      FewElements(s[..n]);
      ElementsSnoc(s);
      hide Elements;
      if s[n] in Elements(s[..n]) {
        assert Elements(s) == Elements(s[..n]);
      }
    }
  }

  lemma ElementsSnoc(s: seq<nat>)
    requires s != []
    ensures var n := |s| - 1; Elements(s) == Elements(s[..n]) + {s[n]}
    ensures var n := |s| - 1; Distinct(s[..n]) && s[n] !in Elements(s[..n]) ==> Distinct(s)
  {
    var n := |s| - 1;
    assert forall i :: 0 <= i < n ==> s[i] == s[..n][i];
  }

  lemma {:induction false} AscendingElements(s: seq<nat>, n: nat)
    requires AscendBelow(s, n)
    ensures |Elements(s)| == |s|
  {
    if s != [] {
      var k := |s| - 1;
      AscendingElements(s[..k], n);
      ElementsSnoc(s);
    }
  }

  /** A group with no more messages than rows has one message for each row, in the same order. */
  lemma OneMessageEach(g: Group, sets: seq<set<Token>>, messages: seq<Str>, rowOf: seq<nat>, unique: seq<Str>,
      counts: seq<nat>)
    requires Deduped(messages, rowOf, unique, counts) && RowsBelow(rowOf, |sets|) && |sets| == |unique|
    requires GroupUpTo(g, sets, |sets|, rowOf, |rowOf|) && |g.indices| <= |g.rows|
    ensures RowsBelow(g.indices, |rowOf|) && MessageRows(g, rowOf) == g.rows
  {
    SameRows(g, sets, messages, rowOf, unique, counts);
    var rows := MessageRows(g, rowOf);
    AscendingElements(g.rows, |sets|);
    FewElements(rows);
    hide GroupUpTo;
    forall a, b | 0 <= a < b < |rows| ensures rows[a] < rows[b] {
      FirstOfRow(g, messages, rowOf, unique, counts, a);
      FirstOfRow(g, messages, rowOf, unique, counts, b);
      RowsInOrder(messages, rowOf, unique, counts, g.indices[a], g.indices[b]);
    }
    SameAscending(rows, g.rows, |sets|);
  }

  lemma RowTwice(g: Group, rowOf: seq<nat>, b: nat, a: nat)
    requires RowsBelow(g.indices, |rowOf|) && Distinct(MessageRows(g, rowOf))
    requires b < |g.indices| && a < |g.indices| && rowOf[g.indices[b]] == rowOf[g.indices[a]]
    ensures b == a
  {
    var rows := MessageRows(g, rowOf);
    assert rows[a] == rows[b];
  }

  lemma FirstOfRow(g: Group, messages: seq<Str>, rowOf: seq<nat>, unique: seq<Str>, counts: seq<nat>, a: nat)
    requires Deduped(messages, rowOf, unique, counts) && AscendBelow(g.indices, |rowOf|) && a < |g.indices|
    requires RowsBelow(g.indices, |rowOf|) && Distinct(MessageRows(g, rowOf))
    requires forall h: nat :: h < |rowOf| ==> (rowOf[h] in g.rows <==> h in g.indices)
    ensures g.indices[a] < |messages| && messages[g.indices[a]] !in messages[..g.indices[a]]
  {
    var i := g.indices[a];
    if messages[i] in messages[..i] {
      var h: nat :| h < i && messages[h] == messages[i];
      SameRowIffEqual(messages, rowOf, unique, counts, h, i);
      assert i in g.indices;
      var b: nat :| b < |g.indices| && g.indices[b] == h;
      RowTwice(g, rowOf, b, a);
      assert false;
    }
  }

  function LessNumber(): (nat, nat) -> bool {
    (x: nat, y: nat) => x < y
  }

  lemma SameAscending(a: seq<nat>, b: seq<nat>, n: nat)
    requires forall i, j :: 0 <= i < j < |a| ==> a[i] < a[j]
    requires AscendBelow(b, n) && Elements(a) == Elements(b)
    ensures a == b
  {
    AscendingUnique<nat>(a, b, LessNumber());
  }

  /** A sample is taken over the group's messages, duplicates included. */
  lemma SampleIsOfMessages(cfg: Config, messages: seq<Str>, run: Run, g: nat)
    requires ConfigOk(cfg) && PrimaryOk(cfg, messages, run) && g < |run.groups|
    ensures RowsBelow(run.groups[g].indices, |run.rowOf|)
    ensures SourceIDs(run.groups[g], PolicyOf(cfg, run)) == MessageRows(run.groups[g], run.rowOf)
  {
    hide Counts, InternerOk, RowsInterned, Tokenized, AnchorSets;
    RunSizes(cfg, messages, run);
    var grp, sets := run.groups[g], RunSets(cfg, run);
    assert GroupUpTo(grp, sets, |sets|, run.rowOf, |run.rowOf|);
    hide GroupsOk, GroupUpTo;
    SameRows(grp, sets, messages, run.rowOf, run.unique, run.counts);
    if |grp.indices| <= |grp.rows| {
      OneMessageEach(grp, sets, messages, run.rowOf, run.unique, run.counts);
    }
  }

  lemma SampledMessages(g: Group, p: Policy)
    requires 0.0 < p.sample && RowsBelow(g.indices, |p.rowOf|) && SourceIDs(g, p) == MessageRows(g, p.rowOf)
    ensures var ids := PatternIDs(g, p);
      if p.sample >= 1.0 then ids == g.rows
      else if PositionsOf(|g.indices|, p.sample).None? then ids == MessageRows(g, p.rowOf)
      else
        var pos := PositionsOf(|g.indices|, p.sample).value;
        |ids| == |pos| && forall k :: 0 <= k < |pos| ==>
          pos[k] < |g.indices| && g.indices[pos[k]] < |p.rowOf| && ids[k] == p.rowOf[g.indices[pos[k]]]
  {
    hide PositionsOf, SourceIDs, PatternIDs;
    PatternsFromSource(g, p);
  }

  /** The rows that patterns are made from: all rows of the group, or those of its messages at the
      sampled positions, or those of all its messages if the sample takes all. */
  lemma PatternsFromMessages(cfg: Config, messages: seq<Str>, run: Run, g: nat)
    requires ConfigOk(cfg) && PrimaryOk(cfg, messages, run) && g < |run.groups|
    ensures RowsBelow(run.groups[g].indices, |run.rowOf|)
    ensures var indices, ids := run.groups[g].indices, PatternIDs(run.groups[g], PolicyOf(cfg, run));
      if cfg.patternSample >= 1.0 then ids == run.groups[g].rows
      else if PositionsOf(|indices|, cfg.patternSample).None? then ids == MessageRows(run.groups[g], run.rowOf)
      else
        var pos := PositionsOf(|indices|, cfg.patternSample).value;
        |ids| == |pos| && forall k :: 0 <= k < |pos| ==>
          pos[k] < |indices| && indices[pos[k]] < |run.rowOf| && ids[k] == run.rowOf[indices[pos[k]]]
  {
    SampleIsOfMessages(cfg, messages, run, g);
    var p := PolicyOf(cfg, run);
    assert 0.0 < p.sample && p.rowOf == run.rowOf && p.sample == cfg.patternSample;
    hide *;
    SampledMessages(run.groups[g], p);
  }

  /** What a parse of at least one message returns. */
  ghost predicate ParseOk(cfg: Config, messages: seq<Str>, run: Run, clusters: seq<int>, templates: seq<seq<Str>>,
      masks: seq<Str>, wantTemplates: bool, wantMasks: bool)
    requires ConfigOk(cfg)
  {
    && PrimaryOk(cfg, messages, run)
    && ClustersUpTo(clusters, run.groups, RunSets(cfg, run), run.rowOf, |run.groups|)
    && (wantTemplates || wantMasks ==>
          && RichOk(cfg, run) && CanRender(run.groups, run.richRows, PolicyOf(cfg, run), run.numIDs)
          && |run.richRows| == |RunSets(cfg, run)|)
    && (wantTemplates ==>
          TemplatesUpTo(templates, run.groups, run.richRows, PolicyOf(cfg, run), run.numIDs, |run.groups|))
    && (wantMasks ==>
          MasksUpTo(masks, run.groups, RunSets(cfg, run), run.rowOf, run.richRows, PolicyOf(cfg, run), run.numIDs,
            |run.groups|))
    && (!wantTemplates ==> templates == []) && (!wantMasks ==> masks == [])
  }

  /** parse. The program panics on more than MaxInt32 messages. */
  method Parse(cfg: Config, messages: seq<Str>, wantTemplates: bool, wantMasks: bool, ghost vocabulary: set<Str>)
    returns (clusters: seq<int>, templates: seq<seq<Str>>, masks: seq<Str>, ghost run: Run)
    requires ConfigOk(cfg) && |messages| <= MAX_INT32
    requires CoversSlices(cfg, messages, vocabulary) && |vocabulary| <= UINT32
    ensures messages == [] ==> clusters == [] && templates == [] && masks == []
    ensures messages != [] ==> ParseOk(cfg, messages, run, clusters, templates, masks, wantTemplates, wantMasks)
  {
    hide CoversSlices, LexerFor, GroupsOk, ClustersUpTo, TemplatesUpTo, MasksUpTo, CanRender, AnchorSets;
    hide Deduped, InternerOk, Counts, IdsFit, RowTokens;
    if |messages| == 0 {
      return [], [], [], NoRun();
    }
    var t := NewTokenizer(cfg, cfg.symbols);
    var done, tokenized, workers := PrimaryStages(cfg, messages, t, vocabulary);
    RunSizes(cfg, messages, done);
    if wantTemplates || wantMasks {
      done := RichStages(cfg, messages, t, tokenized, done, workers, vocabulary);
      clusters, templates, masks := AssignResults(done.groups, done.rowOf, done.richRows, PolicyOf(cfg, done), done.numIDs,
        wantTemplates, wantMasks, RunSets(cfg, done));
    } else {
      clusters, templates, masks := AssignResults(done.groups, done.rowOf, done.rows, PolicyOf(cfg, done), done.numPrimary,
        false, false, RunSets(cfg, done));
    }
    run := done;
  }

  // ------------------------------------------------------- what results mean

  /** The anchor set of message i. */
  ghost function AnchorsAt(cfg: Config, run: Run, i: nat): set<Token>
    requires RowsOk(run.rows, |run.record.occ|) && RowsBelow(run.rowOf, |RunSets(cfg, run)|) && i < |run.rowOf|
  {
    RunSets(cfg, run)[run.rowOf[i]]
  }

  /** Cluster ids: -1 for messages without anchors; otherwise dense ids, equal exactly for equal keys. */
  lemma ClustersOfMessages(cfg: Config, messages: seq<Str>, run: Run, clusters: seq<int>, templates: seq<seq<Str>>,
      masks: seq<Str>, wantTemplates: bool, wantMasks: bool)
    requires ConfigOk(cfg) && ParseOk(cfg, messages, run, clusters, templates, masks, wantTemplates, wantMasks)
    ensures |clusters| == |messages|
    ensures ClassesByKey(clusters, NextID(run.groups, |run.groups|), RunSets(cfg, run), run.rowOf)
    ensures wantTemplates ==> |templates| == NextID(run.groups, |run.groups|)
  {
    hide GroupsOk, ClustersUpTo, CanRender, MasksUpTo, Tokenized;
    RunSizes(cfg, messages, run);
    forall r: nat | r < |RunSets(cfg, run)| ensures r in run.rowOf {
      var i := MessageOfRow(messages, run.rowOf, run.unique, run.counts, r);
    }
    ClustersAreKeyClasses(clusters, run.groups, RunSets(cfg, run), run.rowOf);
  }

  /** Any two messages share a cluster iff their anchors spell the same tokens, and at least one. */
  lemma SameClusterIffSameSpelling(cfg: Config, messages: seq<Str>, run: Run, clusters: seq<int>,
      templates: seq<seq<Str>>, masks: seq<Str>, wantTemplates: bool, wantMasks: bool, i: nat, j: nat)
    requires ConfigOk(cfg) && ParseOk(cfg, messages, run, clusters, templates, masks, wantTemplates, wantMasks)
    requires i < |messages| && j < |messages| && |run.rowOf| == |messages|
    ensures |clusters| == |messages|
    ensures clusters[i] == clusters[j] >= 0
       <==> SpellingOf(AnchorsAt(cfg, run, i)) == SpellingOf(AnchorsAt(cfg, run, j)) != []
  {
    ClustersOfMessages(cfg, messages, run, clusters, templates, masks, wantTemplates, wantMasks);
    ClustersAreSpellingClasses(clusters, NextID(run.groups, |run.groups|), RunSets(cfg, run), run.rowOf, i, j);
  }

  /** Two messages without entry markers in their anchors share a cluster iff their anchor
      sets are equal and not empty. */
  lemma SameClusterIffSameAnchors(cfg: Config, messages: seq<Str>, run: Run, clusters: seq<int>,
      templates: seq<seq<Str>>, masks: seq<Str>, wantTemplates: bool, wantMasks: bool, i: nat, j: nat)
    requires ConfigOk(cfg) && ParseOk(cfg, messages, run, clusters, templates, masks, wantTemplates, wantMasks)
    requires i < |messages| && j < |messages|
    requires |run.rowOf| == |messages|
    requires MarkersFree(AnchorsAt(cfg, run, i)) && MarkersFree(AnchorsAt(cfg, run, j))
    ensures |clusters| == |messages|
    ensures clusters[i] == clusters[j] >= 0 <==> AnchorsAt(cfg, run, i) == AnchorsAt(cfg, run, j) != {}
  {
    ClustersOfMessages(cfg, messages, run, clusters, templates, masks, wantTemplates, wantMasks);
    ClustersAreAnchorClasses(clusters, NextID(run.groups, |run.groups|), RunSets(cfg, run), run.rowOf, i, j);
  }

  /** The row is the message's rich tokens, and the mask renders its cut at the common set. */
  ghost predicate RenderedFrom(cfg: Config, msg: Str, row: Row, common: set<nat>, mask: Str)
    requires ConfigOk(cfg)
  {
    |row.toks| == |row.ids| && row.toks == RichTokens(cfg, msg) && mask == RowMask(row, common)
  }

  lemma TemplateOfRow(g: Group, run: Run, cfg: Config, out: seq<Str>, r: nat)
    requires RowsOk(run.richRows, run.numIDs) && CanPick(g, run.richRows, PolicyOf(cfg, run))
    requires TemplatesOfGroup(out, g, run.richRows, PolicyOf(cfg, run), run.numIDs)
    requires r in PatternIDs(g, PolicyOf(cfg, run))
    ensures r < |run.richRows| && |run.richRows[r].toks| == |run.richRows[r].ids|
    ensures RowTemplate(run.richRows[r], CommonOf(g, run.richRows, PolicyOf(cfg, run), run.numIDs)) in out
  {
    hide CommonIds, RowTemplate, PatternIDs;
    var ids := PatternIDs(g, PolicyOf(cfg, run));
    var rows := PatternRows(g, run.richRows, PolicyOf(cfg, run));
    var common := CommonOf(g, run.richRows, PolicyOf(cfg, run), run.numIDs);
    PatternsOk(g, run.richRows, PolicyOf(cfg, run), run.numIDs);
    PickedIDs(g, run.richRows, PolicyOf(cfg, run));
    var k :| 0 <= k < |ids| && ids[k] == r;
    assert rows[k] == run.richRows[r];
    assert RowTemplate(rows[k], common) in TemplateSet(rows, common, |rows|);
    assert RowTemplate(rows[k], common) in Elements(out);
  }

  /** A clustered message's mask renders its own tokens, cut at the common set from which its
      cluster's templates are made; when all rows are used, its own template is among them. A
      message without a cluster has no mask. */
  lemma MaskOfMessage(cfg: Config, messages: seq<Str>, run: Run, clusters: seq<int>, templates: seq<seq<Str>>,
      masks: seq<Str>, i: nat)
    returns (g: nat, row: Row, common: set<nat>)
    requires ConfigOk(cfg) && ParseOk(cfg, messages, run, clusters, templates, masks, true, true)
    requires i < |messages|
    ensures |clusters| == |messages| == |masks|
    ensures clusters[i] == -1 ==> masks[i] == []
    ensures clusters[i] != -1 ==> 0 <= clusters[i] < |templates| && RenderedFrom(cfg, messages[i], row, common, masks[i])
    ensures clusters[i] != -1 && cfg.patternSample >= 1.0 ==>
      |row.toks| == |row.ids| && RowTemplate(row, common) in templates[clusters[i]]
    ensures g < |run.groups| && CanRender(run.groups, run.richRows, PolicyOf(cfg, run), run.numIDs)
    ensures common == CommonOf(run.groups[g], run.richRows, PolicyOf(cfg, run), run.numIDs)
    ensures |run.rowOf| == |messages| && run.rowOf[i] < |run.richRows| && row == run.richRows[run.rowOf[i]]
    ensures RowsBelow(run.rowOf, |RunSets(cfg, run)|) && InGroup(run.groups, RunSets(cfg, run), run.rowOf, i, g)
    ensures clusters[i] != -1 ==> run.groups[g].anchors != [] && clusters[i] == NextID(run.groups, g)
  {
    hide KeyOfSet, GroupUpTo, CommonOf, RowMask, RowTemplate, Deduped, InternerOk, IdsFit, Counts, RowTokens, GroupsOk;
    hide ClustersUpTo, MasksUpTo, TemplatesUpTo;
    ClustersOfMessages(cfg, messages, run, clusters, templates, masks, true, true);
    RunSizes(cfg, messages, run);
    g := GroupOfMessage(run.groups, RunSets(cfg, run), run.rowOf, i);
    var r := run.rowOf[i];
    row, common := run.richRows[r], CommonOf(run.groups[g], run.richRows, PolicyOf(cfg, run), run.numIDs);
    assert RowOk(row, run.numIDs);
    if run.groups[g].anchors == [] {
      NoMaskWithoutAnchors(cfg, run, masks, i, g);
    } else {
      MaskInGroup(cfg, run, clusters, templates, masks, i, g);
      assert TokensOfRows(run.richRows)[r] == row.toks;
      RowOfMessage(messages, run, i);
    }
  }

  lemma RowOfMessage(messages: seq<Str>, run: Run, i: nat)
    requires Deduped(messages, run.rowOf, run.unique, run.counts) && i < |messages|
    ensures run.rowOf[i] < |run.unique| && run.unique[run.rowOf[i]] == messages[i]
  {
  }

  /** The mask and the templates found for message i of group g. */
  lemma MaskInGroup(cfg: Config, run: Run, clusters: seq<int>, templates: seq<seq<Str>>, masks: seq<Str>, i: nat, g: nat)
    requires ConfigOk(cfg)
    requires RowsOk(run.rows, |run.record.occ|) && RowsBelow(run.rowOf, |RunSets(cfg, run)|)
    requires CanRender(run.groups, run.richRows, PolicyOf(cfg, run), run.numIDs) && |run.richRows| == |RunSets(cfg, run)|
    requires GroupsOk(run.groups, RunSets(cfg, run), run.rowOf)
    requires ClustersUpTo(clusters, run.groups, RunSets(cfg, run), run.rowOf, |run.groups|)
    requires TemplatesUpTo(templates, run.groups, run.richRows, PolicyOf(cfg, run), run.numIDs, |run.groups|)
    requires MasksUpTo(masks, run.groups, RunSets(cfg, run), run.rowOf, run.richRows, PolicyOf(cfg, run), run.numIDs,
      |run.groups|)
    requires i < |run.rowOf| && g < |run.groups| && run.groups[g].anchors != []
    requires InGroup(run.groups, RunSets(cfg, run), run.rowOf, i, g)
    ensures |clusters| == |masks| == |run.rowOf| && 0 <= clusters[i] < |templates|
    ensures clusters[i] == NextID(run.groups, g)
    ensures var row := run.richRows[run.rowOf[i]];
      var common := CommonOf(run.groups[g], run.richRows, PolicyOf(cfg, run), run.numIDs);
      && |row.toks| == |row.ids| && masks[i] == RowMask(row, common)
      && (cfg.patternSample >= 1.0 ==> RowTemplate(row, common) in templates[clusters[i]])
  {
    hide KeyOfSet, GroupUpTo, CommonOf, RowMask, RowTemplate, TemplatesOfGroup;
    var r := run.rowOf[i];
    assert RowOk(run.richRows[r], run.numIDs);
    assert clusters[i] == NextID(run.groups, g);
    assert TemplatesAt(templates, run.groups, run.richRows, PolicyOf(cfg, run), run.numIDs, g);
    RowsWithExact(RunSets(cfg, run), |RunSets(cfg, run)|, run.groups[g].key, r);
    RowInGroup(run.groups[g], RunSets(cfg, run), run.rowOf);
    if cfg.patternSample >= 1.0 {
      TemplateOfRow(run.groups[g], run, cfg, templates[clusters[i]], r);
    }
  }

  lemma RowInGroup(g: Group, sets: seq<set<Token>>, rowOf: seq<nat>)
    requires RowsBelow(rowOf, |sets|) && GroupUpTo(g, sets, |sets|, rowOf, |rowOf|)
    ensures g.rows == RowsWith(sets, |sets|, g.key)
  {
  }

  lemma NoMaskWithoutAnchors(cfg: Config, run: Run, masks: seq<Str>, i: nat, g: nat)
    requires RowsOk(run.rows, |run.record.occ|) && RowsBelow(run.rowOf, |RunSets(cfg, run)|)
    requires CanRender(run.groups, run.richRows, PolicyOf(cfg, run), run.numIDs) && |run.richRows| == |RunSets(cfg, run)|
    requires GroupsOk(run.groups, RunSets(cfg, run), run.rowOf)
    requires MasksUpTo(masks, run.groups, RunSets(cfg, run), run.rowOf, run.richRows, PolicyOf(cfg, run), run.numIDs,
      |run.groups|)
    requires i < |run.rowOf| && g < |run.groups| && run.groups[g].anchors == []
    requires InGroup(run.groups, RunSets(cfg, run), run.rowOf, i, g)
    ensures |masks| == |run.rowOf| && masks[i] == []
  {
    hide KeyOfSet, GroupsOk, MaskIn;
    forall h: nat | h < |run.groups| && run.groups[h].anchors != []
      ensures !InGroup(run.groups, RunSets(cfg, run), run.rowOf, i, h)
    {
      KeysDiffer(run.groups, RunSets(cfg, run), run.rowOf, g, h);
    }
  }

  /** Equal messages have equal masks. */
  lemma EqualMessagesEqualMasks(cfg: Config, messages: seq<Str>, run: Run, clusters: seq<int>, templates: seq<seq<Str>>,
      masks: seq<Str>, i: nat, j: nat)
    requires ConfigOk(cfg) && ParseOk(cfg, messages, run, clusters, templates, masks, true, true)
    requires i < |messages| && j < |messages| && messages[i] == messages[j]
    ensures |masks| == |messages| && masks[i] == masks[j]
  {
    hide KeyOfSet, GroupUpTo, MaskIn, InternerOk, IdsFit, Counts, RowTokens, GroupsOk, Tokenized, RowsInterned;
    RunSizes(cfg, messages, run);
    SameRowIffEqual(messages, run.rowOf, run.unique, run.counts, i, j);
    hide Deduped;
    var g := GroupOfMessage(run.groups, RunSets(cfg, run), run.rowOf, i);
    assert InGroup(run.groups, RunSets(cfg, run), run.rowOf, j, g);
    if run.groups[g].anchors == [] {
      NoMaskWithoutAnchors(cfg, run, masks, i, g);
      NoMaskWithoutAnchors(cfg, run, masks, j, g);
    }
  }

  /** The anchors of a message are tokens of it: every white special token, no black one, and
      otherwise only members of the largest component of its dependency graph. */
  lemma AnchorsOfMessage(cfg: Config, messages: seq<Str>, run: Run, i: nat)
    requires ConfigOk(cfg) && PrimaryOk(cfg, messages, run) && i < |messages|
    ensures |run.rowOf| == |messages| && run.rowOf[i] < |run.rows| && RowOk(run.rows[run.rowOf[i]], |run.record.occ|)
    ensures var toks, anchors := RowTokens(cfg, cfg.symbols, messages[i]), AnchorsAt(cfg, run, i);
      && OfKind(toks, SpecialWhite) <= anchors
      && (forall tok :: tok in anchors ==> tok in toks && tok.kind != SpecialBlack)
      && (forall tok :: tok in anchors && tok.kind != SpecialWhite ==>
            tok in Core(run.rows[run.rowOf[i]], run.record, cfg.threshold))
  {
    hide RowTokens, AnchorSpec, Core, GroupsOk, Counts, InternerOk, IdsFit;
    RunSizes(cfg, messages, run);
    RowOfMessage(messages, run, i);
    hide Deduped;
    var r := run.rowOf[i];
    assert RowOk(run.rows[r], run.numPrimary);
    assert TokensOfRows(run.rows)[r] == run.rows[r].toks;
    AnchorsOfCountedRow(run.record, run.rows, run.counts, cfg.filter, run.numPrimary, r, cfg.threshold);
  }

  /** A message with a white special token is always clustered. */
  lemma SpecialWhiteIsClustered(cfg: Config, messages: seq<Str>, run: Run, clusters: seq<int>,
      templates: seq<seq<Str>>, masks: seq<Str>, wantTemplates: bool, wantMasks: bool, i: nat)
    requires ConfigOk(cfg) && ParseOk(cfg, messages, run, clusters, templates, masks, wantTemplates, wantMasks)
    requires i < |messages| && OfKind(RowTokens(cfg, cfg.symbols, messages[i]), SpecialWhite) != {}
    ensures |clusters| == |messages| && clusters[i] >= 0
  {
    hide RowTokens, Core;
    ClustersOfMessages(cfg, messages, run, clusters, templates, masks, wantTemplates, wantMasks);
    AnchorsOfMessage(cfg, messages, run, i);
    var tok :| tok in OfKind(RowTokens(cfg, cfg.symbols, messages[i]), SpecialWhite);
    assert tok in AnchorsAt(cfg, run, i);
  }

  /** Anchors of a message without NUL bytes have no entry markers. */
  lemma NulFreeAnchors(cfg: Config, messages: seq<Str>, run: Run, i: nat)
    requires ConfigOk(cfg) && PrimaryOk(cfg, messages, run) && i < |messages| && NUL !in messages[i]
    ensures |run.rowOf| == |messages| && MarkersFree(AnchorsAt(cfg, run, i))
  {
    hide Core;
    AnchorsOfMessage(cfg, messages, run, i);
    forall tok | tok in AnchorsAt(cfg, run, i) ensures MarkerFree(tok.slice) {
      TokensAreMessageText(AbstractLexer(cfg, cfg.symbols), messages[i], tok);
      NulFree(tok.slice);
    }
  }

  /** Two messages without NUL bytes share a cluster iff their anchor sets are equal and
      not empty. */
  lemma NulFreeClusters(cfg: Config, messages: seq<Str>, run: Run, clusters: seq<int>,
      templates: seq<seq<Str>>, masks: seq<Str>, wantTemplates: bool, wantMasks: bool, i: nat, j: nat)
    requires ConfigOk(cfg) && ParseOk(cfg, messages, run, clusters, templates, masks, wantTemplates, wantMasks)
    requires i < |messages| && j < |messages| && NUL !in messages[i] && NUL !in messages[j]
    ensures |clusters| == |messages| == |run.rowOf|
    ensures clusters[i] == clusters[j] >= 0 <==> AnchorsAt(cfg, run, i) == AnchorsAt(cfg, run, j) != {}
  {
    NulFreeAnchors(cfg, messages, run, i);
    NulFreeAnchors(cfg, messages, run, j);
    SameClusterIffSameAnchors(cfg, messages, run, clusters, templates, masks, wantTemplates, wantMasks, i, j);
  }

  /** Clusters of messages without NUL bytes are numbered in the lexicographic order of their anchors. */
  lemma ClusterOrder(cfg: Config, messages: seq<Str>, run: Run, clusters: seq<int>,
      templates: seq<seq<Str>>, masks: seq<Str>, wantTemplates: bool, wantMasks: bool, i: nat, j: nat)
    requires ConfigOk(cfg) && ParseOk(cfg, messages, run, clusters, templates, masks, wantTemplates, wantMasks)
    requires i < |messages| && j < |messages| && NUL !in messages[i] && NUL !in messages[j]
    ensures |clusters| == |messages| == |run.rowOf|
    ensures clusters[i] >= 0 && clusters[j] >= 0 ==>
      (clusters[i] < clusters[j] <==>
         ListLess(OrderedOf(AnchorsAt(cfg, run, i)), OrderedOf(AnchorsAt(cfg, run, j))))
  {
    ClustersOfMessages(cfg, messages, run, clusters, templates, masks, wantTemplates, wantMasks);
    NulFreeOrdered(cfg, messages, run, i);
    NulFreeOrdered(cfg, messages, run, j);
    hide ListLess, OrderedOf, NulFreeTokens, GroupsOk, ClustersUpTo, Less;
    if clusters[i] >= 0 && clusters[j] >= 0 {
      IDsAscend(clusters, run.groups, RunSets(cfg, run), run.rowOf, i, j);
      KeyOrder(OrderedOf(AnchorsAt(cfg, run, i)), OrderedOf(AnchorsAt(cfg, run, j)));
    }
  }

  lemma NulFreeOrdered(cfg: Config, messages: seq<Str>, run: Run, i: nat)
    requires ConfigOk(cfg) && PrimaryOk(cfg, messages, run) && i < |messages| && NUL !in messages[i]
    ensures |run.rowOf| == |messages| && NulFreeTokens(OrderedOf(AnchorsAt(cfg, run, i)))
  {
    hide Core, AnchorSpec;
    AnchorsOfMessage(cfg, messages, run, i);
    CanonicalOrder(AnchorsAt(cfg, run, i));
    var ordered := OrderedOf(AnchorsAt(cfg, run, i));
    forall k | 0 <= k < |ordered| ensures NUL !in ordered[k].slice {
      assert ordered[k] in Elements(ordered);
      TokensAreMessageText(AbstractLexer(cfg, cfg.symbols), messages[i], ordered[k]);
    }
  }
}
