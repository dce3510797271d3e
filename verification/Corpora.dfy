/** Small corpora, parsed and trained to the end: where the codec returns another message, where
    training fails, and where two messages share a cluster without sharing anchors. */
module Corpora {
  import opened Bytes
  import opened Unicode
  import opened Placeholder
  import opened GreedyMatch
  import opened Pieces
  import opened Tokens
  import opened TokenRecord
  import opened Splitting
  import opened Tokenizer
  import opened AnchorKey
  import opened Grouping
  import opened Sampling
  import opened Clusters
  import opened Template
  import opened Decoding
  import opened Training
  import opened CorpusCodec
  import opened PlainCodec
  import opened Sorting
  import opened Outcomes
  import Anchors
  import Dedup
  import Parser
  import Interner
  import Matcher
  import MatcherSpec

  // ------------------------------------------------------ tokens of ASCII text

  predicate AsciiBoundary(lex: Lex, c: int) {
    AsciiSpace(c) || c in lex.symbols
  }

  /** tok is what the split makes of its own text. */
  ghost predicate SelfSplit(lex: Lex, tok: Token) {
    IsAscii(tok.slice) &&
    ((|tok.slice| == 1 && AsciiBoundary(lex, tok.slice[0] as int)
        && tok.kind == if AsciiSpace(tok.slice[0] as int) then Whitespace else Symbolic)
     || (tok.slice != [] && (forall c :: c in tok.slice ==> !AsciiBoundary(lex, c as int))
           && tok.kind == if LetterBytes(tok.slice) then Alphabetic else if DigitBytes(tok.slice) then Numeric else Impure))
  }

  ghost predicate SelfSplits(lex: Lex, toks: seq<Token>) {
    && (forall j :: 0 <= j < |toks| ==> SelfSplit(lex, toks[j]))
    && (forall h, i :: 0 <= h < i < |toks| && i == h + 1 ==>
          !(IsSegmentKind(toks[h].kind) && IsSegmentKind(toks[i].kind)))
  }

  function PartsOf(toks: seq<Token>): seq<seq<Rune>> {
    seq(|toks|, j requires 0 <= j < |toks| => Runes(toks[j].slice))
  }

  lemma {:induction false} RunesOfAscii(a: Str, b: Str)
    requires IsAscii(a)
    ensures Runes(a + b) == Runes(a) + Runes(b)
    decreases |a|
  {
    if a == [] {
      assert a + b == b;
    } else {
      AsciiRune(a);
      AsciiRune(a + b);
      assert (a + b)[1..] == a[1..] + b && (a + b)[..1] == a[..1];
      RunesOfAscii(a[1..], b);
    }
  }

  lemma {:induction false} JoinedParts(toks: seq<Token>)
    requires forall j :: 0 <= j < |toks| ==> IsAscii(toks[j].slice)
    ensures Joined(PartsOf(toks)) == Runes(TextOf(toks))
  {
    hide IsAscii;
    if toks != [] {
      JoinedParts(toks[1..]);
      RunesOfAscii(toks[0].slice, TextOf(toks[1..]));
      assert PartsOf(toks)[1..] == PartsOf(toks[1..]);
    }
  }

  lemma SelfSplitFits(lex: Lex, tok: Token)
    requires SelfSplit(lex, tok)
    ensures TokenFits(lex, tok, Runes(tok.slice))
  {
    AsciiRunes(tok.slice);
    FlatRunes(tok.slice);
    hide Runes, LetterBytes, DigitBytes;
    if |tok.slice| == 1 && AsciiBoundary(lex, tok.slice[0] as int) {
      assert tok.slice[0] in tok.slice;
      assert Runes(tok.slice)[0] == Rune(tok.slice[0] as int, tok.slice);
    } else {
      SegmentFits(lex, tok, Runes(tok.slice));
    }
  }

  lemma SegmentFits(lex: Lex, tok: Token, rs: seq<Rune>)
    requires IsAscii(tok.slice) && tok.slice != [] && forall c :: c in tok.slice ==> !AsciiBoundary(lex, c as int)
    requires tok.kind == if LetterBytes(tok.slice) then Alphabetic else if DigitBytes(tok.slice) then Numeric else Impure
    requires |rs| == |tok.slice| && Flat(rs) == tok.slice
    requires forall i :: 0 <= i < |rs| ==> rs[i] == Rune(tok.slice[i] as int, tok.slice[i..i + 1])
    ensures TokenFits(lex, tok, rs)
  {
    AllLettersAscii(lex, rs, tok.slice);
    hide LetterBytes, DigitBytes, AllLetters, AllDigits, Flat;
    forall i | 0 <= i < |rs| ensures !IsBoundary(lex, rs[i]) {
      assert tok.slice[i] in tok.slice && tok.slice[i] as int < 128 by { hide AsciiBoundary; }
    }
  }

  /** The text of a legal list of ASCII tokens splits back into the list. */
  lemma SplitBack(lex: Lex, toks: seq<Token>)
    requires SelfSplits(lex, toks)
    ensures SplitOf(lex, TextOf(toks)) == toks
  {
    hide SelfSplit, TokenFits, Runes, SplitRunes, TextOf;
    forall j | 0 <= j < |toks| ensures TokenFits(lex, toks[j], PartsOf(toks)[j]) && IsAscii(toks[j].slice) {
      SelfSplitFits(lex, toks[j]);
      SelfSplitAscii(lex, toks[j]);
    }
    JoinedParts(toks);
    SplitIsUnique(lex, toks, PartsOf(toks));
  }

  lemma SelfSplitAscii(lex: Lex, tok: Token)
    requires SelfSplit(lex, tok)
    ensures IsAscii(tok.slice)
  {
  }

  // ------------------------------------------------------- clusters and masks

  ghost predicate KeepsOnly(toks: seq<Token>, f: StaticFilter, slice: Str) {
    forall tok :: tok in toks && Keeps(f, tok) ==> tok.slice == slice
  }

  /** All kept tokens have this slice. */
  ghost predicate OnlyKeeps(all: seq<seq<Token>>, f: StaticFilter, slice: Str) {
    forall h :: 0 <= h < |all| ==> KeepsOnly(all[h], f, slice)
  }

  lemma OnlySlice(all: seq<seq<Token>>, f: StaticFilter, slice: Str, x: Str)
    requires OnlyKeeps(all, f, slice) && Kept(all, f, x)
    ensures x == slice
  {
    var h :| 0 <= h < |all| && KeptIn(all[h], f, x);
    var j :| 0 <= j < |all[h]| && all[h][j].slice == x && Keeps(f, all[h][j]);
    assert all[h][j] in all[h];
  }

  lemma OnlyIsInseparable(all: seq<seq<Token>>, f: StaticFilter, slice: Str, toks: seq<Token>)
    requires OnlyKeeps(all, f, slice)
    ensures Inseparable(all, f, toks)
  {
    hide OnlyKeeps, Kept, KeptIn;
    forall x: Str | Kept(all, f, x) ensures x == slice {
      OnlySlice(all, f, slice, x);
    }
  }

  lemma OnlyKeptTokens(all: seq<seq<Token>>, f: StaticFilter, slice: Str, i: nat)
    requires OnlyKeeps(all, f, slice) && i < |all|
    ensures (exists tok :: tok in all[i] && tok.slice == slice && Keeps(f, tok)) ==> KeptTokens(all, f, all[i]) != {}
    ensures (forall tok :: tok in all[i] ==> tok.slice != slice) ==> KeptTokens(all, f, all[i]) == {}
  {
    hide Keeps, OnlyKeeps;
    if tok :| tok in all[i] && tok.slice == slice && Keeps(f, tok) {
      var j :| 0 <= j < |all[i]| && all[i][j] == tok;
      assert KeptIn(all[i], f, slice);
      assert tok in KeptTokens(all, f, all[i]);
    }
    hide Kept;
    forall tok | tok in KeptTokens(all, f, all[i]) ensures tok in all[i] && tok.slice == slice {
      OnlySlice(all, f, slice, tok.slice);
    }
  }

  /** Without special patterns slices tell kinds, and there are no special tokens. */
  lemma PlainRow(cfg: Parser.Config, messages: seq<Str>, i: nat)
    requires Parser.ConfigOk(cfg) && Plain(cfg) && i < |messages|
    ensures Unambiguous(TokenLists(cfg, messages)[i])
    ensures Anchors.OfKind(TokenLists(cfg, messages)[i], SpecialBlack) == {}
  {
    hide SplitOf, TokenOfSlice;
    var lex := Lex(cfg.tables, cfg.symbols);
    PlainTokens(cfg, cfg.symbols, messages[i]);
    forall tok | tok in SplitOf(lex, messages[i])
      ensures tok == TokenOfSlice(lex, tok.slice) && tok.kind != SpecialBlack
    {
      SplitTellsKind(lex, messages[i], tok);
      SplitIsPlain(lex, messages[i], tok);
    }
  }

  /** If all kept tokens of the corpus have the same slice, the messages that have it are clustered. */
  lemma OneKeptSlice(cfg: Parser.Config, t: Corpus, run: Parser.Run, clusters: seq<int>, sets: seq<seq<Str>>,
      i: nat, slice: Str)
    requires Parser.ConfigOk(cfg) && ParsedCorpus(cfg, t, run, clusters, sets) && i < |t.messages| && cfg.threshold < 1.0
    requires Plain(cfg) && OnlyKeeps(TokenLists(cfg, t.messages), cfg.filter, slice)
    ensures |clusters| == |t.messages|
    ensures (exists tok :: tok in TokenLists(cfg, t.messages)[i] && tok.slice == slice && Keeps(cfg.filter, tok)) ==>
      clusters[i] != -1
    ensures (forall tok :: tok in TokenLists(cfg, t.messages)[i] ==> tok.slice != slice) ==> clusters[i] == -1
  {
    var all := TokenLists(cfg, t.messages);
    OnlyIsInseparable(all, cfg.filter, slice, all[i]);
    OnlyKeptTokens(all, cfg.filter, slice, i);
    PlainRow(cfg, t.messages, i);
    hide Unambiguous, Anchors.OfKind, Plain, Keeps, Parser.RowTokens, AnchorSets, GroupsOk, Inseparable, OnlyKeeps;
    hide KeptTokens;
    InseparableAnchors(cfg, t.messages, run, i);
    AnchorlessUnclustered(cfg, t, run, clusters, sets, i);
  }

  lemma AnchorlessUnclustered(cfg: Parser.Config, t: Corpus, run: Parser.Run, clusters: seq<int>,
      sets: seq<seq<Str>>, i: nat)
    requires Parser.ConfigOk(cfg) && ParsedCorpus(cfg, t, run, clusters, sets) && i < |t.messages|
    ensures |clusters| == |t.messages| == |run.rowOf|
    ensures clusters[i] == -1 <==> Parser.AnchorsAt(cfg, run, i) == {}
  {
    hide AnchorSets, GroupsOk, KeyOfSet, CorpusOk;
    Parser.ClustersOfMessages(cfg, t.messages, run, clusters, sets, t.masks, true, true);
  }

  /** A cut with one parameter. */
  lemma {:induction false} CutAround(a: seq<Str>, p: Str, b: seq<Str>)
    ensures CutOf(a + [p] + b, Repeat(true, |a|) + [false] + Repeat(true, |b|)) == Cut([Concat(a), Concat(b)], [p])
    decreases |b|
  {
    if b == [] {
      AllLiteral(a);
      assert Concat(b) == [];
      hide CutOf, Concat;
      assert a + [p] + b == a + [p] && Repeat(true, |a|) + [false] + Repeat(true, |b|) == Repeat(true, |a|) + [false];
      CutSnoc(a, Repeat(true, |a|), p, false);
    } else {
      hide CutOf, Concat;
      var n := |b| - 1;
      CutAround(a, p, b[..n]);
      ConcatSnoc(b);
      assert a + [p] + b == a + [p] + b[..n] + [b[n]];
      assert Repeat(true, |a|) + [false] + Repeat(true, |b|) == Repeat(true, |a|) + [false] + Repeat(true, n) + [true];
      OneMoreLiteral(a + [p] + b[..n], Repeat(true, |a|) + [false] + Repeat(true, n), b[n], Concat(a), Concat(b[..n]), p);
    }
  }

  lemma OneMoreLiteral(chunks: seq<Str>, flags: seq<bool>, s: Str, x: Str, y: Str, p: Str)
    requires |chunks| == |flags| && CutOf(chunks, flags) == Cut([x, y], [p])
    ensures CutOf(chunks + [s], flags + [true]) == Cut([x, y + s], [p])
  {
    CutSnoc(chunks, flags, s, true);
    hide CutOf;
  }

  lemma {:induction false} AllLiteral(a: seq<Str>)
    ensures CutOf(a, Repeat(true, |a|)) == Cut([Concat(a)], [])
  {
    if a != [] {
      var n := |a| - 1;
      AllLiteral(a[..n]);
      ConcatSnoc(a);
      assert a == a[..n] + [a[n]] && Repeat(true, |a|) == Repeat(true, n) + [true];
      CutSnoc(a[..n], Repeat(true, n), a[n], true);
    }
  }

  /** All tokens but the one at k are candidates of the pattern. */
  ghost predicate LoneParameter(toks: seq<Token>, pattern: seq<Token>, f: StaticFilter, k: nat) {
    k < |toks| && forall j :: 0 <= j < |toks| ==> (CandidateIn(pattern, f, toks[j].slice) <==> j != k)
  }

  lemma CutAtParameter(toks: seq<Token>, pattern: seq<Token>, f: StaticFilter, k: nat)
    requires LoneParameter(toks, pattern, f, k)
    ensures CutBy(toks, pattern, f) == Cut([TextOf(toks[..k]), TextOf(toks[k + 1..])], [toks[k].slice])
  {
    var a, b := SlicesOf(toks[..k]), SlicesOf(toks[k + 1..]);
    assert SlicesOf(toks) == a + [toks[k].slice] + b;
    assert LiteralFlags(toks, pattern, f) == Repeat(true, |a|) + [false] + Repeat(true, |b|);
    CutAround(a, toks[k].slice, b);
    SliceText(toks[..k]);
    SliceText(toks[k + 1..]);
  }

  lemma IsCandidate(pattern: seq<Token>, f: StaticFilter, k: nat, slice: Str)
    requires k < |pattern| && CommonCandidate(pattern[k], f) && pattern[k].slice == slice
    ensures CandidateIn(pattern, f, slice)
  {
  }

  lemma SliceText(toks: seq<Token>)
    ensures Concat(SlicesOf(toks)) == TextOf(toks)
  {
    TextIsConcat(toks, []);
    assert SlicesOf(toks) == Slices(Row(toks, []));
  }

  /** The mask and rendering of a clustered message whose cluster has one pattern row, that of
      message p, and the cluster's template. */
  ghost predicate RenderedLike(cfg: Parser.Config, t: Corpus, clusters: seq<int>, sets: seq<seq<Str>>, i: nat, p: nat)
    requires Parser.ConfigOk(cfg) && i < |t.messages| == |clusters| == |t.masks| && p < |t.messages|
  {
    var cut := CutBy(Parser.RichTokens(cfg, t.messages[i]), Parser.RichTokens(cfg, t.messages[p]), cfg.filter);
    var own := CutBy(Parser.RichTokens(cfg, t.messages[p]), Parser.RichTokens(cfg, t.messages[p]), cfg.filter);
    && |t.masks[i]| == |t.messages[i]| && MaskCut(t.messages[i], t.masks[i]) == cut
    && StoredAt(t, i) == Rendering(Join(cut.parts), cut.args)
    && 0 <= clusters[i] < |sets| && sets[clusters[i]] == [Join(own.parts)]
  }

  /** Group g, of message i, has one pattern row, that of message p. */
  ghost predicate OnePatternRow(cfg: Parser.Config, t: Corpus, run: Parser.Run, i: nat, p: nat, g: nat) {
    && RowsBelow(run.rowOf, |run.richRows|) && i < |run.rowOf| && p < |run.rowOf| && g < |run.groups|
    && RowsOk(run.richRows, run.numIDs) && CanPick(run.groups[g], run.richRows, Parser.PolicyOf(cfg, run))
    && PatternIDs(run.groups[g], Parser.PolicyOf(cfg, run)) == [run.rowOf[p]]
  }

  lemma TemplatesAtGroup(cfg: Parser.Config, t: Corpus, run: Parser.Run, clusters: seq<int>, sets: seq<seq<Str>>, g: nat)
    requires Parser.ConfigOk(cfg) && ParsedCorpus(cfg, t, run, clusters, sets)
    requires g < |run.groups| && run.groups[g].anchors != []
    ensures CanRender(run.groups, run.richRows, Parser.PolicyOf(cfg, run), run.numIDs)
    ensures NextID(run.groups, g) < |sets|
    ensures TemplatesOfGroup(sets[NextID(run.groups, g)], run.groups[g], run.richRows, Parser.PolicyOf(cfg, run), run.numIDs)
  {
    hide TemplatesOfGroup, CanRender, CorpusOk, Matcher.TableOf, MasksUpTo, ClustersUpTo;
    assert TemplatesAt(sets, run.groups, run.richRows, Parser.PolicyOf(cfg, run), run.numIDs, g);
  }

  lemma LikePattern(cfg: Parser.Config, t: Corpus, run: Parser.Run, clusters: seq<int>, sets: seq<seq<Str>>,
      i: nat, p: nat, g: nat, row: Row, common: set<nat>)
    requires Parser.ConfigOk(cfg) && ParsedCorpus(cfg, t, run, clusters, sets)
    requires i < |t.messages| == |clusters| == |t.masks| && p < |t.messages| && clusters[i] != -1
    requires TextOf(Parser.RichTokens(cfg, t.messages[i])) == t.messages[i]
    requires OnePatternRow(cfg, t, run, i, p, g) && run.groups[g].anchors != [] && clusters[i] == NextID(run.groups, g)
    requires Parser.RenderedFrom(cfg, t.messages[i], row, common, t.masks[i])
    requires common == CommonOf(run.groups[g], run.richRows, Parser.PolicyOf(cfg, run), run.numIDs)
    requires row == run.richRows[run.rowOf[i]]
    ensures RenderedLike(cfg, t, clusters, sets, i, p)
  {
    hide Parser.ParseOk, CorpusOk, Matcher.TableOf, Parser.RowTokens, MaskCut, RowMask, RowCut, CutBy, Candidates, Join;
    hide PatternIDs, TemplatesOfGroup, CanRender, CanPick, Parser.PrimaryOk, Parser.RichOk, Parser.RenderedFrom, RowsOk;
    hide Told, TextOf;
    var rows, q := run.richRows, run.rowOf[p];
    FullMask(cfg, t.messages[i], row, common, t.masks[i]);
    RowReadsBack(cfg, t.messages[i], row, common, t.masks[i]);
    RichFacts(cfg, t, run, clusters, sets);
    RichRowAt(cfg, t.messages, run, i);
    RichRowAt(cfg, t.messages, run, p);
    OnePattern(run.groups[g], rows, Parser.PolicyOf(cfg, run), run.numIDs, q);
    CutByPattern(rows, cfg.filter, run.rowOf[i], q);
    CutByPattern(rows, cfg.filter, q, q);
    TemplatesAtGroup(cfg, t, run, clusters, sets, g);
  }

  /** The rendering of a clustered message that shares its cluster with copies only. */
  lemma CopiesRendered(cfg: Parser.Config, t: Corpus, run: Parser.Run, clusters: seq<int>, sets: seq<seq<Str>>, i: nat)
    requires Parser.ConfigOk(cfg) && ParsedCorpus(cfg, t, run, clusters, sets) && cfg.patternSample >= 1.0
    requires i < |t.messages| == |clusters| == |t.masks| && clusters[i] != -1
    requires TextOf(Parser.RichTokens(cfg, t.messages[i])) == t.messages[i]
    requires forall h: nat :: h < |t.messages| && clusters[h] == clusters[i] ==> t.messages[h] == t.messages[i]
    ensures RenderedLike(cfg, t, clusters, sets, i, i)
  {
    hide Parser.ParseOk, CorpusOk, Matcher.TableOf, Parser.RenderedFrom, CommonOf, PatternIDs, RowsOk, TextOf;
    var g, row, common := Parser.MaskOfMessage(cfg, t.messages, run, clusters, sets, t.masks, i);
    CopiesOnly(cfg, t.messages, run, clusters, sets, t.masks, i, g);
    LikePattern(cfg, t, run, clusters, sets, i, i, g, row, common);
  }

  // --------------------------------------------------------- a table of one

  /** All clustered messages share one cluster: it is the only one. */
  lemma SoleCluster(cfg: Parser.Config, t: Corpus, run: Parser.Run, clusters: seq<int>, sets: seq<seq<Str>>, i: nat)
    requires Parser.ConfigOk(cfg) && ParsedCorpus(cfg, t, run, clusters, sets)
    requires i < |t.messages| == |clusters| && clusters[i] != -1
    requires forall h: nat :: h < |clusters| ==> clusters[h] == -1 || clusters[h] == clusters[i]
    ensures clusters[i] == 0 && |sets| == 1
  {
    hide AnchorSets, GroupsOk, KeyOfSet, CorpusOk, Parser.ParseOk;
    Parser.ClustersOfMessages(cfg, t.messages, run, clusters, sets, t.masks, true, true);
    var count := NextID(run.groups, |run.groups|);
    assert (0 < count ==> 0 in clusters) && (1 < count ==> 1 in clusters);
  }

  lemma TableOfOne(byID: seq<Compiled>, sets: seq<seq<Str>>, tmpl: Str, x: Str)
    requires Matcher.TableOf(byID, Matcher.Kept(Matcher.Flattened(sets))) && sets == [[tmpl]]
    requires Matcher.NormalForm(tmpl) == x
    ensures byID == [CompiledFor(0, x)]
  {
    hide Matcher.NormalForm;
    assert sets[..0] == [];
    assert Matcher.Flattened(sets) == [tmpl];
    assert Matcher.KeptUpTo([tmpl], 0) == [];
    assert Matcher.KeptUpTo([tmpl], 1) == [x];
  }

  lemma PrefixParts(x: Str)
    requires Free(x)
    ensures Split(x + PLACEHOLDER) == [x, []]
    ensures Matcher.NormalForm(x + PLACEHOLDER) == x + PLACEHOLDER
  {
    EmptyIsFree([]);
    var two: seq<Str> := [x, []];
    assert two[1..] == [[]];
    assert AllFree(two);
    assert Join(two) == x + PLACEHOLDER;
    NormalTemplate(two);
    SplitJoin(two);
  }

  lemma RepeatParts(x: Str)
    requires Free(x)
    ensures Split(x + REPEAT) == [x, [], []]
  {
    var none: Str := [];
    SplitRepeat(x, none);
    assert x + REPEAT + none == x + REPEAT;
    SplitOneIff(x);
    JoinSplit(x);
    assert Split(none) == [none];
    hide Split;
    assert Split(x) == [x];
  }

  lemma RepeatNormal(x: Str)
    requires Free(x)
    ensures Matcher.NormalForm(x + REPEAT) == x + PLACEHOLDER
  {
    RepeatParts(x);
    hide Split;
    var two: seq<Str> := [x, []];
    var three: seq<Str> := [x, [], []];
    assert two[1..] == [[]] && three[1..2] == [[]];
    assert Squeezed(three) == two by { assert NonEmpty([[]]) == []; }
    assert Join(two) == x + PLACEHOLDER;
  }

  /** The template x<*> alone is the answer for every message that goes on behind x. */
  lemma SoleAnswer(byID: seq<Compiled>, x: Str, rest: Str)
    requires byID == [CompiledFor(0, x + PLACEHOLDER)] && Free(x) && x != [] && rest != []
    ensures Matcher.AnswerOf(byID, x + rest) == 0 && TableTemplates(byID) == {x + PLACEHOLDER}
  {
    PrefixParts(x);
    var msg, parts: seq<Str> := x + rest, [x, []];
    assert byID[0].parts == parts && parts[1..] == [[]];
    assert msg[..|x|] == x && msg[|x|..] == rest;
    assert HasSuffix(rest, []) by { assert rest[|rest|..] == []; }
    assert Scan([[]], rest).Some?;
    assert MatchOf(parts, msg).Some?;
    assert (x + PLACEHOLDER) != PLACEHOLDER by { assert |x + PLACEHOLDER| > 3; }
    assert MatcherSpec.Best(byID, msg, 0);
    Matcher.AnswerOfIs(byID, msg, 0);
    assert byID[0].template == x + PLACEHOLDER;
  }

  /** A message whose own template is unknown decodes to the sole template filled with its
      own argument. */
  lemma FallbackDecodes(codec: Codec, t: Corpus, i: nat, x: Str, rest: Str, arg: Str)
    requires CorpusOk(t) && Trained(codec, t) && i < |t.messages|
    requires t.messages[i] == x + rest && |t.masks[i]| == |t.messages[i]|
    requires t.byID == [CompiledFor(0, x + PLACEHOLDER)] && Free(x) && x != [] && rest != []
    requires StoredAt(t, i).args == [arg] && !OwnKnownAt(t, i)
    ensures Encode(codec, x + rest).Some?
    ensures var e := Encode(codec, x + rest).value; Decoded(codec.templates, e.templateID, e.args) == Some(x + arg)
  {
    hide KnownAt, MatcherSpec.Table, CompiledFor, Stored, Split, Matcher.AnswerOf;
    SoleAnswer(t.byID, x, rest);
    assert t.byID[0].template == x + PLACEHOLDER by { assert t.byID[0].template in TableTemplates(t.byID); }
    assert ChosenAt(t, i) == x + PLACEHOLDER;
    assert TrainedAt(codec, t, i);
    PrefixParts(x);
    FillOne(x, arg);
  }

  lemma FillOne(x: Str, arg: Str)
    ensures Fill([x, []], [arg]) == x + arg
  {
    var parts: seq<Str> := [x, []];
    assert parts[1..] == [[]] && [arg][1..] == [];
  }

  /** A rendering with the placeholder's text behind its parameter decodes to something shorter. */
  lemma RepeatDecodes(codec: Codec, t: Corpus, i: nat, x: Str, rest: Str, arg: Str)
    requires CorpusOk(t) && Trained(codec, t) && i < |t.messages|
    requires t.messages[i] == x + rest && |t.masks[i]| == |t.messages[i]|
    requires t.byID == [CompiledFor(0, x + PLACEHOLDER)] && Free(x) && x != [] && rest != []
    requires StoredAt(t, i) == Rendering(x + REPEAT, [arg]) && KnownAt(t, i) == TableTemplates(t.byID)
    ensures Encode(codec, x + rest).Some?
    ensures var e := Encode(codec, x + rest).value; Decoded(codec.templates, e.templateID, e.args) == Some(x + arg)
  {
    hide CorpusOk, Trained, Decoded, CompiledFor, Stored, Free, Encode, KnownAt;
    SoleAnswer(t.byID, x, rest);
    assert |x + REPEAT| != |x + PLACEHOLDER|;
    FallbackDecodes(codec, t, i, x, rest, arg);
  }

  /** The only cluster holds copies of one message, x followed by a parameter and the
      placeholder's text: the table has the normal form, the message another rendering. */
  lemma RepeatRendered(cfg: Parser.Config, t: Corpus, run: Parser.Run, clusters: seq<int>, sets: seq<seq<Str>>,
      i: nat, x: Str, arg: Str)
    requires Parser.ConfigOk(cfg) && ParsedCorpus(cfg, t, run, clusters, sets) && Plain(cfg) && cfg.patternSample >= 1.0
    requires i < |t.messages| == |clusters| == |t.masks| && clusters[i] != -1
    requires forall h: nat :: h < |clusters| ==> clusters[h] == -1 || t.messages[h] == t.messages[i]
    requires CutBy(Parser.RichTokens(cfg, t.messages[i]), Parser.RichTokens(cfg, t.messages[i]), cfg.filter)
          == Cut([x, PLACEHOLDER], [arg])
    requires Free(x)
    ensures |t.masks[i]| == |t.messages[i]|
    ensures StoredAt(t, i) == Rendering(x + REPEAT, [arg]) && t.byID == [CompiledFor(0, x + PLACEHOLDER)]
  {
    hide Parser.ParseOk, CutBy, Stored, Matcher.TableOf, Matcher.Flattened, CompiledFor, CorpusOk, Free;
    hide Parser.RichTokens;
    CopiesTogether(cfg, t, run, clusters, sets, i);
    SoleCluster(cfg, t, run, clusters, sets, i);
    PlainText(cfg, t.messages[i]);
    CopiesRendered(cfg, t, run, clusters, sets, i);
    JoinRepeat(x);
    hide Join;
    assert sets == [sets[0]] && clusters[i] == 0;
    RepeatNormal(x);
    TableOfOne(t.byID, sets, x + REPEAT, x + PLACEHOLDER);
  }

  lemma KnownAtStart(t: Corpus)
    requires CorpusOk(t)
    ensures KnownAt(t, 0) == TableTemplates(t.byID)
  {
  }

  /** Such a message, if it comes first, decodes to what is left without the placeholder's text. */
  lemma RepeatIsLost(cfg: Parser.Config, codec: Codec, t: Corpus, run: Parser.Run, clusters: seq<int>,
      sets: seq<seq<Str>>, msg: Str, x: Str, rest: Str, arg: Str)
    requires Parser.ConfigOk(cfg) && ParsedCorpus(cfg, t, run, clusters, sets) && Plain(cfg) && cfg.patternSample >= 1.0
    requires t.messages == [msg] && |clusters| == |t.masks| == 1 && clusters[0] != -1 && Trained(codec, t)
    requires msg == x + rest && Free(x) && x != [] && rest != []
    requires CutBy(Parser.RichTokens(cfg, msg), Parser.RichTokens(cfg, msg), cfg.filter) == Cut([x, PLACEHOLDER], [arg])
    ensures Encode(codec, msg).Some?
    ensures var e := Encode(codec, msg).value; Decoded(codec.templates, e.templateID, e.args) == Some(x + arg)
  {
    hide Parser.ParseOk, CompiledFor, Stored, Decoded, Trained, CutBy, Parser.RichTokens, Free, Encode, CorpusOk, KnownAt;
    hide TableTemplates, Matcher.TableOf, Matcher.Flattened, Parser.ConfigOk;
    RepeatRendered(cfg, t, run, clusters, sets, 0, x, arg);
    KnownAtStart(t);
    RepeatDecodes(codec, t, 0, x, rest, arg);
  }

  /** Two copies of such a message, with its own rendering as an unclustered message in between. */
  lemma RepeatClashes(cfg: Parser.Config, t: Corpus, run: Parser.Run, clusters: seq<int>, sets: seq<seq<Str>>,
      msg: Str, x: Str, rest: Str, arg: Str)
    requires Parser.ConfigOk(cfg) && ParsedCorpus(cfg, t, run, clusters, sets) && Plain(cfg) && cfg.patternSample >= 1.0
    requires t.messages == [msg, x + REPEAT, msg] && |clusters| == |t.masks| == 3 && clusters[0] != -1
    requires clusters[1] == -1
    requires msg == x + rest && Free(x) && x != [] && rest != []
    requires CutBy(Parser.RichTokens(cfg, msg), Parser.RichTokens(cfg, msg), cfg.filter) == Cut([x, PLACEHOLDER], [arg])
    ensures Clash(t)
  {
    hide Parser.ParseOk, CompiledFor, Stored, CutBy, Parser.RichTokens, Free, CorpusOk, KnownAt, ChosenAt;
    hide TableTemplates, Matcher.TableOf, Matcher.Flattened, Parser.ConfigOk;
    RepeatRendered(cfg, t, run, clusters, sets, 0, x, arg);
    KnownAtStart(t);
    SoleAnswer(t.byID, x, rest);
    assert |x + REPEAT| != |x + PLACEHOLDER|;
    assert StoredAt(t, 0).template !in KnownAt(t, 0);
    LiteralAt(cfg, t, run, clusters, sets, 1);
    assert ClashBy(t, 0, 1, 2);
    ClashIff(t);
  }

  lemma LiteralAt(cfg: Parser.Config, t: Corpus, run: Parser.Run, clusters: seq<int>, sets: seq<seq<Str>>, i: nat)
    requires Parser.ConfigOk(cfg) && ParsedCorpus(cfg, t, run, clusters, sets)
    requires i < |t.messages| == |t.masks| == |clusters| && clusters[i] == -1 && t.messages[i] != []
    ensures RegistersAt(t, i) && StoredAt(t, i) == Rendering(t.messages[i], [])
  {
    hide Parser.ParseOk, CorpusOk, Matcher.TableOf, Parser.RenderedFrom;
    var g, row, common := Parser.MaskOfMessage(cfg, t.messages, run, clusters, sets, t.masks, i);
  }

  lemma JoinRepeat(x: Str)
    ensures Join([x, PLACEHOLDER]) == x + REPEAT
  {
    var parts: seq<Str> := [x, PLACEHOLDER];
    assert parts[1..] == [PLACEHOLDER];
  }

  lemma CopiesTogether(cfg: Parser.Config, t: Corpus, run: Parser.Run, clusters: seq<int>, sets: seq<seq<Str>>, i: nat)
    requires Parser.ConfigOk(cfg) && ParsedCorpus(cfg, t, run, clusters, sets)
    requires i < |t.messages| == |clusters| && clusters[i] != -1
    requires forall h: nat :: h < |clusters| ==> clusters[h] == -1 || t.messages[h] == t.messages[i]
    ensures forall h: nat :: h < |clusters| ==> clusters[h] == -1 || clusters[h] == clusters[i]
  {
    hide AnchorSets, GroupsOk, KeyOfSet, CorpusOk, Parser.RowTokens, Counts, Interner.IdsFit, Interner.InternerOk;
    hide ClassesByKey, MasksUpTo, TemplatesUpTo, ClustersUpTo, Matcher.TableOf, CanRender;
    Parser.ClustersOfMessages(cfg, t.messages, run, clusters, sets, t.masks, true, true);
    Parser.RunSizes(cfg, t.messages, run);
    forall h: nat | h < |clusters| && clusters[h] != -1 ensures clusters[h] == clusters[i] {
      Dedup.SameRowIffEqual(t.messages, run.rowOf, run.unique, run.counts, h, i);
      SameKeySameCluster(clusters, NextID(run.groups, |run.groups|), Parser.RunSets(cfg, run), run.rowOf, h, i);
    }
  }

  // ------------------------------------------------------------ configurations

  /** DefaultSymbols: "()[]{}=,*" */
  const DEFAULT_SYMBOLS: set<nat> := {40, 41, 91, 93, 123, 125, 61, 44, 42}

  /** Those are the characters of that string. */
  lemma DefaultSymbolsAre(c: nat)
    ensures c in DEFAULT_SYMBOLS <==> c < 256 && c as char in "()[]{}=,*"
  {
  }

  /** The program's default threshold and no special patterns; the rest as given. */
  ghost predicate Configured(cfg: Parser.Config, symbols: set<nat>, sample: real, impure: bool) {
    && Plain(cfg) && cfg.symbols == symbols && cfg.patternSample == sample && cfg.threshold == 0.5
    && cfg.filter == StaticFilter(true, false, impure)
  }

  /** A parser as NewParser makes it. */
  ghost predicate Default(cfg: Parser.Config) {
    Configured(cfg, DEFAULT_SYMBOLS, 1.0, false)
  }

  lemma PlainLists(cfg: Parser.Config, symbols: set<nat>, toks: seq<Token>)
    requires Parser.ConfigOk(cfg) && Plain(cfg) && SelfSplits(Lex(cfg.tables, symbols), toks)
    ensures Parser.RowTokens(cfg, symbols, TextOf(toks)) == toks
  {
    hide SelfSplits, SplitOf;
    PlainTokens(cfg, symbols, TextOf(toks));
    SplitBack(Lex(cfg.tables, symbols), toks);
  }

  /** The kind of a token of one ASCII byte. */
  function KindOfByte(symbols: set<nat>, c: Byte): TokenKind {
    if AsciiSpace(c as int) then Whitespace
    else if c as int in symbols then Symbolic
    else if AsciiLetter(c as int) then Alphabetic
    else if AsciiDigit(c as int) then Numeric
    else Impure
  }

  /** A token of one byte, or a longer mixed one without boundaries. */
  ghost predicate Simple(symbols: set<nat>, tok: Token) {
    IsAscii(tok.slice) &&
    ((|tok.slice| == 1 && tok.kind == KindOfByte(symbols, tok.slice[0]))
     || (tok.slice != [] && tok.kind == Impure && !LetterBytes(tok.slice) && !DigitBytes(tok.slice)
           && forall c :: c in tok.slice ==> !AsciiSpace(c as int) && c as int !in symbols))
  }

  lemma SimpleSplits(lex: Lex, tok: Token, rest: seq<Token>)
    requires Simple(lex.symbols, tok) && SelfSplits(lex, rest)
    requires rest != [] ==> !(IsSegmentKind(tok.kind) && IsSegmentKind(rest[0].kind))
    ensures SelfSplits(lex, [tok] + rest)
  {
    assert SelfSplit(lex, tok) by {
      if |tok.slice| == 1 {
        var c := tok.slice[0];
        assert AsciiLetter(c as int) <==> LetterBytes(tok.slice);
        assert AsciiDigit(c as int) <==> DigitBytes(tok.slice);
        assert forall d :: d in tok.slice ==> d == c;
      }
    }
    hide SelfSplit, IsSegmentKind;
  }

  /** Simple tokens of which no two neighbours are segments. */
  ghost predicate AllSimple(symbols: set<nat>, toks: seq<Token>) {
    toks == [] || (Simple(symbols, toks[0]) && AllSimple(symbols, toks[1..])
      && (|toks| > 1 ==> !(IsSegmentKind(toks[0].kind) && IsSegmentKind(toks[1].kind))))
  }

  lemma {:induction false} SimpleSelfSplits(lex: Lex, toks: seq<Token>)
    requires AllSimple(lex.symbols, toks)
    ensures SelfSplits(lex, toks)
  {
    hide Simple, IsSegmentKind;
    if toks != [] {
      SimpleSelfSplits(lex, toks[1..]);
      SimpleSplits(lex, toks[0], toks[1..]);
      assert toks == [toks[0]] + toks[1..];
    }
  }

  lemma SimpleTokens(cfg: Parser.Config, symbols: set<nat>, toks: seq<Token>)
    requires Parser.ConfigOk(cfg) && Plain(cfg) && AllSimple(symbols, toks)
    ensures SelfSplits(Lex(cfg.tables, symbols), toks)
    ensures Parser.RowTokens(cfg, symbols, TextOf(toks)) == toks
  {
    hide Simple, AllSimple, SelfSplits, Parser.RowTokens, Plain;
    SimpleSelfSplits(Lex(cfg.tables, symbols), toks);
    PlainLists(cfg, symbols, toks);
  }

  lemma ByteToken(symbols: set<nat>, kind: TokenKind, c: Byte)
    requires c as int < 128 && kind == KindOfByte(symbols, c)
    ensures Simple(symbols, Token(kind, [c]))
  {
  }

  lemma SimpleCons(symbols: set<nat>, tok: Token, rest: seq<Token>)
    requires Simple(symbols, tok) && AllSimple(symbols, rest)
    requires rest != [] ==> !(IsSegmentKind(tok.kind) && IsSegmentKind(rest[0].kind))
    ensures AllSimple(symbols, [tok] + rest)
    ensures TextOf([tok] + rest) == tok.slice + TextOf(rest)
  {
    assert ([tok] + rest)[1..] == rest;
  }

  /** A token with a byte that is no letter and one that is no digit. */
  lemma MixedToken(symbols: set<nat>, slice: Str, a: nat, b: nat)
    requires a < |slice| && b < |slice| && !AsciiLetter(slice[a] as int) && !AsciiDigit(slice[b] as int)
    requires forall i :: 0 <= i < |slice| ==>
      slice[i] as int < 128 && !AsciiSpace(slice[i] as int) && slice[i] as int !in symbols
    ensures Simple(symbols, Token(Impure, slice))
  {
  }

  /** One more token of one byte in front. */
  lemma ByteFirst(symbols: set<nat>, kind: TokenKind, c: Byte, rest: seq<Token>)
    requires c as int < 128 && kind == KindOfByte(symbols, c) && AllSimple(symbols, rest)
    requires rest != [] ==> !(IsSegmentKind(kind) && IsSegmentKind(rest[0].kind))
    ensures AllSimple(symbols, [Token(kind, [c])] + rest)
    ensures TextOf([Token(kind, [c])] + rest) == [c] + TextOf(rest)
    ensures rest == [] ==> [Token(kind, [c])] + rest == [Token(kind, [c])]
  {
    hide Simple;
    ByteToken(symbols, kind, c);
    SimpleCons(symbols, Token(kind, [c]), rest);
  }

  // ------------------------------------------------- a silent wrong decode

  const MARK: seq<Token> := [Token(Symbolic, "<"), Token(Symbolic, "*"), Token(Symbolic, ">")]

  lemma MarkIsSimple(symbols: set<nat>)
    requires 60 in symbols && 42 in symbols && 62 in symbols
    ensures AllSimple(symbols, MARK) && TextOf(MARK) == PLACEHOLDER
  {
    hide Simple, AllSimple, TextOf;
    NothingSimple(symbols);
    ByteFirst(symbols, Symbolic, '>', []);
    ByteFirst(symbols, Symbolic, '*', [Token(Symbolic, ">")]);
    assert [Token(Symbolic, "*")] + [Token(Symbolic, ">")] == [Token(Symbolic, "*"), Token(Symbolic, ">")];
    ByteFirst(symbols, Symbolic, '<', [Token(Symbolic, "*"), Token(Symbolic, ">")]);
    assert MARK == [Token(Symbolic, "<")] + [Token(Symbolic, "*"), Token(Symbolic, ">")];
  }

  lemma NothingSimple(symbols: set<nat>)
    ensures AllSimple(symbols, []) && TextOf([]) == []
  {
  }

  const WRONG: Str := "k 1<*>"
  const WRONG_TOKENS: seq<Token> := [Token(Alphabetic, "k"), Token(Whitespace, " "), Token(Impure, "1<"),
    Token(Symbolic, "*"), Token(Impure, ">")]
  const WRONG_RICH: seq<Token> := [Token(Alphabetic, "k"), Token(Whitespace, " "), Token(Numeric, "1")] + MARK

  lemma WrongList()
    ensures AllSimple(DEFAULT_SYMBOLS, WRONG_TOKENS) && TextOf(WRONG_TOKENS) == WRONG
  {
    var symbols, end := DEFAULT_SYMBOLS, [Token(Symbolic, "*"), Token(Impure, ">")];
    var mixed := Token(Impure, "1<");
    DefaultKinds();
    MixedToken(symbols, "1<", 0, 1);
    hide Simple, AllSimple, TextOf, KindOfByte;
    NothingSimple(symbols);
    ByteFirst(symbols, Impure, '>', []);
    ByteFirst(symbols, Symbolic, '*', [Token(Impure, ">")]);
    assert [Token(Symbolic, "*")] + [Token(Impure, ">")] == end;
    SimpleCons(symbols, mixed, end);
    ByteFirst(symbols, Whitespace, ' ', [mixed] + end);
    ByteFirst(symbols, Alphabetic, 'k', [Token(Whitespace, " ")] + ([mixed] + end));
    assert WRONG_TOKENS == [Token(Alphabetic, "k")] + ([Token(Whitespace, " ")] + ([mixed] + end));
  }

  lemma DefaultKinds()
    ensures KindOfByte(DEFAULT_SYMBOLS, '<') == KindOfByte(DEFAULT_SYMBOLS, '>') == Impure
    ensures KindOfByte(DEFAULT_SYMBOLS, '*') == Symbolic && KindOfByte(DEFAULT_SYMBOLS, ' ') == Whitespace
    ensures KindOfByte(DEFAULT_SYMBOLS, 'k') == Alphabetic
    ensures KindOfByte(DEFAULT_SYMBOLS, '1') == KindOfByte(DEFAULT_SYMBOLS, '2') == Numeric
  {
  }

  lemma WrongTokens(cfg: Parser.Config)
    requires Parser.ConfigOk(cfg) && Default(cfg)
    ensures Parser.RowTokens(cfg, cfg.symbols, WRONG) == WRONG_TOKENS
  {
    WrongList();
    hide AllSimple, TextOf;
    SimpleTokens(cfg, DEFAULT_SYMBOLS, WRONG_TOKENS);
  }

  lemma WrongRich(cfg: Parser.Config)
    requires Parser.ConfigOk(cfg) && Plain(cfg)
    ensures Parser.RichTokens(cfg, WRONG) == WRONG_RICH
  {
    var symbols := Parser.AllPunctuation();
    hide Simple, AllSimple, TextOf;
    MarkIsSimple(symbols);
    ByteFirst(symbols, Numeric, '1', MARK);
    ByteFirst(symbols, Whitespace, ' ', [Token(Numeric, "1")] + MARK);
    ByteFirst(symbols, Alphabetic, 'k', [Token(Whitespace, " ")] + ([Token(Numeric, "1")] + MARK));
    assert WRONG_RICH == [Token(Alphabetic, "k")] + ([Token(Whitespace, " ")] + ([Token(Numeric, "1")] + MARK));
    assert TextOf(WRONG_RICH) == WRONG;
    SimpleTokens(cfg, symbols, WRONG_RICH);
  }

  const WORDS: StaticFilter := StaticFilter(true, false, false)
  const K: Str := "k "

  lemma WrongParameter()
    ensures !CandidateIn(WRONG_RICH, WORDS, "1")
    ensures forall j :: 0 <= j < |WRONG_RICH| && j != 2 ==> CommonCandidate(WRONG_RICH[j], WORDS)
    ensures WRONG_RICH[2].slice == "1" && |WRONG_RICH| == 6
  {
  }

  lemma WrongCut()
    ensures CutBy(WRONG_RICH, WRONG_RICH, WORDS) == Cut([K, PLACEHOLDER], ["1"])
  {
    var toks := WRONG_RICH;
    WrongParameter();
    hide CandidateIn, CommonCandidate, CutBy;
    forall j | 0 <= j < |toks| && j != 2 ensures CandidateIn(toks, WORDS, toks[j].slice) {
      IsCandidate(toks, WORDS, j, toks[j].slice);
    }
    CutAtParameter(toks, toks, WORDS, 2);
    assert toks[..2] == [Token(Alphabetic, "k"), Token(Whitespace, " ")] && toks[3..] == MARK;
    KText();
    assert TextOf(MARK) == PLACEHOLDER;
  }

  lemma KText()
    ensures TextOf([Token(Alphabetic, "k"), Token(Whitespace, " ")]) == K && Free(K) && Free([])
    ensures K + PLACEHOLDER == "k <*>" && K + REPEAT == "k <*><*>" && Join([K, PLACEHOLDER]) == K + REPEAT
  {
    assert [Token(Alphabetic, "k"), Token(Whitespace, " ")][1..] == [Token(Whitespace, " ")];
    var parts: seq<Str> := [K, PLACEHOLDER];
    assert parts[1..] == [PLACEHOLDER];
    EmptyIsFree([]);
  }

  lemma WrongLists(cfg: Parser.Config)
    requires Parser.ConfigOk(cfg) && Default(cfg)
    ensures TokenLists(cfg, [WRONG]) == [WRONG_TOKENS]
  {
    WrongTokens(cfg);
    hide Parser.RowTokens;
  }

  lemma WrongIsClustered(cfg: Parser.Config, t: Corpus, run: Parser.Run, clusters: seq<int>, sets: seq<seq<Str>>)
    requires Parser.ConfigOk(cfg) && Default(cfg) && ParsedCorpus(cfg, t, run, clusters, sets) && t.messages == [WRONG]
    ensures |clusters| == 1 && clusters[0] != -1
  {
    WrongLists(cfg);
    WrongKeeps();
    DefaultMeans(cfg);
    assert WRONG_TOKENS[0].slice == "k" && WRONG_TOKENS[0] in WRONG_TOKENS && Keeps(WORDS, WRONG_TOKENS[0]);
    hide ParsedCorpus, OnlyKeeps, Keeps, TokenLists, Plain, Configured;
    OneKeptSlice(cfg, t, run, clusters, sets, 0, "k");
  }

  lemma WrongKeeps()
    ensures OnlyKeeps([WRONG_TOKENS], WORDS, "k")
  {
    assert KeepsOnly(WRONG_TOKENS, WORDS, "k");
    hide KeepsOnly;
  }

  /** The default parser, one message with the placeholder's text behind a parameter: the codec
      accepts it, and hands back another message, reporting success. */
  lemma DecodesToAnother(cfg: Parser.Config, codec: Codec, t: Corpus, run: Parser.Run, clusters: seq<int>,
      sets: seq<seq<Str>>)
    requires Parser.ConfigOk(cfg) && Default(cfg) && ParsedCorpus(cfg, t, run, clusters, sets) && t.messages == [WRONG]
    requires |t.masks| == 1 && Trained(codec, t)
    ensures Encode(codec, WRONG).Some?
    ensures var e := Encode(codec, WRONG).value; Decoded(codec.templates, e.templateID, e.args) == Some("k 1")
  {
    hide *;
    DefaultMeans(cfg);
    WrongIsClustered(cfg, t, run, clusters, sets);
    WrongRich(cfg);
    WrongCut();
    KText();
    WrongConcats();
    RepeatIsLost(cfg, codec, t, run, clusters, sets, WRONG, K, "1<*>", "1");
  }

  lemma DefaultMeans(cfg: Parser.Config)
    requires Default(cfg)
    ensures Plain(cfg) && cfg.patternSample >= 1.0 && cfg.filter == WORDS && cfg.threshold < 1.0
  {
  }

  lemma WrongConcats()
    ensures K + "1<*>" == WRONG && K + "1" == "k 1" && K != []
  {
  }

  // ----------------------------------------------------- training that fails

  const ODD: Str := " y1<*>"
  const BLANK: Str := " <*><*>"
  const SPACE: Str := " "
  const ONE: set<nat> := {49}
  const ODD_TOKENS: seq<Token> := [Token(Whitespace, " "), Token(Alphabetic, "y"), Token(Symbolic, "1"),
    Token(Impure, "<*>")]
  const BLANK_TOKENS: seq<Token> := [Token(Whitespace, " "), Token(Impure, "<*><*>")]
  const ODD_RICH: seq<Token> := [Token(Whitespace, " "), Token(Impure, "y1")] + MARK

  lemma OddKinds()
    ensures KindOfByte(ONE, ' ') == Whitespace && KindOfByte(ONE, 'y') == Alphabetic && KindOfByte(ONE, '1') == Symbolic
    ensures KindOfByte(Parser.AllPunctuation(), ' ') == Whitespace
  {
  }

  lemma OddList()
    ensures AllSimple(ONE, ODD_TOKENS) && TextOf(ODD_TOKENS) == ODD
  {
    OddKinds();
    var mark := Token(Impure, "<*>");
    MixedToken(ONE, "<*>", 0, 0);
    hide Simple, AllSimple, TextOf, KindOfByte;
    NothingSimple(ONE);
    SimpleCons(ONE, mark, []);
    assert [mark] + [] == [mark];
    ByteFirst(ONE, Symbolic, '1', [mark]);
    ByteFirst(ONE, Alphabetic, 'y', [Token(Symbolic, "1")] + [mark]);
    ByteFirst(ONE, Whitespace, ' ', [Token(Alphabetic, "y")] + ([Token(Symbolic, "1")] + [mark]));
    assert ODD_TOKENS == [Token(Whitespace, " ")] + ([Token(Alphabetic, "y")] + ([Token(Symbolic, "1")] + [mark]));
  }

  lemma BlankList()
    ensures AllSimple(ONE, BLANK_TOKENS) && TextOf(BLANK_TOKENS) == BLANK
  {
    OddKinds();
    var marks := Token(Impure, "<*><*>");
    MixedToken(ONE, "<*><*>", 0, 0);
    hide Simple, AllSimple, TextOf, KindOfByte;
    NothingSimple(ONE);
    SimpleCons(ONE, marks, []);
    assert [marks] + [] == [marks];
    ByteFirst(ONE, Whitespace, ' ', [marks]);
    assert BLANK_TOKENS == [Token(Whitespace, " ")] + [marks];
  }

  lemma OddLists(cfg: Parser.Config)
    requires Parser.ConfigOk(cfg) && Configured(cfg, ONE, 1.0, false)
    ensures TokenLists(cfg, [ODD, BLANK, ODD]) == [ODD_TOKENS, BLANK_TOKENS, ODD_TOKENS]
  {
    OddList();
    BlankList();
    hide Parser.RowTokens, AllSimple, TextOf;
    SimpleTokens(cfg, ONE, ODD_TOKENS);
    SimpleTokens(cfg, ONE, BLANK_TOKENS);
  }

  lemma OddRich(cfg: Parser.Config)
    requires Parser.ConfigOk(cfg) && Plain(cfg)
    ensures Parser.RichTokens(cfg, ODD) == ODD_RICH
  {
    var symbols := Parser.AllPunctuation();
    var word := Token(Impure, "y1");
    OddKinds();
    MixedToken(symbols, "y1", 1, 0);
    hide Simple, AllSimple, TextOf, KindOfByte, Parser.RowTokens;
    MarkIsSimple(symbols);
    SimpleCons(symbols, word, MARK);
    ByteFirst(symbols, Whitespace, ' ', [word] + MARK);
    assert ODD_RICH == [Token(Whitespace, " ")] + ([word] + MARK);
    assert TextOf(ODD_RICH) == ODD;
    SimpleTokens(cfg, symbols, ODD_RICH);
  }

  lemma OneText(tok: Token)
    ensures TextOf([tok]) == tok.slice
  {
    assert [tok][1..] == [];
  }

  lemma OddParameter()
    ensures !CandidateIn(ODD_RICH, WORDS, "y1")
    ensures forall j :: 0 <= j < |ODD_RICH| && j != 1 ==> CommonCandidate(ODD_RICH[j], WORDS)
    ensures ODD_RICH[1].slice == "y1" && |ODD_RICH| == 5
  {
  }

  lemma OddCut()
    ensures CutBy(ODD_RICH, ODD_RICH, WORDS) == Cut([SPACE, PLACEHOLDER], ["y1"])
  {
    var toks := ODD_RICH;
    OddParameter();
    hide CandidateIn, CommonCandidate, CutBy;
    forall j | 0 <= j < |toks| && j != 1 ensures CandidateIn(toks, WORDS, toks[j].slice) {
      IsCandidate(toks, WORDS, j, toks[j].slice);
    }
    CutAtParameter(toks, toks, WORDS, 1);
    assert toks[..1] == [Token(Whitespace, " ")] && toks[2..] == MARK;
    OneText(Token(Whitespace, " "));
    assert TextOf(MARK) == PLACEHOLDER;
  }

  lemma OddKeepsOnly()
    ensures KeepsOnly(ODD_TOKENS, WORDS, "y")
    ensures ODD_TOKENS[1] in ODD_TOKENS && ODD_TOKENS[1].slice == "y" && Keeps(WORDS, ODD_TOKENS[1])
  {
  }

  lemma BlankKeepsOnly()
    ensures KeepsOnly(BLANK_TOKENS, WORDS, "y")
    ensures forall tok :: tok in BLANK_TOKENS ==> tok.slice != "y"
  {
  }

  lemma OddKeeps()
    ensures OnlyKeeps([ODD_TOKENS, BLANK_TOKENS, ODD_TOKENS], WORDS, "y")
  {
    OddKeepsOnly();
    BlankKeepsOnly();
    hide KeepsOnly;
  }

  lemma OddClusters(cfg: Parser.Config, t: Corpus, run: Parser.Run, clusters: seq<int>, sets: seq<seq<Str>>)
    requires Parser.ConfigOk(cfg) && Configured(cfg, ONE, 1.0, false) && ParsedCorpus(cfg, t, run, clusters, sets)
    requires t.messages == [ODD, BLANK, ODD]
    ensures |clusters| == 3 && clusters[0] != -1 && clusters[1] == -1
  {
    OddLists(cfg);
    OddKeeps();
    OddKeepsOnly();
    BlankKeepsOnly();
    OddMeans(cfg);
    hide ParsedCorpus, OnlyKeeps, Keeps, TokenLists, Plain, Configured;
    OneKeptSlice(cfg, t, run, clusters, sets, 0, "y");
    OneKeptSlice(cfg, t, run, clusters, sets, 1, "y");
  }

  lemma OddConcats()
    ensures SPACE + "y1<*>" == ODD && SPACE + REPEAT == BLANK && SPACE != [] && Free(SPACE)
  {
  }

  lemma OddMeans(cfg: Parser.Config)
    requires Configured(cfg, ONE, 1.0, false)
    ensures Plain(cfg) && cfg.patternSample >= 1.0 && cfg.filter == WORDS && cfg.threshold < 1.0
  {
  }

  /** Three messages, the first and the last equal, that cannot be trained. */
  lemma CannotTrain(cfg: Parser.Config, t: Corpus, run: Parser.Run, clusters: seq<int>, sets: seq<seq<Str>>)
    requires Parser.ConfigOk(cfg) && Configured(cfg, ONE, 1.0, false) && ParsedCorpus(cfg, t, run, clusters, sets)
    requires t.messages == [ODD, BLANK, ODD] && |t.masks| == 3
    ensures Clash(t)
  {
    hide *;
    OddMeans(cfg);
    OddClusters(cfg, t, run, clusters, sets);
    OddRich(cfg);
    OddCut();
    OddConcats();
    RepeatClashes(cfg, t, run, clusters, sets, ODD, SPACE, "y1<*>", "y1");
  }

  // ----------------------------------------------------------- sampled rows

  lemma FirstSeenPair(a: Str, b: Str)
    requires a != b
    ensures Dedup.FirstSeen([a, b]) == [a, b]
  {
    assert [a, b][..1] == [a] && [a][..0] == [];
    assert Dedup.FirstSeen([a]) == [a];
  }

  lemma RowsOfMessages(run: Parser.Run, messages: seq<Str>)
    requires Dedup.Deduped(messages, run.rowOf, run.unique, run.counts)
    ensures run.unique == Dedup.FirstSeen(messages) && |run.rowOf| == |messages|
    ensures forall i :: 0 <= i < |messages| ==> run.rowOf[i] < |run.unique| && run.unique[run.rowOf[i]] == messages[i]
  {
  }

  /** Two messages have two rows, in order. */
  lemma PairRows(run: Parser.Run, a: Str, b: Str)
    requires a != b && Dedup.Deduped([a, b], run.rowOf, run.unique, run.counts)
    ensures run.rowOf == [0, 1] && |run.unique| == 2
  {
    RowsOfMessages(run, [a, b]);
    FirstSeenPair(a, b);
    hide Dedup.FirstSeen, Dedup.Deduped;
    assert run.unique[run.rowOf[0]] == [a, b][0] && run.unique[run.rowOf[1]] == [a, b][1];
  }

  /** Of two rows in one group, half a sample is the first. */
  lemma HalfOfTwo(g: Group, sets: seq<set<Token>>, p: Policy)
    requires |sets| == 2 && KeyOfSet(sets[0]) == KeyOfSet(sets[1]) == g.key && p.rowOf == [0, 1] && p.sample == 0.5
    requires g.rows == RowsWith(sets, 2, g.key) && g.indices == IndicesWith(sets, p.rowOf, 2, g.key)
    ensures RowsBelow(g.indices, 2) && PatternIDs(g, p) == [0]
  {
    hide KeyOfSet;
    assert RowsWith(sets, 1, g.key) == [0] && IndicesWith(sets, p.rowOf, 1, g.key) == [0];
    assert g.rows == [0, 1] == g.indices;
    assert SourceIDs(g, p) == [0, 1];
    HalfPosition();
    assert PositionsOf(2, 0.5) == Some([0]);
    hide PositionsOf, SourceIDs, RowsWith, IndicesWith;
  }

  lemma HalfPosition()
    ensures PositionsOf(2, 0.5) == Some([0])
  {
    assert CeilOf(2 as real * 0.5) == 1;
  }

  /** Two messages in one cluster, patterns from half of the rows: the first is the pattern. */
  lemma PairPattern(cfg: Parser.Config, t: Corpus, run: Parser.Run, clusters: seq<int>, sets: seq<seq<Str>>, i: nat,
      g: nat)
    requires Parser.ConfigOk(cfg) && ParsedCorpus(cfg, t, run, clusters, sets) && cfg.patternSample == 0.5
    requires |t.messages| == |clusters| == 2 && t.messages[0] != t.messages[1] && clusters[0] == clusters[1] && i < 2
    requires |run.rowOf| == 2 && RowsBelow(run.rowOf, |Parser.RunSets(cfg, run)|)
    requires InGroup(run.groups, Parser.RunSets(cfg, run), run.rowOf, i, g) && g < |run.groups|
    requires RowsBelow(run.groups[g].indices, |run.rowOf|)
    ensures run.rowOf == [0, 1] && PatternIDs(run.groups[g], Parser.PolicyOf(cfg, run)) == [0]
  {
    hide *;
    PairGroup(cfg, t, run, clusters, sets, i, g);
    PolicyMeans(cfg, run);
    HalfOfTwo(run.groups[g], Parser.RunSets(cfg, run), Parser.PolicyOf(cfg, run));
  }

  lemma PolicyMeans(cfg: Parser.Config, run: Parser.Run)
    ensures Parser.PolicyOf(cfg, run).rowOf == run.rowOf && Parser.PolicyOf(cfg, run).sample == cfg.patternSample
  {
  }

  lemma ParsedRows(cfg: Parser.Config, t: Corpus, run: Parser.Run, clusters: seq<int>, sets: seq<seq<Str>>)
    requires Parser.ConfigOk(cfg) && ParsedCorpus(cfg, t, run, clusters, sets)
    ensures Parser.ParseOk(cfg, t.messages, run, clusters, sets, t.masks, true, true)
    ensures RowsOk(run.rows, |run.record.occ|) && RowsBelow(run.rowOf, |Parser.RunSets(cfg, run)|)
  {
  }

  lemma PairGroup(cfg: Parser.Config, t: Corpus, run: Parser.Run, clusters: seq<int>, sets: seq<seq<Str>>, i: nat, g: nat)
    requires Parser.ConfigOk(cfg) && ParsedCorpus(cfg, t, run, clusters, sets)
    requires |t.messages| == |clusters| == 2 && t.messages[0] != t.messages[1] && clusters[0] == clusters[1] && i < 2
    requires |run.rowOf| == 2 && RowsBelow(run.rowOf, |Parser.RunSets(cfg, run)|)
    requires InGroup(run.groups, Parser.RunSets(cfg, run), run.rowOf, i, g) && g < |run.groups|
    ensures RowsOk(run.rows, |run.record.occ|)
    ensures run.rowOf == [0, 1] && |Parser.RunSets(cfg, run)| == 2
    ensures var anchors, group := Parser.RunSets(cfg, run), run.groups[g];
      && KeyOfSet(anchors[0]) == KeyOfSet(anchors[1]) == group.key
      && RowsBelow([0, 1], 2) && RowsBelow(run.rowOf, |anchors|)
      && group.rows == RowsWith(anchors, 2, group.key) && group.indices == IndicesWith(anchors, run.rowOf, 2, group.key)
  {
    hide KeyOfSet, AnchorSets, RowsWith, IndicesWith, Parser.ParseOk, ParsedCorpus;
    ParsedRows(cfg, t, run, clusters, sets);
    PairSizes(cfg, t, run, clusters, sets);
    GroupRows(cfg, t.messages, run, clusters, sets, t.masks, g);
  }

  lemma PairSizes(cfg: Parser.Config, t: Corpus, run: Parser.Run, clusters: seq<int>, sets: seq<seq<Str>>)
    requires Parser.ConfigOk(cfg) && ParsedCorpus(cfg, t, run, clusters, sets)
    requires |t.messages| == |clusters| == 2 && t.messages[0] != t.messages[1] && clusters[0] == clusters[1]
    ensures run.rowOf == [0, 1] && |Parser.RunSets(cfg, run)| == 2
    ensures KeyOfSet(Parser.RunSets(cfg, run)[0]) == KeyOfSet(Parser.RunSets(cfg, run)[1])
  {
    hide KeyOfSet, AnchorSets, GroupsOk, Counts, Interner.InternerOk, Interner.IdsFit, Parser.RowTokens, CanRender;
    hide ClustersUpTo, TemplatesUpTo, MasksUpTo, CorpusOk, Matcher.TableOf, ClassesByKey;
    Parser.ClustersOfMessages(cfg, t.messages, run, clusters, sets, t.masks, true, true);
    Parser.RunSizes(cfg, t.messages, run);
    assert t.messages == [t.messages[0], t.messages[1]];
    PairRows(run, t.messages[0], t.messages[1]);
    SameKeySameCluster(clusters, NextID(run.groups, |run.groups|), Parser.RunSets(cfg, run), run.rowOf, 0, 1);
  }

  lemma PairRendered(cfg: Parser.Config, t: Corpus, run: Parser.Run, clusters: seq<int>, sets: seq<seq<Str>>, i: nat)
    requires Parser.ConfigOk(cfg) && ParsedCorpus(cfg, t, run, clusters, sets) && Plain(cfg) && cfg.patternSample == 0.5
    requires |t.messages| == |clusters| == |t.masks| == 2 && t.messages[0] != t.messages[1] && i < 2
    requires clusters[0] == clusters[1] != -1
    ensures RenderedLike(cfg, t, clusters, sets, i, 0)
  {
    hide Parser.ParseOk, CorpusOk, Matcher.TableOf, Parser.RenderedFrom, CommonOf, PatternIDs, RowsOk;
    var g, row, common := Parser.MaskOfMessage(cfg, t.messages, run, clusters, sets, t.masks, i);
    PairPattern(cfg, t, run, clusters, sets, i, g);
    PlainText(cfg, t.messages[i]);
    LikePattern(cfg, t, run, clusters, sets, i, 0, g, row, common);
  }

  lemma JoinEnd(x: Str)
    ensures Join([x, []]) == x + PLACEHOLDER
  {
    var parts: seq<Str> := [x, []];
    assert parts[1..] == [[]];
  }

  /** A first message that the sole template matches registers nothing, so a second one with
      another template falls back. */
  lemma SecondFallsBack(codec: Codec, t: Corpus, x: Str, y: Str, first: Str, second: Str, arg: Str)
    requires CorpusOk(t) && Trained(codec, t) && t.messages == [x + first, x + second] && |t.masks| == 2
    requires |t.masks[0]| == |t.messages[0]| && |t.masks[1]| == |t.messages[1]|
    requires t.byID == [CompiledFor(0, x + PLACEHOLDER)] && Free(x) && x != [] && first != [] && second != [] && |x| < |y|
    requires StoredAt(t, 1) == Rendering(y + PLACEHOLDER, [arg])
    ensures Encode(codec, x + second).Some?
    ensures var e := Encode(codec, x + second).value; Decoded(codec.templates, e.templateID, e.args) == Some(x + arg)
  {
    hide CorpusOk, Trained, Decoded, CompiledFor, Stored, Free, Encode, KnownAt, TableTemplates;
    SoleAnswer(t.byID, x, first);
    SoleAnswer(t.byID, x, second);
    KnownAtStart(t);
    KnownUnregistered(t, 0);
    assert |y + PLACEHOLDER| > |x + PLACEHOLDER|;
    FallbackDecodes(codec, t, 1, x, second, arg);
  }

  /** The second of two messages in one cluster, whose own template is longer than the first's,
      decodes to the first's template filled with its own argument. */
  lemma PairDecodes(cfg: Parser.Config, codec: Codec, t: Corpus, run: Parser.Run, clusters: seq<int>, sets: seq<seq<Str>>,
      a: Str, b: Str, x: Str, y: Str, first: Str, second: Str, arg: Str)
    requires Parser.ConfigOk(cfg) && ParsedCorpus(cfg, t, run, clusters, sets) && Plain(cfg) && cfg.patternSample == 0.5
    requires t.messages == [a, b] && a != b && |clusters| == |t.masks| == 2 && clusters[0] == clusters[1] != -1
    requires a == x + first && b == x + second && Free(x) && x != [] && first != [] && second != [] && |x| < |y|
    requires CutBy(Parser.RichTokens(cfg, a), Parser.RichTokens(cfg, a), cfg.filter) == Cut([x, []], [first])
    requires CutBy(Parser.RichTokens(cfg, b), Parser.RichTokens(cfg, a), cfg.filter) == Cut([y, []], [arg])
    requires Trained(codec, t)
    ensures Encode(codec, b).Some?
    ensures var e := Encode(codec, b).value; Decoded(codec.templates, e.templateID, e.args) == Some(x + arg)
  {
    hide Parser.ParseOk, CompiledFor, Stored, Decoded, Trained, CutBy, Parser.RichTokens, Free, Encode, CorpusOk;
    hide Matcher.TableOf, Matcher.Flattened, Parser.ConfigOk, Join;
    PairRendered(cfg, t, run, clusters, sets, 0);
    PairRendered(cfg, t, run, clusters, sets, 1);
    PairTable(cfg, t, run, clusters, sets, x);
    JoinEnd(y);
    hide Plain, Matcher.Kept;
    SecondFallsBack(codec, t, x, y, first, second, arg);
  }

  lemma KnownUnregistered(t: Corpus, i: nat)
    requires i < |t.messages| == |t.masks| && !RegistersAt(t, i)
    ensures KnownAt(t, i + 1) == KnownAt(t, i)
  {
  }

  lemma PairTable(cfg: Parser.Config, t: Corpus, run: Parser.Run, clusters: seq<int>, sets: seq<seq<Str>>, x: Str)
    requires Parser.ConfigOk(cfg) && ParsedCorpus(cfg, t, run, clusters, sets) && Free(x)
    requires |t.messages| == |clusters| == |t.masks| == 2 && clusters[0] == clusters[1] != -1
    requires RenderedLike(cfg, t, clusters, sets, 0, 0)
    requires CutBy(Parser.RichTokens(cfg, t.messages[0]), Parser.RichTokens(cfg, t.messages[0]), cfg.filter).parts == [x, []]
    ensures t.byID == [CompiledFor(0, x + PLACEHOLDER)]
  {
    hide Parser.ParseOk, CutBy, Stored, Matcher.TableOf, Matcher.Flattened, CompiledFor, CorpusOk, Free;
    hide Parser.RichTokens;
    SoleCluster(cfg, t, run, clusters, sets, 0);
    JoinEnd(x);
    hide Join;
    assert sets == [sets[0]];
    PrefixParts(x);
    TableOfOne(t.byID, sets, x + PLACEHOLDER, x + PLACEHOLDER);
  }

  const SHORT: Str := "k 1"
  const LONG: Str := "k k 2"
  const SHORT_TOKENS: seq<Token> := [Token(Alphabetic, "k"), Token(Whitespace, " "), Token(Numeric, "1")]
  const LONG_TOKENS: seq<Token> := [Token(Alphabetic, "k"), Token(Whitespace, " "), Token(Alphabetic, "k"),
    Token(Whitespace, " "), Token(Numeric, "2")]

  /** k, space and digits are what they are, for either set of symbols. */
  ghost predicate UsualKinds(symbols: set<nat>) {
    && KindOfByte(symbols, ' ') == Whitespace && KindOfByte(symbols, 'k') == Alphabetic
    && KindOfByte(symbols, '1') == KindOfByte(symbols, '2') == Numeric
  }

  lemma Usual()
    ensures UsualKinds(DEFAULT_SYMBOLS) && UsualKinds(Parser.AllPunctuation())
  {
  }

  lemma ShortList(symbols: set<nat>)
    requires UsualKinds(symbols)
    ensures AllSimple(symbols, SHORT_TOKENS) && TextOf(SHORT_TOKENS) == SHORT
  {
    hide Simple, AllSimple, TextOf, KindOfByte;
    NothingSimple(symbols);
    ByteFirst(symbols, Numeric, '1', []);
    ByteFirst(symbols, Whitespace, ' ', [Token(Numeric, "1")]);
    ByteFirst(symbols, Alphabetic, 'k', [Token(Whitespace, " ")] + [Token(Numeric, "1")]);
    assert SHORT_TOKENS == [Token(Alphabetic, "k")] + ([Token(Whitespace, " ")] + [Token(Numeric, "1")]);
  }

  lemma LongList(symbols: set<nat>)
    requires UsualKinds(symbols)
    ensures AllSimple(symbols, LONG_TOKENS) && TextOf(LONG_TOKENS) == LONG
  {
    hide Simple, AllSimple, TextOf, KindOfByte;
    NothingSimple(symbols);
    ByteFirst(symbols, Numeric, '2', []);
    ByteFirst(symbols, Whitespace, ' ', [Token(Numeric, "2")]);
    var one := [Token(Whitespace, " ")] + [Token(Numeric, "2")];
    ByteFirst(symbols, Alphabetic, 'k', one);
    ByteFirst(symbols, Whitespace, ' ', [Token(Alphabetic, "k")] + one);
    ByteFirst(symbols, Alphabetic, 'k', [Token(Whitespace, " ")] + ([Token(Alphabetic, "k")] + one));
    assert LONG_TOKENS == [Token(Alphabetic, "k")] + ([Token(Whitespace, " ")] + ([Token(Alphabetic, "k")] + one));
  }

  lemma PairTokens(cfg: Parser.Config)
    requires Parser.ConfigOk(cfg) && Plain(cfg) && cfg.symbols == DEFAULT_SYMBOLS
    ensures TokenLists(cfg, [SHORT, LONG]) == [SHORT_TOKENS, LONG_TOKENS]
    ensures Parser.RichTokens(cfg, SHORT) == SHORT_TOKENS && Parser.RichTokens(cfg, LONG) == LONG_TOKENS
  {
    hide AllSimple, TextOf, KindOfByte, Parser.RowTokens, UsualKinds;
    Usual();
    ShortList(DEFAULT_SYMBOLS);
    LongList(DEFAULT_SYMBOLS);
    ShortList(Parser.AllPunctuation());
    LongList(Parser.AllPunctuation());
    SimpleTokens(cfg, DEFAULT_SYMBOLS, SHORT_TOKENS);
    SimpleTokens(cfg, DEFAULT_SYMBOLS, LONG_TOKENS);
    SimpleTokens(cfg, Parser.AllPunctuation(), SHORT_TOKENS);
    SimpleTokens(cfg, Parser.AllPunctuation(), LONG_TOKENS);
  }

  lemma ShortParameters()
    ensures !CandidateIn(SHORT_TOKENS, WORDS, "1") && !CandidateIn(SHORT_TOKENS, WORDS, "2")
    ensures CommonCandidate(SHORT_TOKENS[0], WORDS) && CommonCandidate(SHORT_TOKENS[1], WORDS)
    ensures SHORT_TOKENS[2].slice == "1" && |SHORT_TOKENS| == 3
  {
  }

  lemma ShortCut()
    ensures CutBy(SHORT_TOKENS, SHORT_TOKENS, WORDS) == Cut([K, []], ["1"])
  {
    var toks := SHORT_TOKENS;
    ShortParameters();
    hide CandidateIn, CommonCandidate, CutBy;
    forall j | 0 <= j < 2 ensures CandidateIn(toks, WORDS, toks[j].slice) {
      IsCandidate(toks, WORDS, j, toks[j].slice);
    }
    CutAtParameter(toks, toks, WORDS, 2);
    assert toks[..2] == [Token(Alphabetic, "k"), Token(Whitespace, " ")] && toks[3..] == [];
    KText();
  }

  lemma LongText()
    ensures TextOf(LONG_TOKENS[..4]) == "k k "
  {
    var toks := LONG_TOKENS[..4];
    assert toks == [Token(Alphabetic, "k"), Token(Whitespace, " ")] + [Token(Alphabetic, "k"), Token(Whitespace, " ")];
    KText();
    TextAppend([Token(Alphabetic, "k"), Token(Whitespace, " ")], [Token(Alphabetic, "k"), Token(Whitespace, " ")]);
    assert K + K == "k k ";
  }

  lemma LongCut()
    ensures CutBy(LONG_TOKENS, SHORT_TOKENS, WORDS) == Cut(["k k ", []], ["2"])
  {
    var toks, pattern := LONG_TOKENS, SHORT_TOKENS;
    ShortParameters();
    hide CandidateIn, CommonCandidate, CutBy;
    forall j | 0 <= j < 4 ensures CandidateIn(pattern, WORDS, toks[j].slice) {
      IsCandidate(pattern, WORDS, j % 2, toks[j].slice);
    }
    CutAtParameter(toks, pattern, WORDS, 4);
    LongText();
    assert toks[5..] == [];
  }

  lemma ShortKeeps()
    ensures KeepsOnly(SHORT_TOKENS, WORDS, "k")
    ensures SHORT_TOKENS[0] in SHORT_TOKENS && SHORT_TOKENS[0].slice == "k" && Keeps(WORDS, SHORT_TOKENS[0])
  {
  }

  lemma LongKeeps()
    ensures KeepsOnly(LONG_TOKENS, WORDS, "k")
    ensures LONG_TOKENS[0] in LONG_TOKENS && LONG_TOKENS[0].slice == "k" && Keeps(WORDS, LONG_TOKENS[0])
  {
  }

  /** Messages with the same anchors share a cluster. */
  lemma SameAnchorsSameCluster(cfg: Parser.Config, messages: seq<Str>, run: Parser.Run, clusters: seq<int>,
      sets: seq<seq<Str>>, masks: seq<Str>, wantTemplates: bool, wantMasks: bool, i: nat, j: nat)
    requires Parser.ConfigOk(cfg) && Parser.ParseOk(cfg, messages, run, clusters, sets, masks, wantTemplates, wantMasks)
    requires i < |messages| && j < |messages| && |run.rowOf| == |messages|
    ensures |clusters| == |messages|
    ensures Parser.AnchorsAt(cfg, run, i) == Parser.AnchorsAt(cfg, run, j) ==> clusters[i] == clusters[j]
  {
    hide AnchorSets, GroupsOk, KeyOfSet, ClassesByKey, Parser.RichOk, CanRender, ClustersUpTo, TemplatesUpTo, MasksUpTo;
    Parser.ClustersOfMessages(cfg, messages, run, clusters, sets, masks, wantTemplates, wantMasks);
    SameKeySameCluster(clusters, NextID(run.groups, |run.groups|), Parser.RunSets(cfg, run), run.rowOf, i, j);
  }

  lemma OnlyKeptSet(all: seq<seq<Token>>, f: StaticFilter, i: nat, tok: Token)
    requires OnlyKeeps(all, f, tok.slice) && i < |all| && tok in all[i] && Keeps(f, tok) && Unambiguous(all[i])
    ensures KeptTokens(all, f, all[i]) == {tok}
  {
    hide Keeps, OnlyKeeps;
    var j :| 0 <= j < |all[i]| && all[i][j] == tok;
    assert KeptIn(all[i], f, tok.slice);
    hide Kept;
    forall x | x in KeptTokens(all, f, all[i]) ensures x == tok {
      OnlySlice(all, f, tok.slice, x.slice);
    }
  }

  lemma OnlyAnchor(cfg: Parser.Config, messages: seq<Str>, run: Parser.Run, i: nat, tok: Token)
    requires Parser.ConfigOk(cfg) && Parser.PrimaryOk(cfg, messages, run) && i < |messages| && cfg.threshold < 1.0
    requires Plain(cfg) && OnlyKeeps(TokenLists(cfg, messages), cfg.filter, tok.slice)
    requires tok in TokenLists(cfg, messages)[i] && Keeps(cfg.filter, tok)
    ensures |run.rowOf| == |messages| && Parser.AnchorsAt(cfg, run, i) == {tok}
  {
    PlainRow(cfg, messages, i);
    hide OnlyKeeps, Unambiguous, Inseparable, Keeps, KeptTokens, Parser.PrimaryOk, Parser.RowTokens, Plain;
    hide Anchors.OfKind;
    var all := TokenLists(cfg, messages);
    OnlyIsInseparable(all, cfg.filter, tok.slice, all[i]);
    InseparableAnchors(cfg, messages, run, i);
    OnlyKeptSet(all, cfg.filter, i, tok);
  }

  lemma PairKeeps()
    ensures OnlyKeeps([SHORT_TOKENS, LONG_TOKENS], WORDS, "k")
  {
    ShortKeeps();
    LongKeeps();
    hide KeepsOnly;
  }

  lemma PairClusters(cfg: Parser.Config, t: Corpus, run: Parser.Run, clusters: seq<int>, sets: seq<seq<Str>>)
    requires Parser.ConfigOk(cfg) && Configured(cfg, DEFAULT_SYMBOLS, 0.5, false)
    requires ParsedCorpus(cfg, t, run, clusters, sets) && t.messages == [SHORT, LONG]
    ensures |clusters| == 2 && clusters[0] == clusters[1] != -1
  {
    PairTokens(cfg);
    PairKeeps();
    ShortKeeps();
    LongKeeps();
    PairMeans(cfg);
    hide OnlyKeeps, Keeps, TokenLists, CorpusOk, Parser.PrimaryOk, KeepsOnly, Plain, Configured;
    OneKeptSlice(cfg, t, run, clusters, sets, 0, "k");
    OnlyAnchor(cfg, t.messages, run, 0, SHORT_TOKENS[0]);
    OnlyAnchor(cfg, t.messages, run, 1, LONG_TOKENS[0]);
    SameAnchorsSameCluster(cfg, t.messages, run, clusters, sets, t.masks, true, true, 0, 1);
  }

  lemma PairMeans(cfg: Parser.Config)
    requires Configured(cfg, DEFAULT_SYMBOLS, 0.5, false)
    ensures Plain(cfg) && cfg.patternSample == 0.5 && cfg.filter == WORDS && cfg.symbols == DEFAULT_SYMBOLS
    ensures cfg.threshold < 1.0
  {
  }

  lemma PairConcats()
    ensures K + "1" == SHORT && K + "k 2" == LONG && SHORT != LONG && K + "2" == "k 2" && K != [] && |K| < |"k k "|
  {
  }

  /** Without the placeholder's text anywhere, but with templates from half of the rows: the second
      message comes back as another one, and Decode reports success. */
  lemma SampledDecodesToAnother(cfg: Parser.Config, codec: Codec, t: Corpus, run: Parser.Run, clusters: seq<int>,
      sets: seq<seq<Str>>)
    requires Parser.ConfigOk(cfg) && Configured(cfg, DEFAULT_SYMBOLS, 0.5, false)
    requires ParsedCorpus(cfg, t, run, clusters, sets) && t.messages == [SHORT, LONG] && |t.masks| == 2
    requires Trained(codec, t)
    ensures Encode(codec, LONG).Some?
    ensures var e := Encode(codec, LONG).value; Decoded(codec.templates, e.templateID, e.args) == Some("k 2")
  {
    hide *;
    PairMeans(cfg);
    PairClusters(cfg, t, run, clusters, sets);
    PairTokens(cfg);
    ShortCut();
    LongCut();
    KText();
    PairConcats();
    PairDecodes(cfg, codec, t, run, clusters, sets, SHORT, LONG, K, "k k ", "1", "k 2", "2");
  }

  // -------------------------------------------- one cluster, different anchors

  const JOINED: Str := ['a', '1', 0 as char, 4 as char, 31 as char, 'b', '1']
  const APART: Str := "a1 b1"
  const JOINED_TOKENS: seq<Token> := [Token(Impure, JOINED)]
  const APART_TOKENS: seq<Token> := [Token(Impure, "a1"), Token(Whitespace, " "), Token(Impure, "b1")]
  const MIXED: StaticFilter := StaticFilter(true, false, true)

  lemma ApartList()
    ensures AllSimple(DEFAULT_SYMBOLS, APART_TOKENS) && TextOf(APART_TOKENS) == APART
  {
    var symbols := DEFAULT_SYMBOLS;
    DefaultKinds();
    MixedToken(symbols, "a1", 1, 0);
    MixedToken(symbols, "b1", 1, 0);
    hide Simple, AllSimple, TextOf, KindOfByte;
    NothingSimple(symbols);
    SimpleCons(symbols, Token(Impure, "b1"), []);
    assert [Token(Impure, "b1")] + [] == [Token(Impure, "b1")];
    ByteFirst(symbols, Whitespace, ' ', [Token(Impure, "b1")]);
    SimpleCons(symbols, Token(Impure, "a1"), [Token(Whitespace, " ")] + [Token(Impure, "b1")]);
    assert APART_TOKENS == [Token(Impure, "a1")] + ([Token(Whitespace, " ")] + [Token(Impure, "b1")]);
  }

  lemma JoinedList()
    ensures AllSimple(DEFAULT_SYMBOLS, JOINED_TOKENS) && TextOf(JOINED_TOKENS) == JOINED
  {
    MixedToken(DEFAULT_SYMBOLS, JOINED, 1, 0);
    hide Simple;
    assert JOINED_TOKENS[1..] == [];
  }

  lemma ApartLists(cfg: Parser.Config)
    requires Parser.ConfigOk(cfg) && Plain(cfg) && cfg.symbols == DEFAULT_SYMBOLS
    ensures TokenLists(cfg, [JOINED, APART]) == [JOINED_TOKENS, APART_TOKENS]
  {
    ApartList();
    JoinedList();
    hide Parser.RowTokens, AllSimple, TextOf;
    SimpleTokens(cfg, DEFAULT_SYMBOLS, JOINED_TOKENS);
    SimpleTokens(cfg, DEFAULT_SYMBOLS, APART_TOKENS);
  }

  lemma ApartSlices()
    ensures JOINED != "a1" && JOINED != "b1" && JOINED != " " && "a1" != "b1" && "a1" != " " && "b1" != " "
  {
    assert |JOINED| == 7;
  }

  /** Which slices the two messages keep. */
  lemma ApartKeeps(x: Str)
    ensures KeptIn(JOINED_TOKENS, MIXED, x) <==> x == JOINED
    ensures KeptIn(APART_TOKENS, MIXED, x) <==> x == "a1" || x == "b1"
  {
    assert Keeps(MIXED, JOINED_TOKENS[0]) && Keeps(MIXED, APART_TOKENS[0]) && Keeps(MIXED, APART_TOKENS[2]);
    assert JOINED_TOKENS[0].slice == JOINED && APART_TOKENS[0].slice == "a1" && APART_TOKENS[2].slice == "b1";
    assert !Keeps(MIXED, APART_TOKENS[1]);
  }

  /** Which slices the corpus of the two messages keeps. */
  lemma ApartKept(x: Str)
    ensures Kept([JOINED_TOKENS, APART_TOKENS], MIXED, x) <==> x == JOINED || x == "a1" || x == "b1"
  {
    var all := [JOINED_TOKENS, APART_TOKENS];
    ApartKeeps(x);
    hide KeptIn;
    assert all[0] == JOINED_TOKENS && all[1] == APART_TOKENS;
    assert KeptIn(all[0], MIXED, x) || KeptIn(all[1], MIXED, x) ==> Kept(all, MIXED, x);
  }

  lemma ApartPair()
    ensures var all := [JOINED_TOKENS, APART_TOKENS];
      Together(all, MIXED, "a1", "b1") && Together(all, MIXED, "b1", "a1")
  {
    ApartSlices();
    ApartKeeps("a1");
    ApartKeeps("b1");
    hide KeptIn;
  }

  lemma JoinedMembers(tok: Token)
    ensures tok in JOINED_TOKENS <==> tok == Token(Impure, JOINED)
    ensures tok in APART_TOKENS
       <==> tok == Token(Impure, "a1") || tok == Token(Impure, "b1") || tok == Token(Whitespace, " ")
  {
    assert APART_TOKENS[0] == Token(Impure, "a1") && APART_TOKENS[1] == Token(Whitespace, " ");
    assert APART_TOKENS[2] == Token(Impure, "b1") && JOINED_TOKENS[0] == Token(Impure, JOINED);
  }

  lemma ApartInseparable()
    ensures Inseparable([JOINED_TOKENS, APART_TOKENS], MIXED, JOINED_TOKENS)
    ensures Inseparable([JOINED_TOKENS, APART_TOKENS], MIXED, APART_TOKENS)
  {
    var all := [JOINED_TOKENS, APART_TOKENS];
    ApartPair();
    ApartSlices();
    forall a: Token, b: Token
      | a in APART_TOKENS && b in APART_TOKENS && Kept(all, MIXED, a.slice) && Kept(all, MIXED, b.slice)
      ensures Together(all, MIXED, a.slice, b.slice)
    {
      ApartMember(a);
      ApartMember(b);
      SelfTogether(all, MIXED, a.slice);
    }
    forall a: Token, b: Token | a in JOINED_TOKENS && b in JOINED_TOKENS ensures Together(all, MIXED, a.slice, b.slice) {
      SelfTogether(all, MIXED, a.slice);
    }
  }

  lemma ApartMember(tok: Token)
    requires tok in APART_TOKENS && Kept([JOINED_TOKENS, APART_TOKENS], MIXED, tok.slice)
    ensures tok.slice == "a1" || tok.slice == "b1"
  {
    ApartKept(tok.slice);
    JoinedMembers(tok);
    ApartSlices();
    hide Kept;
  }

  lemma SelfTogether(all: seq<seq<Token>>, f: StaticFilter, x: Str)
    ensures Together(all, f, x, x)
  {
  }

  lemma ApartKeptTokens()
    ensures KeptTokens([JOINED_TOKENS, APART_TOKENS], MIXED, JOINED_TOKENS) == {Token(Impure, JOINED)}
    ensures KeptTokens([JOINED_TOKENS, APART_TOKENS], MIXED, APART_TOKENS) == {Token(Impure, "a1"), Token(Impure, "b1")}
  {
    hide Kept;
    forall tok: Token
      ensures tok in KeptTokens([JOINED_TOKENS, APART_TOKENS], MIXED, JOINED_TOKENS) <==> tok == Token(Impure, JOINED)
      ensures tok in KeptTokens([JOINED_TOKENS, APART_TOKENS], MIXED, APART_TOKENS)
         <==> tok == Token(Impure, "a1") || tok == Token(Impure, "b1")
    {
      KeptMember(tok);
    }
  }

  lemma KeptMember(tok: Token)
    ensures tok in KeptTokens([JOINED_TOKENS, APART_TOKENS], MIXED, JOINED_TOKENS) <==> tok == Token(Impure, JOINED)
    ensures tok in KeptTokens([JOINED_TOKENS, APART_TOKENS], MIXED, APART_TOKENS)
       <==> tok == Token(Impure, "a1") || tok == Token(Impure, "b1")
  {
    JoinedMembers(tok);
    ApartKept(tok.slice);
    ApartSlices();
    hide Kept;
  }

  lemma MixedMeans(cfg: Parser.Config, sample: real)
    requires Configured(cfg, DEFAULT_SYMBOLS, sample, true)
    ensures Plain(cfg) && cfg.filter == MIXED && cfg.symbols == DEFAULT_SYMBOLS && cfg.threshold < 1.0
  {
  }

  /** Without special patterns inseparable tokens are the anchors. */
  lemma PlainAnchors(cfg: Parser.Config, run: Parser.Run, messages: seq<Str>, all: seq<seq<Token>>, i: nat,
      expected: set<Token>)
    requires Parser.ConfigOk(cfg) && Parser.PrimaryOk(cfg, messages, run) && Plain(cfg) && cfg.threshold < 1.0
    requires i < |messages| && TokenLists(cfg, messages) == all
    requires Inseparable(all, cfg.filter, all[i]) && KeptTokens(all, cfg.filter, all[i]) == expected
    ensures AnchorsAre(cfg, run, i, expected)
  {
    PrimaryRows(cfg, messages, run);
    hide Parser.PrimaryOk, Unambiguous, Inseparable, KeptTokens, Plain, Anchors.OfKind, Parser.RowTokens;
    PlainRow(cfg, messages, i);
    InseparableAnchors(cfg, messages, run, i);
  }

  lemma PrimaryRows(cfg: Parser.Config, messages: seq<Str>, run: Parser.Run)
    requires Parser.ConfigOk(cfg) && Parser.PrimaryOk(cfg, messages, run)
    ensures RowsOk(run.rows, |run.record.occ|) && RowsBelow(run.rowOf, |Parser.RunSets(cfg, run)|)
    ensures |run.rowOf| == |messages|
  {
    Parser.RunSizes(cfg, messages, run);
  }

  /** The anchors of message i are these. */
  ghost predicate AnchorsAre(cfg: Parser.Config, run: Parser.Run, i: nat, expected: set<Token>) {
    && RowsOk(run.rows, |run.record.occ|) && RowsBelow(run.rowOf, |Parser.RunSets(cfg, run)|) && i < |run.rowOf|
    && Parser.AnchorsAt(cfg, run, i) == expected
  }

  lemma ApartKeys(cfg: Parser.Config, run: Parser.Run)
    requires Parser.ConfigOk(cfg) && Configured(cfg, DEFAULT_SYMBOLS, cfg.patternSample, true)
    requires Parser.PrimaryOk(cfg, [JOINED, APART], run)
    ensures |run.rowOf| == 2 && Parser.AnchorsAt(cfg, run, 0) != Parser.AnchorsAt(cfg, run, 1)
    ensures KeyOfSet(Parser.AnchorsAt(cfg, run, 0)) == KeyOfSet(Parser.AnchorsAt(cfg, run, 1)) != []
  {
    hide *;
    MixedMeans(cfg, cfg.patternSample);
    ApartLists(cfg);
    ApartInseparable();
    ApartKeptTokens();
    var messages, all := [JOINED, APART], [JOINED_TOKENS, APART_TOKENS];
    PlainAnchors(cfg, run, messages, all, 0, {Token(Impure, JOINED)});
    PlainAnchors(cfg, run, messages, all, 1, {Token(Impure, "a1"), Token(Impure, "b1")});
    JoinedKey();
    ApartSlices();
    assert Token(Impure, "a1") !in {Token(Impure, JOINED)};
    PrimaryRows(cfg, [JOINED, APART], run);
    AnchorsAreMeans(cfg, run, 0, {Token(Impure, JOINED)});
    AnchorsAreMeans(cfg, run, 1, {Token(Impure, "a1"), Token(Impure, "b1")});
  }

  lemma AnchorsAreMeans(cfg: Parser.Config, run: Parser.Run, i: nat, expected: set<Token>)
    requires AnchorsAre(cfg, run, i, expected)
    ensures RowsOk(run.rows, |run.record.occ|) && RowsBelow(run.rowOf, |Parser.RunSets(cfg, run)|) && i < |run.rowOf|
    ensures Parser.AnchorsAt(cfg, run, i) == expected
  {
  }

  /** With impure tokens kept, a message of one token that spells two, and a message of these two:
      one cluster, different anchors. */
  lemma ClusterOfTwoKinds(cfg: Parser.Config, run: Parser.Run, clusters: seq<int>, sets: seq<seq<Str>>, masks: seq<Str>,
      wantTemplates: bool, wantMasks: bool)
    requires Parser.ConfigOk(cfg) && Configured(cfg, DEFAULT_SYMBOLS, cfg.patternSample, true)
    requires Parser.ParseOk(cfg, [JOINED, APART], run, clusters, sets, masks, wantTemplates, wantMasks)
    ensures |clusters| == |run.rowOf| == 2 && clusters[0] == clusters[1] >= 0
    ensures Parser.AnchorsAt(cfg, run, 0) != Parser.AnchorsAt(cfg, run, 1)
  {
    hide *;
    ParseIsPrimary(cfg, [JOINED, APART], run, clusters, sets, masks, wantTemplates, wantMasks);
    ApartKeys(cfg, run);
    SameKeyClusters(cfg, [JOINED, APART], run, clusters, sets, masks, wantTemplates, wantMasks, 0, 1);
  }

  lemma JoinedKey()
    ensures KeyOfSet({Token(Impure, JOINED)}) == KeyOfSet({Token(Impure, "a1"), Token(Impure, "b1")}) != []
  {
    hide KeyOfSet;
    KeysCollide();
    assert JOINED == "a1" + [NUL, KindByte(Impure), UNIT] + "b1";
    EmptyKey({Token(Impure, JOINED)});
  }

  lemma ParseIsPrimary(cfg: Parser.Config, messages: seq<Str>, run: Parser.Run, clusters: seq<int>, sets: seq<seq<Str>>,
      masks: seq<Str>, wantTemplates: bool, wantMasks: bool)
    requires Parser.ConfigOk(cfg) && Parser.ParseOk(cfg, messages, run, clusters, sets, masks, wantTemplates, wantMasks)
    ensures Parser.PrimaryOk(cfg, messages, run) && |run.rowOf| == |messages|
  {
    Parser.RunSizes(cfg, messages, run);
  }

  lemma SameKeyClusters(cfg: Parser.Config, messages: seq<Str>, run: Parser.Run, clusters: seq<int>,
      sets: seq<seq<Str>>, masks: seq<Str>, wantTemplates: bool, wantMasks: bool, i: nat, j: nat)
    requires Parser.ConfigOk(cfg) && Parser.ParseOk(cfg, messages, run, clusters, sets, masks, wantTemplates, wantMasks)
    requires i < |messages| && j < |messages| && |run.rowOf| == |messages|
    requires KeyOfSet(Parser.AnchorsAt(cfg, run, i)) == KeyOfSet(Parser.AnchorsAt(cfg, run, j)) != []
    ensures |clusters| == |messages| && clusters[i] == clusters[j] >= 0
  {
    hide AnchorSets, GroupsOk, KeyOfSet, Parser.RichOk, CanRender, ClustersUpTo, TemplatesUpTo, MasksUpTo;
    Parser.ClustersOfMessages(cfg, messages, run, clusters, sets, masks, wantTemplates, wantMasks);
    SameKeySameCluster(clusters, NextID(run.groups, |run.groups|), Parser.RunSets(cfg, run), run.rowOf, i, j);
    EmptyKey(Parser.AnchorsAt(cfg, run, i));
  }

  // --------------------------------------------- nothing but the placeholder

  const BARE_TOKENS: seq<Token> := [Token(Impure, "<"), Token(Symbolic, "*"), Token(Impure, ">")]

  lemma BareList()
    ensures AllSimple(DEFAULT_SYMBOLS, BARE_TOKENS) && TextOf(BARE_TOKENS) == PLACEHOLDER
  {
    var symbols := DEFAULT_SYMBOLS;
    DefaultKinds();
    hide Simple, AllSimple, TextOf, KindOfByte;
    NothingSimple(symbols);
    ByteFirst(symbols, Impure, '>', []);
    ByteFirst(symbols, Symbolic, '*', [Token(Impure, ">")]);
    ByteFirst(symbols, Impure, '<', [Token(Symbolic, "*")] + [Token(Impure, ">")]);
    assert BARE_TOKENS == [Token(Impure, "<")] + ([Token(Symbolic, "*")] + [Token(Impure, ">")]);
  }

  lemma BareLists(cfg: Parser.Config)
    requires Parser.ConfigOk(cfg) && Default(cfg)
    ensures TokenLists(cfg, [PLACEHOLDER]) == [BARE_TOKENS]
  {
    BareList();
    hide Parser.RowTokens, AllSimple, TextOf;
    SimpleTokens(cfg, DEFAULT_SYMBOLS, BARE_TOKENS);
  }

  lemma BareKeeps()
    ensures OnlyKeeps([BARE_TOKENS], WORDS, [])
    ensures forall tok :: tok in BARE_TOKENS ==> tok.slice != []
  {
    assert KeepsOnly(BARE_TOKENS, WORDS, []);
    hide KeepsOnly;
  }

  lemma BareIsUnclustered(cfg: Parser.Config, t: Corpus, run: Parser.Run, clusters: seq<int>, sets: seq<seq<Str>>)
    requires Parser.ConfigOk(cfg) && Default(cfg) && ParsedCorpus(cfg, t, run, clusters, sets)
    requires t.messages == [PLACEHOLDER]
    ensures |clusters| == 1 && clusters[0] == -1
  {
    BareLists(cfg);
    BareKeeps();
    DefaultMeans(cfg);
    hide ParsedCorpus, OnlyKeeps, TokenLists, Plain, Configured;
    OneKeptSlice(cfg, t, run, clusters, sets, 0, []);
  }

  /** An unclustered message that contains the placeholder's text is stored, but does not decode. */
  lemma UnclusteredFails(cfg: Parser.Config, codec: Codec, t: Corpus, run: Parser.Run, clusters: seq<int>,
      sets: seq<seq<Str>>, i: nat)
    requires Parser.ConfigOk(cfg) && ParsedCorpus(cfg, t, run, clusters, sets) && Trained(codec, t)
    requires i < |t.messages| == |t.masks| == |clusters| && clusters[i] == -1 && !Free(t.messages[i])
    ensures Encode(codec, t.messages[i]).Some?
    ensures var e := Encode(codec, t.messages[i]).value; Decoded(codec.templates, e.templateID, e.args) == None
  {
    hide ParsedCorpus, Trained, Decoded, RoundTrips, Encode, Free;
    if t.messages[i] == [] { EmptyIsFree(t.messages[i]); }
    UnclusteredRoundTrips(cfg, codec, t, run, clusters, sets, i);
    LiteralFails(codec, t, i);
  }

  /** A literal that contains the placeholder's text does not decode. */
  lemma LiteralFails(codec: Codec, t: Corpus, i: nat)
    requires |t.masks| == |t.messages| && Trained(codec, t) && i < |t.messages| && t.masks[i] == [] != t.messages[i]
    requires !Free(t.messages[i])
    ensures Encode(codec, t.messages[i]).Some?
    ensures var e := Encode(codec, t.messages[i]).value; Decoded(codec.templates, e.templateID, e.args) == None
  {
    hide ChosenAt, Free;
    LiteralIsOwn(t, i);
    assert TrainedAt(codec, t, i);
    DecodesIff(codec.templates, codec.entries[t.messages[i]].templateID, t.messages[i], t.masks[i]);
  }

  lemma BareIsNotFree()
    ensures !Free(PLACEHOLDER)
  {
    assert OccursAt(PLACEHOLDER, PLACEHOLDER, 0);
  }

  /** The default parser and a message that is the placeholder's text: it is stored as a literal,
      and does not decode. */
  lemma BareIsLost(cfg: Parser.Config, codec: Codec, t: Corpus, run: Parser.Run, clusters: seq<int>, sets: seq<seq<Str>>)
    requires Parser.ConfigOk(cfg) && Default(cfg) && ParsedCorpus(cfg, t, run, clusters, sets)
    requires t.messages == [PLACEHOLDER]
    requires |t.masks| == 1 && Trained(codec, t)
    ensures Encode(codec, PLACEHOLDER).Some?
    ensures var e := Encode(codec, PLACEHOLDER).value; Decoded(codec.templates, e.templateID, e.args) == None
  {
    hide *;
    BareIsUnclustered(cfg, t, run, clusters, sets);
    BareIsNotFree();
    UnclusteredFails(cfg, codec, t, run, clusters, sets, 0);
  }

  // ------------------------------------------------------ the program's answers

  lemma TwoBytes(a: Str, b: Str, c: Str)
    ensures TotalBytes([a]) == |a| && TotalBytes([a, b]) == |a| + |b| && TotalBytes([a, b, c]) == |a| + |b| + |c|
  {
    assert [a][..0] == [] && [a, b][..1] == [a] && [a, b, c][..2] == [a, b];
    assert TotalBytes([a]) == |a| && TotalBytes([a, b]) == |a| + |b|;
  }

  /** Training and decoding one message of a corpus of distinct messages. */
  method TrainAndDecode(cfg: Parser.Config, messages: seq<Str>, msg: Str)
    returns (message: Str, ok: bool, codec: Codec, ghost t: Corpus, ghost run: Parser.Run, ghost clusters: seq<int>,
      ghost sets: seq<seq<Str>>)
    requires Parser.ConfigOk(cfg) && 0 < |messages| <= MAX_INT32 && 2 * TotalBytes(messages) <= UINT32
    requires Distinct(messages) && msg in messages
    ensures ParsedCorpus(cfg, t, run, clusters, sets) && t.messages == messages && |t.masks| == |messages|
    ensures Trained(codec, t)
    ensures Encode(codec, msg).Some?
    ensures var e := Encode(codec, msg).value;
      var d := Decoded(codec.templates, e.templateID, e.args);
      (ok <==> d.Some?) && (ok ==> message == d.value)
  {
    hide ParsedCorpus, Clash, RoundTrips, Parser.CoversSlices, Free, Decoded;
    VocabularyCovers(cfg, messages);
    var r;
    r, t, run, clusters, sets := NewCorpusCodec(cfg, messages, Vocabulary(cfg, messages));
    codec := r.value;
    assert Elements(messages) == r.value.entries.Keys;
    var e := Encode(r.value, msg);
    message, ok := Decode(r.value, e.value.templateID, e.value.args);
  }

  lemma Sizes()
    ensures |WRONG| == 6 && |SHORT| == 3 && |LONG| == 5 && |ODD| == 6 && |BLANK| == 7 && |JOINED| == 7 && |APART| == 5
    ensures Distinct([WRONG]) && Distinct([SHORT, LONG]) && Distinct([PLACEHOLDER]) && |PLACEHOLDER| == 3
    ensures 38 <= UINT32 && 3 <= MAX_INT32
  {
  }

  /** By default, "k 1<*>" comes back as "k 1". */
  method WrongDecode(cfg: Parser.Config) returns (message: Str, ok: bool)
    requires Parser.ConfigOk(cfg) && Default(cfg)
    ensures ok && message == "k 1"
  {
    hide *;
    TwoBytes(WRONG, WRONG, WRONG);
    Sizes();
    ghost var codec, t, run, clusters, sets;
    message, ok, codec, t, run, clusters, sets := TrainAndDecode(cfg, [WRONG], WRONG);
    DecodesToAnother(cfg, codec, t, run, clusters, sets);
  }

  /** By default, "<*>" is encoded but does not decode. */
  method LostDecode(cfg: Parser.Config) returns (message: Str, ok: bool)
    requires Parser.ConfigOk(cfg) && Default(cfg)
    ensures !ok
  {
    hide *;
    TwoBytes(PLACEHOLDER, PLACEHOLDER, PLACEHOLDER);
    Sizes();
    ghost var codec, t, run, clusters, sets;
    message, ok, codec, t, run, clusters, sets := TrainAndDecode(cfg, [PLACEHOLDER], PLACEHOLDER);
    BareIsLost(cfg, codec, t, run, clusters, sets);
  }

  /** With templates from half of the rows, "k k 2" comes back as "k 2". */
  method SampledDecode(cfg: Parser.Config) returns (message: Str, ok: bool)
    requires Parser.ConfigOk(cfg) && Configured(cfg, DEFAULT_SYMBOLS, 0.5, false)
    ensures ok && message == "k 2"
  {
    hide *;
    TwoBytes(SHORT, LONG, LONG);
    Sizes();
    ghost var codec, t, run, clusters, sets;
    message, ok, codec, t, run, clusters, sets := TrainAndDecode(cfg, [SHORT, LONG], LONG);
    SampledDecodesToAnother(cfg, codec, t, run, clusters, sets);
  }

  /** With '1' as the only symbol, [" y1<*>", " <*><*>", " y1<*>"] cannot be trained. */
  method FailingTraining(cfg: Parser.Config) returns (r: Result<Codec>)
    requires Parser.ConfigOk(cfg) && Configured(cfg, ONE, 1.0, false)
    ensures r.Err?
  {
    hide *;
    var messages := [ODD, BLANK, ODD];
    TwoBytes(ODD, BLANK, ODD);
    Sizes();
    VocabularyCovers(cfg, messages);
    ghost var t, run, clusters, sets;
    r, t, run, clusters, sets := NewCorpusCodec(cfg, messages, Vocabulary(cfg, messages));
    CannotTrain(cfg, t, run, clusters, sets);
  }

  /** With impure tokens kept, two messages whose anchors differ share a cluster. */
  method SharedCluster(cfg: Parser.Config) returns (clusters: seq<int>, ghost run: Parser.Run)
    requires Parser.ConfigOk(cfg) && Configured(cfg, DEFAULT_SYMBOLS, cfg.patternSample, true)
    ensures |clusters| == 2 && clusters[0] == clusters[1] >= 0
    ensures Parser.PrimaryOk(cfg, [JOINED, APART], run) && |run.rowOf| == 2
    ensures Parser.AnchorsAt(cfg, run, 0) != Parser.AnchorsAt(cfg, run, 1)
  {
    hide *;
    var messages := [JOINED, APART];
    TwoBytes(JOINED, APART, APART);
    Sizes();
    VocabularyCovers(cfg, messages);
    var sets, masks;
    clusters, sets, masks, run := Parser.Parse(cfg, messages, false, false, Vocabulary(cfg, messages));
    ParseIsPrimary(cfg, messages, run, clusters, sets, masks, false, false);
    ClusterOfTwoKinds(cfg, run, clusters, sets, masks, false, false);
  }
}
