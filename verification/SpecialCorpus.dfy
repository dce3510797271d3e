/** A corpus with special patterns on which the codec returns a message although one of its literal
    runs contains the placeholder's text: the condition for the round trip needs the bytes of that
    text to be tokens of their own. */
module SpecialCorpus {
  import opened Bytes
  import opened Placeholder
  import opened GreedyMatch
  import opened Pieces
  import opened Tokens
  import opened TokenRecord
  import opened Splitting
  import opened Specials
  import opened Tokenize
  import opened AnchorKey
  import opened Grouping
  import opened Clusters
  import opened Decoding
  import opened Training
  import opened CorpusCodec
  import opened Sorting
  import opened Outcomes
  import opened Corpora
  import Anchors
  import Parser
  import Matcher
  import MatcherSpec

  // ------------------------------------------------- one literal of each kind

  /** One white and one black special literal. */
  ghost predicate TwoLiterals(cfg: Parser.Config, white: Str, black: Str) {
    cfg.whites == [Literal(white)] && cfg.blacks == [Literal(black)] && white != [] && black != []
  }

  lemma OneStage(pre: seq<PreToken>, m: SpecialMatcher, kind: PreKind)
    requires MatcherOk(m)
    ensures MatchersOk([m]) && Stages(pre, [m], kind) == RefineAll(pre, m, kind)
  {
    assert [m][..0] == [];
    assert Stages(pre, [], kind) == pre;
  }

  lemma RefineFew(p: PreToken, q: PreToken, m: SpecialMatcher, kind: PreKind)
    requires MatcherOk(m)
    ensures RefineAll([p], m, kind) == Refine(p, m, kind)
    ensures RefineAll([p, q], m, kind) == Refine(p, m, kind) + Refine(q, m, kind)
  {
    assert [p][..0] == [] && [p, q][..1] == [p];
    assert RefineAll([], m, kind) == [];
    assert RefineAll([p], m, kind) == [] + Refine(p, m, kind);
  }

  lemma NoPieces(msg: Str, literal: Str, kind: PreKind)
    requires literal != []
    ensures LiteralPieces(msg, literal, kind, |msg|) == []
  {
    assert msg[|msg|..] == [];
  }

  /** A literal that ends a message, and occurs nowhere before. */
  lemma EndingLiteral(front: Str, literal: Str, kind: PreKind)
    requires literal != [] && Index(front + literal, literal) == |front|
    ensures SplitLiteral(front + literal, literal, kind) == Rest(front) + [PreToken(kind, literal)]
  {
    hide Rest, OccursAt, Index, Occurs;
    var msg := front + literal;
    NoPieces(msg, literal, kind);
    assert msg[0..] == msg && msg[0..|front|] == front && msg[|front|..|msg|] == literal;
    assert Contains(msg, literal);
  }

  lemma AbsentLiteral(msg: Str, literal: Str, kind: PreKind)
    requires literal != [] && !Occurs(msg, literal)
    ensures SplitLiteral(msg, literal, kind) == [PreToken(Unrefined, msg)]
  {
  }

  /** Tokens of a message that is the black literal followed by the white one. */
  lemma BlackWhite(t: Lexer, white: Str, black: Str)
    requires SpecialsOk(t) && t.whites == [Literal(white)] && t.blacks == [Literal(black)] && white != [] && black != []
    requires Index(black + white, white) == |black|
    ensures TokensIn(t, black + white) == [Token(SpecialBlack, black), Token(SpecialWhite, white)]
  {
    hide SplitLiteral, Index, Stages, TokensOf;
    WhiteStage(white, black);
    BlackStage(white, black);
    TwoPieces(t.lex, PreToken(Black, black), PreToken(White, white));
  }

  lemma WhiteStage(white: Str, black: Str)
    requires white != [] && black != [] && Index(black + white, white) == |black|
    ensures MatchersOk([Literal(white)])
    ensures Stages([PreToken(Unrefined, black + white)], [Literal(white)], White)
         == [PreToken(Unrefined, black), PreToken(White, white)]
  {
    var whole := PreToken(Unrefined, black + white);
    EndingLiteral(black, white, White);
    OneStage([whole], Literal(white), White);
    RefineFew(whole, whole, Literal(white), White);
    hide SplitLiteral, Index, Stages, RefineAll;
  }

  lemma BlackStage(white: Str, black: Str)
    requires black != []
    ensures MatchersOk([Literal(black)])
    ensures Stages([PreToken(Unrefined, black), PreToken(White, white)], [Literal(black)], Black)
         == [PreToken(Black, black), PreToken(White, white)]
  {
    var p, w := PreToken(Unrefined, black), PreToken(White, white);
    WholeLiteral(black);
    OneStage([p, w], Literal(black), Black);
    RefineFew(p, w, Literal(black), Black);
    hide SplitLiteral, Stages, RefineAll;
  }

  lemma WholeLiteral(literal: Str)
    requires literal != []
    ensures SplitLiteral(literal, literal, Black) == [PreToken(Black, literal)]
  {
    assert OccursAt(literal, literal, 0);
    assert [] + literal == literal;
    EndingLiteral([], literal, Black);
  }

  lemma TwoPieces(lex: Lex, p: PreToken, q: PreToken)
    ensures TokensOf(lex, [p, q]) == TokensOfPiece(lex, p) + TokensOfPiece(lex, q)
    ensures TokensOf(lex, [p]) == TokensOfPiece(lex, p)
  {
    hide TokensOfPiece;
    assert [p][..0] == [] && [p, q][..1] == [p];
    assert TokensOf(lex, []) == [];
    assert TokensOf(lex, [p]) == [] + TokensOfPiece(lex, p);
  }

  /** Tokens of a message without either literal. */
  lemma NoSpecials(t: Lexer, white: Str, black: Str, msg: Str)
    requires SpecialsOk(t) && t.whites == [Literal(white)] && t.blacks == [Literal(black)] && white != [] && black != []
    requires !Occurs(msg, white) && !Occurs(msg, black)
    ensures TokensIn(t, msg) == SplitOf(t.lex, msg)
  {
    hide SplitOf, SplitLiteral;
    var whole := PreToken(Unrefined, msg);
    AbsentLiteral(msg, white, White);
    AbsentLiteral(msg, black, Black);
    OneStage([whole], Literal(white), White);
    RefineFew(whole, whole, Literal(white), White);
    OneStage([whole], Literal(black), Black);
    RefineFew(whole, whole, Literal(black), Black);
    TwoPieces(t.lex, whole, whole);
  }

  // --------------------------------------------------------------- the corpus

  const WHITE: Str := "<*>z"
  const BLACK: Str := "<<"
  const MIXTURE: Str := "<<<*>z"
  const OTHER: Str := "<1*>z"
  const MIXTURE_TOKENS: seq<Token> := [Token(SpecialBlack, "<<"), Token(SpecialWhite, "<*>z")]
  const OTHER_TOKENS: seq<Token> := [Token(Symbolic, "<"), Token(Numeric, "1"), Token(Symbolic, "*"), Token(Symbolic, ">"),
    Token(Alphabetic, "z")]

  /** The two literals as special patterns, all punctuation as symbols, and defaults otherwise. */
  ghost predicate Special(cfg: Parser.Config) {
    && TwoLiterals(cfg, WHITE, BLACK) && cfg.symbols == Parser.AllPunctuation()
    && cfg.filter == WORDS && cfg.threshold == 0.5 && cfg.patternSample == 1.0
  }

  lemma MixtureIndex()
    ensures BLACK + WHITE == MIXTURE && Index(BLACK + WHITE, WHITE) == |BLACK|
  {
    var s := MIXTURE;
    assert BLACK + WHITE == s;
    assert s[2..6] == WHITE;
    assert s[0..4][1] != WHITE[1] && s[1..5][1] != WHITE[1];
    IndexIs(s, WHITE, 2);
  }

  lemma OtherLacks()
    ensures !Occurs(OTHER, WHITE) && !Occurs(OTHER, BLACK)
  {
    var s := OTHER;
    forall k ensures !OccursAt(s, WHITE, k) && !OccursAt(s, BLACK, k) {
      if 0 <= k && k + 4 <= |s| {
        assert s[k..k + 4][0] == s[k] && s[k..k + 4][1] == s[k + 1];
      }
      if 0 <= k && k + 2 <= |s| {
        assert s[k..k + 2][0] == s[k] && s[k..k + 2][1] == s[k + 1];
      }
    }
  }

  lemma OtherList()
    ensures AllSimple(Parser.AllPunctuation(), OTHER_TOKENS) && TextOf(OTHER_TOKENS) == OTHER
  {
    var symbols := Parser.AllPunctuation();
    PunctuationKinds();
    hide Simple, AllSimple, TextOf, KindOfByte;
    NothingSimple(symbols);
    ByteFirst(symbols, Alphabetic, 'z', []);
    ByteFirst(symbols, Symbolic, '>', [Token(Alphabetic, "z")]);
    var end := [Token(Symbolic, ">")] + [Token(Alphabetic, "z")];
    ByteFirst(symbols, Symbolic, '*', end);
    ByteFirst(symbols, Numeric, '1', [Token(Symbolic, "*")] + end);
    ByteFirst(symbols, Symbolic, '<', [Token(Numeric, "1")] + ([Token(Symbolic, "*")] + end));
    assert OTHER_TOKENS == [Token(Symbolic, "<")] + ([Token(Numeric, "1")] + ([Token(Symbolic, "*")] + end));
  }

  lemma PunctuationKinds()
    ensures KindOfByte(Parser.AllPunctuation(), '<') == KindOfByte(Parser.AllPunctuation(), '>') == Symbolic
    ensures KindOfByte(Parser.AllPunctuation(), '*') == Symbolic && KindOfByte(Parser.AllPunctuation(), '1') == Numeric
    ensures KindOfByte(Parser.AllPunctuation(), 'z') == Alphabetic
  {
  }

  /** The tokens of the two messages, whichever symbols are asked for: both routes use all punctuation. */
  lemma MixtureTokens(cfg: Parser.Config)
    requires Parser.ConfigOk(cfg) && Special(cfg)
    ensures Parser.RichTokens(cfg, MIXTURE) == MIXTURE_TOKENS && TextOf(MIXTURE_TOKENS) == MIXTURE
  {
    MixtureIndex();
    BlackWhite(Parser.AbstractLexer(cfg, Parser.AllPunctuation()), WHITE, BLACK);
    assert MIXTURE_TOKENS[1..][1..] == [];
    assert TextOf(MIXTURE_TOKENS) == BLACK + (WHITE + []);
  }

  lemma OtherTokens(cfg: Parser.Config)
    requires Parser.ConfigOk(cfg) && Special(cfg)
    ensures Parser.RichTokens(cfg, OTHER) == OTHER_TOKENS && TextOf(OTHER_TOKENS) == OTHER
  {
    OtherLacks();
    OtherList();
    hide AllSimple, SplitOf, Occurs, TextOf;
    NoSpecials(Parser.AbstractLexer(cfg, Parser.AllPunctuation()), WHITE, BLACK, OTHER);
    SimpleSelfSplits(Lex(cfg.tables, Parser.AllPunctuation()), OTHER_TOKENS);
    SplitBack(Lex(cfg.tables, Parser.AllPunctuation()), OTHER_TOKENS);
  }

  lemma SpecialLists(cfg: Parser.Config)
    requires Parser.ConfigOk(cfg) && Special(cfg)
    ensures TokenLists(cfg, [MIXTURE, OTHER]) == [MIXTURE_TOKENS, OTHER_TOKENS]
  {
    MixtureTokens(cfg);
    OtherTokens(cfg);
    hide Parser.RowTokens, TextOf;
  }

  // ------------------------------------------------------------------ anchors

  lemma KeepsWhich(x: Str)
    ensures KeptIn(MIXTURE_TOKENS, WORDS, x) <==> x == WHITE
    ensures KeptIn(OTHER_TOKENS, WORDS, x) <==> x == "z"
  {
    assert Keeps(WORDS, MIXTURE_TOKENS[1]) && !Keeps(WORDS, MIXTURE_TOKENS[0]) && MIXTURE_TOKENS[1].slice == WHITE;
    assert Keeps(WORDS, OTHER_TOKENS[4]) && OTHER_TOKENS[4].slice == "z";
    assert forall j :: 0 <= j < 4 ==> !Keeps(WORDS, OTHER_TOKENS[j]);
  }

  lemma KeptWhich(x: Str)
    ensures Kept([MIXTURE_TOKENS, OTHER_TOKENS], WORDS, x) <==> x == WHITE || x == "z"
  {
    KeepsWhich(x);
    hide KeptIn;
    var all := [MIXTURE_TOKENS, OTHER_TOKENS];
    assert all[0] == MIXTURE_TOKENS && all[1] == OTHER_TOKENS;
    assert KeptIn(all[0], WORDS, x) || KeptIn(all[1], WORDS, x) ==> Kept(all, WORDS, x);
  }

  lemma MixtureMembers(tok: Token)
    ensures tok in MIXTURE_TOKENS <==> tok == Token(SpecialBlack, BLACK) || tok == Token(SpecialWhite, WHITE)
  {
    assert MIXTURE_TOKENS[0] == Token(SpecialBlack, BLACK) && MIXTURE_TOKENS[1] == Token(SpecialWhite, WHITE);
  }

  lemma OtherMembers(tok: Token)
    requires tok in OTHER_TOKENS
    ensures |tok.slice| == 1 && (tok.slice == "z" ==> tok == Token(Alphabetic, "z")) && tok.kind != SpecialBlack
  {
  }

  lemma OtherUnambiguous()
    ensures Unambiguous(OTHER_TOKENS)
  {
    forall j, k | 0 <= j < |OTHER_TOKENS| && 0 <= k < |OTHER_TOKENS| && OTHER_TOKENS[j].slice == OTHER_TOKENS[k].slice
      ensures j == k
    {
      assert OTHER_TOKENS[j].slice[0] == OTHER_TOKENS[k].slice[0];
    }
  }

  /** The first message has its white token as its only anchor. */
  lemma MixtureAnchors()
    ensures var all := [MIXTURE_TOKENS, OTHER_TOKENS];
      && Unambiguous(all[0]) && Inseparable(all, WORDS, all[0])
      && KeptTokens(all, WORDS, all[0]) - Anchors.OfKind(all[0], SpecialBlack) == {Token(SpecialWhite, WHITE)}
  {
    hide Kept, Together;
    var all := [MIXTURE_TOKENS, OTHER_TOKENS];
    assert |WHITE| == 4 && |BLACK| == 2;
    forall tok: Token
      ensures tok in all[0] <==> tok == Token(SpecialBlack, BLACK) || tok == Token(SpecialWhite, WHITE)
      ensures Kept(all, WORDS, tok.slice) <==> tok.slice == WHITE || tok.slice == "z"
      ensures Together(all, WORDS, tok.slice, tok.slice)
    {
      MixtureMembers(tok);
      KeptWhich(tok.slice);
      SelfTogether(all, WORDS, tok.slice);
    }
  }

  lemma OtherAnchors()
    ensures var all := [MIXTURE_TOKENS, OTHER_TOKENS];
      && Inseparable(all, WORDS, all[1])
      && KeptTokens(all, WORDS, all[1]) - Anchors.OfKind(all[1], SpecialBlack) == {Token(Alphabetic, "z")}
  {
    hide Kept, Together;
    var all := [MIXTURE_TOKENS, OTHER_TOKENS];
    assert |WHITE| == 4 && OTHER_TOKENS[4] == Token(Alphabetic, "z");
    forall tok: Token | tok in all[1]
      ensures |tok.slice| == 1 && (tok.slice == "z" ==> tok == Token(Alphabetic, "z")) && tok.kind != SpecialBlack
      ensures Kept(all, WORDS, tok.slice) <==> tok.slice == "z"
      ensures Together(all, WORDS, tok.slice, tok.slice)
    {
      OtherMembers(tok);
      KeptWhich(tok.slice);
      SelfTogether(all, WORDS, tok.slice);
    }
    KeptWhich("z");
  }

  lemma SpecialAnchors(cfg: Parser.Config, run: Parser.Run, messages: seq<Str>)
    requires Parser.ConfigOk(cfg) && Special(cfg) && messages == [MIXTURE, OTHER] && Parser.PrimaryOk(cfg, messages, run)
    ensures |run.rowOf| == 2
    ensures Parser.AnchorsAt(cfg, run, 0) == {Token(SpecialWhite, WHITE)}
    ensures Parser.AnchorsAt(cfg, run, 1) == {Token(Alphabetic, "z")}
  {
    hide *;
    SpecialMeans(cfg);
    SpecialLists(cfg);
    MixtureAnchors();
    OtherAnchors();
    OtherUnambiguous();
    InseparableAnchors(cfg, messages, run, 0);
    InseparableAnchors(cfg, messages, run, 1);
  }

  lemma SpecialMeans(cfg: Parser.Config)
    requires Special(cfg)
    ensures cfg.filter == WORDS && cfg.threshold < 1.0 && cfg.patternSample >= 1.0
  {
  }

  lemma NoNuls()
    ensures NUL !in MIXTURE && NUL !in OTHER && MIXTURE != OTHER && |MIXTURE| == 6 && |OTHER| == 5
    ensures {Token(SpecialWhite, WHITE)} != {Token(Alphabetic, "z")}
  {
    assert Token(SpecialWhite, WHITE) !in {Token(Alphabetic, "z")};
  }

  /** The two messages are in clusters of their own. */
  lemma SpecialClusters(cfg: Parser.Config, t: Corpus, run: Parser.Run, clusters: seq<int>, sets: seq<seq<Str>>)
    requires Parser.ConfigOk(cfg) && Special(cfg) && ParsedCorpus(cfg, t, run, clusters, sets)
    requires t.messages == [MIXTURE, OTHER]
    ensures |clusters| == |t.masks| == 2 && clusters[0] != -1 && clusters[1] != -1 && clusters[0] != clusters[1]
  {
    ParsedRows(cfg, t, run, clusters, sets);
    NoNuls();
    assert Parser.PrimaryOk(cfg, t.messages, run) && |t.masks| == 2;
    hide *;
    SpecialAnchors(cfg, run, t.messages);
    AnchorlessUnclustered(cfg, t, run, clusters, sets, 0);
    AnchorlessUnclustered(cfg, t, run, clusters, sets, 1);
    Parser.NulFreeClusters(cfg, t.messages, run, clusters, sets, t.masks, true, true, 0, 1);
    Parser.ClustersOfMessages(cfg, t.messages, run, clusters, sets, t.masks, true, true);
    AtLeastMinusOne(clusters, run, cfg, 0);
  }

  lemma AtLeastMinusOne(clusters: seq<int>, run: Parser.Run, cfg: Parser.Config, i: nat)
    requires RowsOk(run.rows, |run.record.occ|) && RowsBelow(run.rowOf, |Parser.RunSets(cfg, run)|)
    requires ClassesByKey(clusters, NextID(run.groups, |run.groups|), Parser.RunSets(cfg, run), run.rowOf)
    requires i < |run.rowOf|
    ensures |clusters| == |run.rowOf| && clusters[i] >= -1
  {
  }

  // --------------------------------------------------------------- renderings

  const TAIL: Str := "*>z"
  const HEAD: Str := "<"
  const SHORT_FORM: Str := "<*>z"
  const LONG_FORM: Str := "<<*>*>z"

  lemma MixtureParameter()
    ensures !CandidateIn(MIXTURE_TOKENS, WORDS, BLACK) && CommonCandidate(MIXTURE_TOKENS[1], WORDS)
    ensures MIXTURE_TOKENS[0].slice == BLACK && MIXTURE_TOKENS[1].slice == WHITE && |MIXTURE_TOKENS| == 2
  {
    assert |BLACK| != |WHITE|;
  }

  lemma MixtureCut()
    ensures CutBy(MIXTURE_TOKENS, MIXTURE_TOKENS, WORDS) == Cut.Cut([[], WHITE], [BLACK])
  {
    var toks := MIXTURE_TOKENS;
    MixtureParameter();
    hide CandidateIn, CommonCandidate, CutBy;
    IsCandidate(toks, WORDS, 1, WHITE);
    CutAtParameter(toks, toks, WORDS, 0);
    assert toks[..0] == [] && toks[1..] == [Token(SpecialWhite, WHITE)];
    OneText(Token(SpecialWhite, WHITE));
  }

  lemma OtherParameter()
    ensures !CandidateIn(OTHER_TOKENS, WORDS, "1")
    ensures forall j :: 0 <= j < |OTHER_TOKENS| && j != 1 ==> CommonCandidate(OTHER_TOKENS[j], WORDS)
    ensures OTHER_TOKENS[1].slice == "1" && |OTHER_TOKENS| == 5
  {
  }

  lemma TailText()
    ensures TextOf([Token(Symbolic, "*"), Token(Symbolic, ">"), Token(Alphabetic, "z")]) == TAIL
  {
    var toks := [Token(Symbolic, "*"), Token(Symbolic, ">"), Token(Alphabetic, "z")];
    assert toks[1..] == [Token(Symbolic, ">"), Token(Alphabetic, "z")] && toks[1..][1..] == [Token(Alphabetic, "z")];
    OneText(Token(Alphabetic, "z"));
  }

  lemma OtherCut()
    ensures CutBy(OTHER_TOKENS, OTHER_TOKENS, WORDS) == Cut.Cut([HEAD, TAIL], ["1"])
  {
    var toks := OTHER_TOKENS;
    OtherParameter();
    hide CandidateIn, CommonCandidate, CutBy;
    forall j | 0 <= j < |toks| && j != 1 ensures CandidateIn(toks, WORDS, toks[j].slice) {
      IsCandidate(toks, WORDS, j, toks[j].slice);
    }
    CutAtParameter(toks, toks, WORDS, 1);
    assert toks[..1] == [Token(Symbolic, "<")];
    assert toks[2..] == [Token(Symbolic, "*"), Token(Symbolic, ">"), Token(Alphabetic, "z")];
    OneText(Token(Symbolic, "<"));
    TailText();
  }

  lemma HeadTailFree()
    ensures Free(HEAD) && Free(TAIL) && Free("z") && AllFree([HEAD, TAIL]) && !AllFree([[], WHITE])
  {
    assert WHITE[0..3] == PLACEHOLDER;
    assert OccursAt(WHITE, PLACEHOLDER, 0);
    assert [[], WHITE][1] == WHITE;
    assert TAIL[0..3][0] != PLACEHOLDER[0];
    forall k ensures !OccursAt(TAIL, PLACEHOLDER, k) {
      if 0 <= k && k + 3 <= |TAIL| {
        assert k == 0;
      }
    }
  }

  lemma JoinTwo(a: Str, b: Str)
    ensures Join([a, b]) == a + PLACEHOLDER + b
  {
    var parts := [a, b];
    assert parts[1..] == [b];
  }

  lemma Forms()
    ensures Join([[], WHITE]) == REPEAT + "z" && Join([HEAD, TAIL]) == LONG_FORM
    ensures Matcher.NormalForm(REPEAT + "z") == SHORT_FORM && Matcher.NormalForm(LONG_FORM) == LONG_FORM
    ensures Split(LONG_FORM) == [HEAD, TAIL] && Split(SHORT_FORM) == [[], "z"]
  {
    JoinTwo([], WHITE);
    JoinTwo(HEAD, TAIL);
    JoinTwo([], "z");
    HeadTailFree();
    EmptyIsFree([]);
    assert [] + PLACEHOLDER + WHITE == REPEAT + "z" && HEAD + PLACEHOLDER + TAIL == LONG_FORM;
    assert [] + PLACEHOLDER + "z" == SHORT_FORM;
    assert AllFree([[], "z"]);
    NormalTemplate([HEAD, TAIL]);
    SplitJoin([HEAD, TAIL]);
    SplitJoin([[], "z"]);
    RepeatedForm();
  }

  lemma RepeatedForm()
    requires Split(SHORT_FORM) == [[], "z"]
    ensures Matcher.NormalForm(REPEAT + "z") == SHORT_FORM
  {
    var none: Str := [];
    HeadTailFree();
    SplitRepeat(none, "z");
    assert none + REPEAT + "z" == REPEAT + "z";
    SplitOneIff(none);
    SplitOneIff("z");
    JoinSplit(none);
    JoinSplit("z");
    EmptyIsFree(none);
    var parts: seq<Str> := [none, none, "z"];
    assert Split(none) == [none] && Split("z") == ["z"];
    assert Split(REPEAT + "z") == parts;
    assert parts[1..2] == [none] && NonEmpty([none]) == [];
    assert Squeezed(parts) == [none, "z"];
    JoinTwo(none, "z");
    assert none + PLACEHOLDER + "z" == SHORT_FORM;
  }

  // ---------------------------------------------------------------- the table

  lemma {:induction false} OnlyFlattened(sets: seq<seq<Str>>, x: Str) returns (c: nat)
    requires x in Matcher.Flattened(sets)
    ensures c < |sets| && x in sets[c]
  {
    var n := |sets| - 1;
    if x in Matcher.Flattened(sets[..n]) {
      c := OnlyFlattened(sets[..n], x);
    } else {
      c := n;
    }
  }

  lemma {:induction false} OnlyKept(raws: seq<Str>, k: nat, x: Str) returns (i: nat)
    requires k <= |raws| && x in Matcher.KeptUpTo(raws, k)
    ensures i < k && Matcher.NormalForm(raws[i]) == x
  {
    hide Matcher.NormalForm;
    if x in Matcher.KeptUpTo(raws, k - 1) {
      i := OnlyKept(raws, k - 1, x);
    } else {
      i := k - 1;
    }
  }

  /** Every template of the table is the normal form of a cluster's template. */
  lemma TableFromSets(byID: seq<Compiled>, sets: seq<seq<Str>>, id: nat) returns (c: nat, raw: Str)
    requires Matcher.TableOf(byID, Matcher.Kept(Matcher.Flattened(sets))) && id < |byID|
    ensures c < |sets| && raw in sets[c] && byID[id].template == Matcher.NormalForm(raw)
  {
    hide Matcher.NormalForm;
    var flat := Matcher.Flattened(sets);
    var kept := Matcher.Kept(flat);
    assert byID[id].template == kept[id];
    var i := OnlyKept(flat, |flat|, kept[id]);
    raw := flat[i];
    c := OnlyFlattened(sets, raw);
  }

  /** Two clusters with one template each: the table has no other normal forms. */
  lemma TwoForms(byID: seq<Compiled>, sets: seq<seq<Str>>, a: Str, b: Str, c: nat, d: nat, id: nat)
    requires Matcher.TableOf(byID, Matcher.Kept(Matcher.Flattened(sets))) && id < |byID|
    requires |sets| == 2 && c < 2 && d < 2 && c != d && sets[c] == [a] && sets[d] == [b]
    ensures byID[id].template == Matcher.NormalForm(a) || byID[id].template == Matcher.NormalForm(b)
  {
    hide Matcher.NormalForm, Matcher.TableOf, Matcher.Flattened, Matcher.Kept;
    var e, raw := TableFromSets(byID, sets, id);
    assert e == c || e == d;
  }

  lemma TwoClusters(cfg: Parser.Config, t: Corpus, run: Parser.Run, clusters: seq<int>, sets: seq<seq<Str>>)
    requires Parser.ConfigOk(cfg) && ParsedCorpus(cfg, t, run, clusters, sets)
    requires |t.messages| == |clusters| == 2 && clusters[0] != clusters[1] && clusters[0] != -1 && clusters[1] != -1
    ensures |sets| == 2 && 0 <= clusters[0] < 2 && 0 <= clusters[1] < 2
  {
    hide Anchors.AnchorSpec, GroupsOk, KeyOfSet, CorpusOk, Parser.ParseOk;
    Parser.ClustersOfMessages(cfg, t.messages, run, clusters, sets, t.masks, true, true);
    var count := NextID(run.groups, |run.groups|);
    assert (0 < count ==> 0 in clusters) && (1 < count ==> 1 in clusters) && (2 < count ==> 2 in clusters);
  }

  lemma LongHits()
    ensures MatchOf([HEAD, TAIL], MIXTURE).Some? && Fill([HEAD, TAIL], [BLACK]) == MIXTURE
    ensures TotalLen([HEAD, TAIL]) == 4 && TotalLen([[], "z"]) == 1 && SHORT_FORM != LONG_FORM && LONG_FORM != PLACEHOLDER
  {
    var parts, msg: Str, rest: Str := [HEAD, TAIL], MIXTURE, "<<*>z";
    var none: Str := [];
    var short := [none, "z"];
    assert parts[1..] == [TAIL] && [TAIL][1..] == [] && short[1..] == ["z"] && ["z"][1..] == [];
    assert TotalLen([TAIL]) == 3 && TotalLen(["z"]) == 1;
    assert msg[..1] == HEAD && msg[1..] == rest;
    assert rest[2..] == TAIL;
    assert HasSuffix(rest, TAIL);
    assert Scan([TAIL], rest).Some?;
    assert [BLACK][1..] == [];
    assert HEAD + (BLACK + TAIL) == MIXTURE;
  }

  /** The longer template is the best match for the first message. */
  lemma LongIsBest(byID: seq<Compiled>, id: nat)
    requires MatcherSpec.Table(byID) && id < |byID| && byID[id] == CompiledFor(id, LONG_FORM)
    requires forall j :: 0 <= j < |byID| ==> byID[j].template == LONG_FORM || byID[j].template == SHORT_FORM
    ensures Matcher.AnswerOf(byID, MIXTURE) == id
  {
    Forms();
    LongHits();
    hide Split, MatchOf, TotalLen;
    assert MatcherSpec.Candidate(byID, MIXTURE, id);
    forall j | MatcherSpec.Candidate(byID, MIXTURE, j) && j != id ensures MatcherSpec.Better(byID[id], byID[j]) {
      MatcherSpec.DistinctTemplates(byID, id, j);
      assert byID[j] == CompiledFor(j, SHORT_FORM);
    }
    hide MatcherSpec.Candidate, MatcherSpec.Better;
    assert MatcherSpec.Best(byID, MIXTURE, id);
    Matcher.AnswerOfIs(byID, MIXTURE, id);
  }

  /** What the parse gives for the two messages. */
  lemma SpecialRendered(cfg: Parser.Config, t: Corpus, run: Parser.Run, clusters: seq<int>, sets: seq<seq<Str>>)
    requires Parser.ConfigOk(cfg) && Special(cfg) && ParsedCorpus(cfg, t, run, clusters, sets)
    requires t.messages == [MIXTURE, OTHER]
    ensures |clusters| == |t.masks| == 2 && clusters[0] != -1 && clusters[1] != -1 && clusters[0] != clusters[1]
    ensures RenderedLike(cfg, t, clusters, sets, 0, 0) && RenderedLike(cfg, t, clusters, sets, 1, 1)
  {
    hide *;
    NoNuls();
    SpecialMeans(cfg);
    SpecialClusters(cfg, t, run, clusters, sets);
    MixtureTokens(cfg);
    OtherTokens(cfg);
    CopiesRendered(cfg, t, run, clusters, sets, 0);
    CopiesRendered(cfg, t, run, clusters, sets, 1);
  }

  lemma FormOf(cfg: Parser.Config, t: Corpus, clusters: seq<int>, sets: seq<seq<Str>>, i: nat, toks: seq<Token>,
      parts: seq<Str>, args: seq<Str>)
    requires Parser.ConfigOk(cfg) && i < |t.messages| == |clusters| == |t.masks|
    requires RenderedLike(cfg, t, clusters, sets, i, i)
    requires Parser.RichTokens(cfg, t.messages[i]) == toks && CutBy(toks, toks, cfg.filter) == Cut.Cut(parts, args)
    ensures |t.masks[i]| == |t.messages[i]| && parts != []
    ensures StoredAt(t, i) == Rendering(Join(parts), args) && (FreeAt(t, i) <==> AllFree(parts))
    ensures 0 <= clusters[i] < |sets| && sets[clusters[i]] == [Join(parts)]
  {
    hide MaskCut, CutBy, AllFree, Join, Parser.RichTokens, Stored;
  }

  lemma MixtureForm(cfg: Parser.Config, t: Corpus, clusters: seq<int>, sets: seq<seq<Str>>)
    requires Parser.ConfigOk(cfg) && Special(cfg) && |t.messages| == |clusters| == |t.masks| == 2
    requires t.messages[0] == MIXTURE && RenderedLike(cfg, t, clusters, sets, 0, 0)
    ensures |t.masks[0]| == |t.messages[0]| && StoredAt(t, 0) == Rendering(REPEAT + "z", [BLACK]) && !FreeAt(t, 0)
    ensures 0 <= clusters[0] < |sets| && sets[clusters[0]] == [REPEAT + "z"]
  {
    hide *;
    SpecialMeans(cfg);
    MixtureTokens(cfg);
    MixtureCut();
    Forms();
    HeadTailFree();
    FormOf(cfg, t, clusters, sets, 0, MIXTURE_TOKENS, [[], WHITE], [BLACK]);
  }

  lemma OtherForm(cfg: Parser.Config, t: Corpus, clusters: seq<int>, sets: seq<seq<Str>>)
    requires Parser.ConfigOk(cfg) && Special(cfg) && |t.messages| == |clusters| == |t.masks| == 2
    requires t.messages[1] == OTHER && RenderedLike(cfg, t, clusters, sets, 1, 1)
    ensures |t.masks[1]| == |t.messages[1]| && StoredAt(t, 1) == Rendering(LONG_FORM, ["1"]) && FreeAt(t, 1)
    ensures 0 <= clusters[1] < |sets| && sets[clusters[1]] == [LONG_FORM]
  {
    hide *;
    SpecialMeans(cfg);
    OtherTokens(cfg);
    OtherCut();
    Forms();
    HeadTailFree();
    FormOf(cfg, t, clusters, sets, 1, OTHER_TOKENS, [HEAD, TAIL], ["1"]);
  }

  /** The renderings of the two messages, and the templates of their clusters. */
  ghost predicate SpecialOutcome(t: Corpus, clusters: seq<int>, sets: seq<seq<Str>>) {
    && |t.messages| == |clusters| == |t.masks| == |sets| == 2
    && |t.masks[0]| == |t.messages[0]| && |t.masks[1]| == |t.messages[1]|
    && StoredAt(t, 0) == Rendering(REPEAT + "z", [BLACK]) && !FreeAt(t, 0)
    && StoredAt(t, 1) == Rendering(LONG_FORM, ["1"]) && FreeAt(t, 1)
    && 0 <= clusters[0] < 2 && 0 <= clusters[1] < 2 && clusters[0] != clusters[1]
    && sets[clusters[0]] == [REPEAT + "z"] && sets[clusters[1]] == [LONG_FORM]
  }

  lemma SpecialForms(cfg: Parser.Config, t: Corpus, run: Parser.Run, clusters: seq<int>, sets: seq<seq<Str>>)
    requires Parser.ConfigOk(cfg) && Special(cfg) && ParsedCorpus(cfg, t, run, clusters, sets)
    requires t.messages == [MIXTURE, OTHER]
    ensures SpecialOutcome(t, clusters, sets)
  {
    hide *;
    SpecialRendered(cfg, t, run, clusters, sets);
    TwoClusters(cfg, t, run, clusters, sets);
    MixtureForm(cfg, t, clusters, sets);
    OtherForm(cfg, t, clusters, sets);
    OutcomeIs(t, clusters, sets);
  }

  lemma OutcomeIs(t: Corpus, clusters: seq<int>, sets: seq<seq<Str>>)
    requires |t.messages| == |clusters| == |t.masks| == |sets| == 2
    requires |t.masks[0]| == |t.messages[0]| && |t.masks[1]| == |t.messages[1]|
    requires StoredAt(t, 0) == Rendering(REPEAT + "z", [BLACK]) && !FreeAt(t, 0)
    requires StoredAt(t, 1) == Rendering(LONG_FORM, ["1"]) && FreeAt(t, 1)
    requires 0 <= clusters[0] < 2 && 0 <= clusters[1] < 2 && clusters[0] != clusters[1]
    requires sets[clusters[0]] == [REPEAT + "z"] && sets[clusters[1]] == [LONG_FORM]
    ensures SpecialOutcome(t, clusters, sets)
  {
    hide Stored, LiteralsFree;
  }

  lemma SpecialTable(cfg: Parser.Config, t: Corpus, run: Parser.Run, clusters: seq<int>, sets: seq<seq<Str>>)
    requires Parser.ConfigOk(cfg) && ParsedCorpus(cfg, t, run, clusters, sets) && SpecialOutcome(t, clusters, sets)
    ensures forall id :: 0 <= id < |t.byID| ==> t.byID[id].template == LONG_FORM || t.byID[id].template == SHORT_FORM
  {
    Forms();
    hide Parser.ParseOk, Matcher.TableOf, Matcher.Flattened, CorpusOk, Join, Split, Matcher.NormalForm, Matcher.Kept;
    hide Stored, LiteralsFree;
    forall id: nat | id < |t.byID| ensures t.byID[id].template == LONG_FORM || t.byID[id].template == SHORT_FORM {
      TwoForms(t.byID, sets, REPEAT + "z", LONG_FORM, clusters[0], clusters[1], id);
    }
  }

  /** The first message is stored with the other cluster's template, its own being unknown. */
  lemma MixtureChosen(t: Corpus, id: nat)
    requires CorpusOk(t) && t.messages == [MIXTURE, OTHER] && |t.masks[0]| == |t.messages[0]|
    requires id < |t.byID| && t.byID[id] == CompiledFor(id, LONG_FORM)
    requires forall j :: 0 <= j < |t.byID| ==> t.byID[j].template == LONG_FORM || t.byID[j].template == SHORT_FORM
    requires StoredAt(t, 0) == Rendering(REPEAT + "z", [BLACK])
    ensures ChosenAt(t, 0) == LONG_FORM
  {
    LongIsBest(t.byID, id);
    KnownAtStart(t);
    OwnIsUnknown();
    hide MatcherSpec.Table, Stored, Matcher.AnswerOf;
    assert REPEAT + "z" !in TableTemplates(t.byID);
    assert t.byID[id].template == LONG_FORM;
  }

  lemma OwnIsUnknown()
    ensures REPEAT + "z" != LONG_FORM && REPEAT + "z" != SHORT_FORM
  {
    assert (REPEAT + "z")[1] == '*' && LONG_FORM[1] == '<' && |REPEAT + "z"| == 7;
  }

  /** The message comes back although a literal run of it is the placeholder's text. */
  lemma MixtureRoundTrips(codec: Codec, t: Corpus)
    requires |t.masks| == |t.messages| && t.messages == [MIXTURE, OTHER] && Trained(codec, t)
    requires StoredAt(t, 0) == Rendering(REPEAT + "z", [BLACK]) && ChosenAt(t, 0) == LONG_FORM
    ensures RoundTrips(codec, MIXTURE)
  {
    hide ChosenAt, Stored, Trained, RoundTrips;
    Forms();
    LongHits();
    EntryMeaning(codec, t, 0);
  }

  /** With special patterns a message can come back although its literals are not free. */
  lemma SpecialRoundTrips(cfg: Parser.Config, codec: Codec, t: Corpus, run: Parser.Run, clusters: seq<int>,
      sets: seq<seq<Str>>)
    requires Parser.ConfigOk(cfg) && Special(cfg) && ParsedCorpus(cfg, t, run, clusters, sets)
    requires t.messages == [MIXTURE, OTHER] && |t.masks| == 2 && Trained(codec, t)
    ensures RoundTrips(codec, MIXTURE) && !FreeAt(t, 0) && !Alone(Parser.RichTokens(cfg, MIXTURE))
  {
    hide *;
    SpecialMeans(cfg);
    SpecialForms(cfg, t, run, clusters, sets);
    SpecialTable(cfg, t, run, clusters, sets);
    OutcomeMeans(t, clusters, sets);
    var id := OwnTemplateInTable(cfg, t, run, clusters, sets, 1);
    ParsedIsOk(cfg, t, run, clusters, sets);
    MixtureChosen(t, id);
    MixtureRoundTrips(codec, t);
    MixtureTokens(cfg);
    NotAlone();
  }

  lemma OutcomeMeans(t: Corpus, clusters: seq<int>, sets: seq<seq<Str>>)
    requires SpecialOutcome(t, clusters, sets)
    ensures |t.messages| == |clusters| == |t.masks| == 2 && clusters[1] != -1
    ensures |t.masks[0]| == |t.messages[0]| && |t.masks[1]| == |t.messages[1]| && !FreeAt(t, 0) && FreeAt(t, 1)
    ensures StoredAt(t, 0) == Rendering(REPEAT + "z", [BLACK]) && StoredAt(t, 1).template == LONG_FORM
  {
    hide Stored, LiteralsFree;
  }

  lemma ParsedIsOk(cfg: Parser.Config, t: Corpus, run: Parser.Run, clusters: seq<int>, sets: seq<seq<Str>>)
    requires Parser.ConfigOk(cfg) && ParsedCorpus(cfg, t, run, clusters, sets)
    ensures CorpusOk(t)
  {
  }

  lemma NotAlone()
    ensures !Alone(MIXTURE_TOKENS)
  {
    var c: Byte := '<';
    assert InPlaceholder(c) && BLACK[0] == c && c in MIXTURE_TOKENS[0].slice && |MIXTURE_TOKENS[0].slice| == 2;
    assert MIXTURE_TOKENS[0].slice != [c];
  }

  /** Training on ["<<<*>z", "<1*>z"] and decoding the first message gives it back. */
  method SpecialDecode(cfg: Parser.Config) returns (message: Str, ok: bool, ghost t: Corpus)
    requires Parser.ConfigOk(cfg) && Special(cfg)
    ensures ok && message == MIXTURE
    ensures t.messages == [MIXTURE, OTHER] && |t.masks| == 2 && !FreeAt(t, 0)
  {
    hide *;
    TwoBytes(MIXTURE, OTHER, OTHER);
    NoNuls();
    SpecialSizes();
    var codec;
    ghost var run, clusters, sets;
    message, ok, codec, t, run, clusters, sets := TrainAndDecode(cfg, [MIXTURE, OTHER], MIXTURE);
    SpecialRoundTrips(cfg, codec, t, run, clusters, sets);
    RoundTripDecodes(codec, MIXTURE);
  }

  lemma SpecialSizes()
    ensures Distinct([MIXTURE, OTHER]) && 22 <= UINT32 && 2 <= MAX_INT32 && MIXTURE in [MIXTURE, OTHER]
  {
    NoNuls();
  }

  lemma RoundTripDecodes(codec: Codec, msg: Str)
    requires RoundTrips(codec, msg)
    ensures Encode(codec, msg).Some?
    ensures Decoded(codec.templates, Encode(codec, msg).value.templateID, Encode(codec, msg).value.args) == Some(msg)
  {
  }
}
