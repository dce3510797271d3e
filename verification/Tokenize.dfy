/** Tokenizing a whole message: special tokens first, then the split at symbols
    and white space; and re-splitting an existing tokenization. */
module Tokenize {
  import opened Bytes
  import opened Unicode
  import opened Tokens
  import opened Splitting
  import opened SymbolTable
  import opened Tokenizer
  import opened TokenizeSimd
  import opened Specials

  /** A configured tokenizer. */
  datatype Lexer = Lexer(
    whites: seq<SpecialMatcher>,
    blacks: seq<SpecialMatcher>,
    lex: Lex,
    table: Table,
    simdTokenize: bool)

  ghost predicate MatchersOk(ms: seq<SpecialMatcher>) {
    forall i :: 0 <= i < |ms| ==> MatcherOk(ms[i])
  }

  /** The special patterns can be applied. */
  ghost predicate SpecialsOk(t: Lexer) {
    MatchersOk(t.whites) && MatchersOk(t.blacks)
  }

  ghost predicate LexerOk(t: Lexer) {
    SpecialsOk(t) && Represents(t.table, t.lex.symbols)
  }

  // ----------------------------------------------------------- specification

  ghost function SplitSpecial(msg: Str, m: SpecialMatcher, kind: PreKind): seq<PreToken>
    requires MatcherOk(m)
  {
    match m
    case Literal(text) => SplitLiteral(msg, text, kind)
    case Regex(find) => SplitRegex(msg, find, kind)
  }

  ghost function Refine(p: PreToken, m: SpecialMatcher, kind: PreKind): seq<PreToken>
    requires MatcherOk(m)
  {
    if p.kind == Unrefined then SplitSpecial(p.slice, m, kind) else [p]
  }

  /** One matcher applied to all pieces. */
  ghost function RefineAll(pre: seq<PreToken>, m: SpecialMatcher, kind: PreKind): seq<PreToken>
    requires MatcherOk(m)
  {
    if pre == [] then []
    else RefineAll(pre[..|pre| - 1], m, kind) + Refine(pre[|pre| - 1], m, kind)
  }

  /** The matchers applied one after the other. */
  ghost function Stages(pre: seq<PreToken>, ms: seq<SpecialMatcher>, kind: PreKind): seq<PreToken>
    requires MatchersOk(ms)
  {
    if ms == [] then pre else RefineAll(Stages(pre, ms[..|ms| - 1], kind), ms[|ms| - 1], kind)
  }

  ghost function PreTokens(t: Lexer, msg: Str): seq<PreToken>
    requires SpecialsOk(t)
  {
    Stages(Stages([PreToken(Unrefined, msg)], t.whites, White), t.blacks, Black)
  }

  ghost function TokensOfPiece(lex: Lex, p: PreToken): seq<Token> {
    match p.kind
    case White => [Token(SpecialWhite, p.slice)]
    case Black => [Token(SpecialBlack, p.slice)]
    case Unrefined => SplitOf(lex, p.slice)
  }

  ghost function TokensOf(lex: Lex, pre: seq<PreToken>): seq<Token> {
    if pre == [] then [] else TokensOf(lex, pre[..|pre| - 1]) + TokensOfPiece(lex, pre[|pre| - 1])
  }

  ghost function TokensIn(t: Lexer, msg: Str): seq<Token>
    requires SpecialsOk(t)
  {
    TokensOf(t.lex, PreTokens(t, msg))
  }

  // ------------------------------------------------------------- conservation

  /** The matcher drops part of the text of s. */
  ghost predicate Loses(m: SpecialMatcher, s: Str)
    requires MatcherOk(m)
  {
    m.Regex? && RegexLoses(s, m.find)
  }

  ghost predicate LosesIn(pre: seq<PreToken>, m: SpecialMatcher)
    requires MatcherOk(m)
  {
    exists i :: 0 <= i < |pre| && pre[i].kind == Unrefined && Loses(m, pre[i].slice)
  }

  ghost predicate StagesLose(pre: seq<PreToken>, ms: seq<SpecialMatcher>, kind: PreKind)
    requires MatchersOk(ms)
  {
    ms != [] &&
    (StagesLose(pre, ms[..|ms| - 1], kind) || LosesIn(Stages(pre, ms[..|ms| - 1], kind), ms[|ms| - 1]))
  }

  /** Some special pattern, when its turn comes, drops part of the message. */
  ghost predicate MessageLoses(t: Lexer, msg: Str)
    requires SpecialsOk(t)
  {
    || StagesLose([PreToken(Unrefined, msg)], t.whites, White)
    || StagesLose(Stages([PreToken(Unrefined, msg)], t.whites, White), t.blacks, Black)
  }

  /** `after` is `before` if nothing was lost and strictly shorter otherwise. */
  ghost predicate KeptOrLost(before: Str, after: Str, lost: bool) {
    if lost then |after| < |before| else after == before
  }

  ghost predicate SpecialsNonEmpty(pre: seq<PreToken>) {
    forall i :: 0 <= i < |pre| ==> pre[i].kind == Unrefined || pre[i].slice != []
  }

  lemma RefineText(p: PreToken, m: SpecialMatcher, kind: PreKind)
    requires MatcherOk(m)
    ensures KeptOrLost(p.slice, PreText(Refine(p, m, kind)), p.kind == Unrefined && Loses(m, p.slice))
  {
    if p.kind == Unrefined {
      match m
      case Literal(text) => LiteralSplitExact(p.slice, text, kind);
      case Regex(find) => RegexKeepsText(p.slice, find, kind);
    } else {
      assert [p][1..] == [];
    }
  }

  lemma PreTextSnoc(pre: seq<PreToken>)
    requires pre != []
    ensures PreText(pre) == PreText(pre[..|pre| - 1]) + pre[|pre| - 1].slice
  {
    var front, last := pre[..|pre| - 1], pre[|pre| - 1];
    PreTextOne(last);
    hide PreText;
    PreTextAppend(front, [last]);
    assert pre == front + [last];
  }

  lemma PreTextOne(p: PreToken)
    ensures PreText([p]) == p.slice
  {
    assert [p][1..] == [];
  }

  lemma {:induction false} RefineAllText(pre: seq<PreToken>, m: SpecialMatcher, kind: PreKind)
    requires MatcherOk(m)
    ensures KeptOrLost(PreText(pre), PreText(RefineAll(pre, m, kind)), LosesIn(pre, m))
  {
    if pre != [] {
      var front, last := pre[..|pre| - 1], pre[|pre| - 1];
      RefineAllText(front, m, kind);
      RefineText(last, m, kind);
      PreTextSnoc(pre);
      PreTextAppend(RefineAll(front, m, kind), Refine(last, m, kind));
      LosesInSnoc(pre, m);
    }
  }

  lemma LosesInSnoc(pre: seq<PreToken>, m: SpecialMatcher)
    requires MatcherOk(m) && pre != []
    ensures var last := pre[|pre| - 1];
      LosesIn(pre, m) <==> LosesIn(pre[..|pre| - 1], m) || (last.kind == Unrefined && Loses(m, last.slice))
  {
    var front := pre[..|pre| - 1];
    assert forall i :: 0 <= i < |front| ==> front[i] == pre[i];
    if LosesIn(front, m) {
      var i :| 0 <= i < |front| && front[i].kind == Unrefined && Loses(m, front[i].slice);
      assert pre[i].kind == Unrefined && Loses(m, pre[i].slice);
    }
  }

  lemma {:induction false} StagesText(pre: seq<PreToken>, ms: seq<SpecialMatcher>, kind: PreKind)
    requires MatchersOk(ms)
    ensures KeptOrLost(PreText(pre), PreText(Stages(pre, ms, kind)), StagesLose(pre, ms, kind))
  {
    if ms != [] {
      StagesText(pre, ms[..|ms| - 1], kind);
      RefineAllText(Stages(pre, ms[..|ms| - 1], kind), ms[|ms| - 1], kind);
    }
  }

  lemma {:induction false} TokensOfText(lex: Lex, pre: seq<PreToken>)
    ensures TextOf(TokensOf(lex, pre)) == PreText(pre)
  {
    if pre != [] {
      var front, last := pre[..|pre| - 1], pre[|pre| - 1];
      TokensOfText(lex, front);
      PreTextSnoc(pre);
      TextAppend(TokensOf(lex, front), TokensOfPiece(lex, last));
      if last.kind == Unrefined {
        SplitOfText(lex, last.slice);
      } else {
        assert TokensOfPiece(lex, last)[1..] == [];
      }
    }
  }

  /** The tokens concatenate to the message exactly when no special pattern loses
      text; otherwise they are strictly shorter. */
  lemma TokenizeKeepsText(t: Lexer, msg: Str)
    requires SpecialsOk(t)
    ensures KeptOrLost(msg, TextOf(TokensIn(t, msg)), MessageLoses(t, msg))
  {
    var whole := [PreToken(Unrefined, msg)];
    hide Stages, StagesLose, TokensOf, TextOf, MatchersOk, Represents;
    PreTextSnoc(whole);
    assert whole[..0] == [] && PreText(whole) == msg;
    StagesText(whole, t.whites, White);
    StagesText(Stages(whole, t.whites, White), t.blacks, Black);
    TokensOfText(t.lex, PreTokens(t, msg));
  }

  /** A literal, or a pattern that never matches the empty string. */
  ghost predicate MatchesNonEmpty(m: SpecialMatcher) {
    m.Regex? ==> NonEmptyFinder(m.find)
  }

  ghost predicate AllMatchNonEmpty(ms: seq<SpecialMatcher>) {
    forall i :: 0 <= i < |ms| ==> MatchesNonEmpty(ms[i])
  }

  lemma {:induction false} StagesLoseNothing(pre: seq<PreToken>, ms: seq<SpecialMatcher>, kind: PreKind)
    requires MatchersOk(ms) && AllMatchNonEmpty(ms)
    ensures !StagesLose(pre, ms, kind)
  {
    if ms != [] {
      StagesLoseNothing(pre, ms[..|ms| - 1], kind);
      var m := ms[|ms| - 1];
      forall s: Str ensures !Loses(m, s) {
        if m.Regex? { NonEmptyNeverSkips(s, m.find, 0); }
      }
    }
  }

  /** If no special pattern matches the empty string, the tokens of every message
      concatenate to it. */
  lemma NonEmptyPatternsKeepText(t: Lexer, msg: Str)
    requires SpecialsOk(t) && AllMatchNonEmpty(t.whites) && AllMatchNonEmpty(t.blacks)
    ensures TextOf(TokensIn(t, msg)) == msg
  {
    var whole := [PreToken(Unrefined, msg)];
    StagesLoseNothing(whole, t.whites, White);
    StagesLoseNothing(Stages(whole, t.whites, White), t.blacks, Black);
    hide TokensIn, Stages, StagesLose, TextOf;
    TokenizeKeepsText(t, msg);
  }

  // ---------------------------------------------------- tokens are message text

  /** s has no other bytes than text. */
  ghost predicate BytesOf(s: Str, text: Str) {
    forall c :: c in s ==> c in text
  }

  ghost predicate PiecesOf(pre: seq<PreToken>, text: Str) {
    forall i :: 0 <= i < |pre| ==> BytesOf(pre[i].slice, text)
  }

  lemma RangeBytes(s: Str, lo: nat, hi: nat, text: Str)
    requires lo <= hi <= |s| && BytesOf(s, text)
    ensures BytesOf(s[lo..hi], text) && BytesOf(s[lo..], text)
  {
  }

  lemma PiecesAppend(a: seq<PreToken>, b: seq<PreToken>, text: Str)
    requires PiecesOf(a, text) && PiecesOf(b, text)
    ensures PiecesOf(a + b, text)
  {
    hide BytesOf;
  }

  lemma CutPieces(msg: Str, text: Str, last: nat, start: nat, end: nat, kind: PreKind)
    requires last <= start <= end <= |msg| && BytesOf(msg, text)
    ensures PiecesOf(Rest(msg[last..start]) + [PreToken(kind, msg[start..end])], text)
  {
    RangeBytes(msg, last, start, text);
    RangeBytes(msg, start, end, text);
    hide BytesOf;
  }

  lemma RestPieces(msg: Str, text: Str, last: nat)
    requires last <= |msg| && BytesOf(msg, text)
    ensures PiecesOf(Rest(msg[last..]), text) && PiecesOf([PreToken(Unrefined, msg)], text)
  {
    RangeBytes(msg, last, last, text);
    hide BytesOf;
  }

  lemma {:induction false} LiteralBytes(msg: Str, literal: Str, kind: PreKind, last: nat, text: Str)
    requires literal != [] && last <= |msg| && BytesOf(msg, text)
    ensures PiecesOf(LiteralPieces(msg, literal, kind, last), text)
    decreases |msg| - last
  {
    hide BytesOf, PiecesOf, OccursAt, Rest;
    RestPieces(msg, text, last);
    var next := Index(msg[last..], literal);
    if next >= 0 {
      var start, end := last + next, last + next + |literal|;
      LiteralBytes(msg, literal, kind, end, text);
      CutPieces(msg, text, last, start, end, kind);
      PiecesAppend(Rest(msg[last..start]) + [PreToken(kind, msg[start..end])], LiteralPieces(msg, literal, kind, end), text);
    }
  }

  lemma {:induction false} RegexBytes(msg: Str, find: Finder, kind: PreKind, last: nat, matched: bool, text: Str)
    requires FinderOk(find) && last <= |msg| && BytesOf(msg, text)
    ensures PiecesOf(RegexPieces(msg, find, kind, last, matched), text)
    decreases |msg| - last
  {
    hide BytesOf, PiecesOf, StepAt, FinderOk, Rest;
    RestPieces(msg, text, last);
    match StepAt(msg, find, last)
    case Stop =>
    case Skip(to) => RegexBytes(msg, find, kind, to, matched, text);
    case Cut(start, end) =>
      RegexBytes(msg, find, kind, end, true, text);
      CutPieces(msg, text, last, start, end, kind);
      PiecesAppend(Rest(msg[last..start]) + [PreToken(kind, msg[start..end])], RegexPieces(msg, find, kind, end, true), text);
  }

  lemma RefineBytes(p: PreToken, m: SpecialMatcher, kind: PreKind, text: Str)
    requires MatcherOk(m) && BytesOf(p.slice, text)
    ensures PiecesOf(Refine(p, m, kind), text)
  {
    if p.kind == Unrefined {
      RestPieces(p.slice, text, 0);
      match m
      case Literal(literal) => LiteralBytes(p.slice, literal, kind, 0, text);
      case Regex(find) => RegexBytes(p.slice, find, kind, 0, false, text);
    }
  }

  lemma {:induction false} RefineAllBytes(pre: seq<PreToken>, m: SpecialMatcher, kind: PreKind, text: Str)
    requires MatcherOk(m) && PiecesOf(pre, text)
    ensures PiecesOf(RefineAll(pre, m, kind), text)
  {
    if pre != [] {
      RefineAllBytes(pre[..|pre| - 1], m, kind, text);
      RefineBytes(pre[|pre| - 1], m, kind, text);
      PiecesAppend(RefineAll(pre[..|pre| - 1], m, kind), Refine(pre[|pre| - 1], m, kind), text);
    }
  }

  lemma {:induction false} StagesBytes(pre: seq<PreToken>, ms: seq<SpecialMatcher>, kind: PreKind, text: Str)
    requires MatchersOk(ms) && PiecesOf(pre, text)
    ensures PiecesOf(Stages(pre, ms, kind), text)
  {
    if ms != [] {
      StagesBytes(pre, ms[..|ms| - 1], kind, text);
      RefineAllBytes(Stages(pre, ms[..|ms| - 1], kind), ms[|ms| - 1], kind, text);
    }
  }

  lemma {:induction false} TokenBytesInText(toks: seq<Token>, tok: Token)
    requires tok in toks
    ensures BytesOf(tok.slice, TextOf(toks))
  {
    if toks[0] != tok {
      TokenBytesInText(toks[1..], tok);
    }
  }

  lemma {:induction false} TokensOfBytes(lex: Lex, pre: seq<PreToken>, text: Str, tok: Token)
    requires PiecesOf(pre, text) && tok in TokensOf(lex, pre)
    ensures BytesOf(tok.slice, text)
  {
    var last := pre[|pre| - 1];
    if tok in TokensOf(lex, pre[..|pre| - 1]) {
      TokensOfBytes(lex, pre[..|pre| - 1], text, tok);
    } else if last.kind == Unrefined {
      SplitOfText(lex, last.slice);
      TokenBytesInText(SplitOf(lex, last.slice), tok);
    }
  }

  /** Tokens have no other bytes than the message. */
  lemma TokensAreMessageText(t: Lexer, msg: Str, tok: Token)
    requires SpecialsOk(t) && tok in TokensIn(t, msg)
    ensures BytesOf(tok.slice, msg)
  {
    var whole := [PreToken(Unrefined, msg)];
    StagesBytes(whole, t.whites, White, msg);
    StagesBytes(Stages(whole, t.whites, White), t.blacks, Black, msg);
    TokensOfBytes(t.lex, PreTokens(t, msg), msg, tok);
  }

  // --------------------------------------------------------- no empty tokens

  lemma {:induction false} RegexSpecials(msg: Str, find: Finder, kind: PreKind, last: nat, matched: bool)
    requires FinderOk(find) && last <= |msg| && kind != Unrefined
    ensures SpecialsNonEmpty(RegexPieces(msg, find, kind, last, matched))
    decreases |msg| - last
  {
    hide StepAt, FinderOk;
    match StepAt(msg, find, last)
    case Stop =>
    case Skip(to) => RegexSpecials(msg, find, kind, to, matched);
    case Cut(start, end) =>
      RegexSpecials(msg, find, kind, end, true);
      SpecialsAppend(Rest(msg[last..start]), [PreToken(kind, msg[start..end])]);
      SpecialsAppend(Rest(msg[last..start]) + [PreToken(kind, msg[start..end])], RegexPieces(msg, find, kind, end, true));
  }

  lemma SpecialsAppend(a: seq<PreToken>, b: seq<PreToken>)
    requires SpecialsNonEmpty(a) && SpecialsNonEmpty(b)
    ensures SpecialsNonEmpty(a + b)
  {
  }

  lemma RefineSpecials(p: PreToken, m: SpecialMatcher, kind: PreKind)
    requires MatcherOk(m) && kind != Unrefined && SpecialsNonEmpty([p])
    ensures SpecialsNonEmpty(Refine(p, m, kind))
  {
    assert [p][0] == p;
    if p.kind == Unrefined {
      match m
      case Literal(text) =>
        LiteralSplitExact(p.slice, text, kind);
        var pieces := SplitLiteral(p.slice, text, kind);
        forall i | 0 <= i < |pieces| ensures pieces[i].kind == Unrefined || pieces[i].slice != [] {
          assert pieces[i] in pieces;
        }
      case Regex(find) =>
        RegexSpecials(p.slice, find, kind, 0, false);
    }
  }

  lemma {:induction false} RefineAllSpecials(pre: seq<PreToken>, m: SpecialMatcher, kind: PreKind)
    requires MatcherOk(m) && kind != Unrefined && SpecialsNonEmpty(pre)
    ensures SpecialsNonEmpty(RefineAll(pre, m, kind))
  {
    if pre != [] {
      RefineAllSpecials(pre[..|pre| - 1], m, kind);
      RefineSpecials(pre[|pre| - 1], m, kind);
      SpecialsAppend(RefineAll(pre[..|pre| - 1], m, kind), Refine(pre[|pre| - 1], m, kind));
    }
  }

  lemma {:induction false} StagesSpecials(pre: seq<PreToken>, ms: seq<SpecialMatcher>, kind: PreKind)
    requires MatchersOk(ms) && kind != Unrefined && SpecialsNonEmpty(pre)
    ensures SpecialsNonEmpty(Stages(pre, ms, kind))
  {
    if ms != [] {
      StagesSpecials(pre, ms[..|ms| - 1], kind);
      RefineAllSpecials(Stages(pre, ms[..|ms| - 1], kind), ms[|ms| - 1], kind);
    }
  }

  lemma NoneEmptyAppend(a: seq<Token>, b: seq<Token>)
    requires NoneEmpty(a) && NoneEmpty(b)
    ensures NoneEmpty(a + b)
  {
  }

  lemma {:induction false} TokensOfNoneEmpty(lex: Lex, pre: seq<PreToken>)
    requires SpecialsNonEmpty(pre)
    ensures NoneEmpty(TokensOf(lex, pre))
  {
    if pre != [] {
      var last := pre[|pre| - 1];
      TokensOfNoneEmpty(lex, pre[..|pre| - 1]);
      if last.kind == Unrefined {
        SplitOfText(lex, last.slice);
      }
      NoneEmptyAppend(TokensOf(lex, pre[..|pre| - 1]), TokensOfPiece(lex, last));
    }
  }

  /** No message has an empty token. */
  lemma TokenizeNoneEmpty(t: Lexer, msg: Str)
    requires SpecialsOk(t)
    ensures NoneEmpty(TokensIn(t, msg))
  {
    var whole := [PreToken(Unrefined, msg)];
    StagesSpecials(whole, t.whites, White);
    StagesSpecials(Stages(whole, t.whites, White), t.blacks, Black);
    TokensOfNoneEmpty(t.lex, PreTokens(t, msg));
  }

  // ----------------------------------------------------------------- methods

  method AppendSplitSpecial(dst0: seq<PreToken>, msg: Str, m: SpecialMatcher, kind: PreKind)
    returns (dst: seq<PreToken>)
    requires MatcherOk(m)
    ensures dst == dst0 + SplitSpecial(msg, m, kind)
  {
    match m
    case Literal(text) => dst := AppendSplitSpecialLiteral(dst0, msg, text, kind);
    case Regex(find) => dst := AppendSplitSpecialRegex(dst0, msg, find, kind);
  }

  /** The loop over the pieces for one matcher. */
  method RunStage(pre: seq<PreToken>, m: SpecialMatcher, kind: PreKind) returns (next: seq<PreToken>)
    requires MatcherOk(m)
    ensures next == RefineAll(pre, m, kind)
  {
    hide SplitSpecial;
    next := [];
    assert pre[..0] == [];
    for i := 0 to |pre|
      invariant next == RefineAll(pre[..i], m, kind)
    {
      assert pre[..i + 1][..i] == pre[..i];
      var p := pre[i];
      match p.kind
      case Unrefined => next := AppendSplitSpecial(next, p.slice, m, kind);
      case White => next := next + [p];
      case Black => next := next + [p];
    }
    assert pre[..|pre|] == pre;
  }

  /** The loop over the matchers of one kind. */
  method RunStages(pre0: seq<PreToken>, ms: seq<SpecialMatcher>, kind: PreKind) returns (pre: seq<PreToken>)
    requires MatchersOk(ms)
    ensures pre == Stages(pre0, ms, kind)
  {
    hide RefineAll, MatcherOk;
    pre := pre0;
    assert ms[..0] == [];
    for k := 0 to |ms|
      invariant MatchersOk(ms[..k]) && pre == Stages(pre0, ms[..k], kind)
    {
      assert ms[..k + 1][..k] == ms[..k];
      pre := RunStage(pre, ms[k], kind);
    }
    assert ms[..|ms|] == ms;
  }

  method PreTokenizeInto(t: Lexer, msg: Str) returns (pre: seq<PreToken>)
    requires LexerOk(t)
    ensures pre == PreTokens(t, msg)
  {
    pre := [PreToken(Unrefined, msg)];
    pre := RunStages(pre, t.whites, White);
    pre := RunStages(pre, t.blacks, Black);
  }

  lemma TokensSnoc(lex: Lex, pre: seq<PreToken>, i: nat)
    requires i < |pre|
    ensures TokensOf(lex, pre[..i + 1]) == TokensOf(lex, pre[..i]) + TokensOfPiece(lex, pre[i])
  {
    hide TokensOfPiece;
    assert pre[..i + 1][..i] == pre[..i];
  }

  lemma NoTokens(lex: Lex, pre: seq<PreToken>)
    ensures TokensOf(lex, pre[..0]) == [] && pre[..|pre|] == pre
  {
  }

  /** TokenizeInto */
  method TokenizeInto(t: Lexer, msg: Str) returns (out: seq<Token>)
    requires LexerOk(t)
    ensures out == TokensIn(t, msg)
  {
    var pre := PreTokenizeInto(t, msg);
    assert TokensIn(t, msg) == TokensOf(t.lex, pre);
    hide TokensOf, PreTokens, SplitOf, TokensIn, MatchersOk, Represents;
    out := [];
    if |pre| == 1 {
      TokensSnoc(t.lex, pre, 0);
      NoTokens(t.lex, pre);
      match pre[0].kind
      case White => return out + [Token(SpecialWhite, pre[0].slice)];
      case Black => return out + [Token(SpecialBlack, pre[0].slice)];
      case Unrefined =>
        out := AppendSplitToken(t.lex, out, pre[0].slice, t.table, t.simdTokenize);
        return;
    }
    NoTokens(t.lex, pre);
    for i := 0 to |pre|
      invariant out == TokensOf(t.lex, pre[..i])
    {
      TokensSnoc(t.lex, pre, i);
      var p := pre[i];
      match p.kind
      case White => out := out + [Token(SpecialWhite, p.slice)];
      case Black => out := out + [Token(SpecialBlack, p.slice)];
      case Unrefined => out := AppendSplitToken(t.lex, out, p.slice, t.table, t.simdTokenize);
    }
    assert pre[..|pre|] == pre;
  }

  // -------------------------------------------------------------- re-splitting

  /** Letters and digits are not split symbols. */
  ghost predicate Punctuation(lex: Lex) {
    forall c :: c in lex.symbols ==> !lex.tables.IsLetter(c) && !lex.tables.IsDigit(c)
  }

  /** `fine` has the same tables and at least the symbols of `coarse`. */
  ghost predicate Refines(fine: Lex, coarse: Lex) {
    fine.tables == coarse.tables && coarse.symbols <= fine.symbols && Punctuation(fine)
  }

  ghost function ResplitToken(fine: Lex, tok: Token): seq<Token> {
    if tok.kind == Impure then SplitOf(fine, tok.slice) else [tok]
  }

  /** Every impure token split again, all others kept. */
  ghost function Resplit(fine: Lex, toks: seq<Token>): seq<Token> {
    if toks == [] then [] else Resplit(fine, toks[..|toks| - 1]) + ResplitToken(fine, toks[|toks| - 1])
  }

  lemma {:induction false} ResplitAppend(fine: Lex, a: seq<Token>, b: seq<Token>)
    ensures Resplit(fine, a + b) == Resplit(fine, a) + Resplit(fine, b)
    decreases |b|
  {
    hide ResplitToken;
    if b == [] {
      assert a + b == a;
    } else {
      var front, last := b[..|b| - 1], b[|b| - 1];
      assert (a + b)[..|a + b| - 1] == a + front;
      ResplitAppend(fine, a, front);
    }
  }

  lemma ResplitCons(fine: Lex, tok: Token, rest: seq<Token>)
    ensures Resplit(fine, [tok] + rest) == ResplitToken(fine, tok) + Resplit(fine, rest)
  {
    ResplitAppend(fine, [tok], rest);
    assert [tok][..0] == [];
    assert Resplit(fine, [tok]) == ResplitToken(fine, tok);
  }

  /** An impure token of a coarse split: one stretch without coarse boundaries. */
  ghost predicate ImpureOk(coarse: Lex, tok: Token) {
    tok.kind == Impure ==>
      var rs := Runes(tok.slice);
      rs != [] && NoBoundary(coarse, rs) && !AllLetters(coarse, rs) && !AllDigits(coarse, rs)
  }

  /** Letters, digits and stretches without fine symbols survive re-splitting. */
  lemma StretchSurvives(fine: Lex, coarse: Lex, seg: seq<Rune>)
    requires Refines(fine, coarse) && seg != [] && NoBoundary(coarse, seg)
    requires AllLetters(coarse, seg) || AllDigits(coarse, seg) || forall i :: 0 <= i < |seg| ==> seg[i].code !in fine.symbols
    ensures SplitRunes(fine, seg) == [SegmentToken(coarse, seg)]
  {
    forall i | 0 <= i < |seg| ensures !IsBoundary(fine, seg[i]) {
      assert !IsBoundary(coarse, seg[i]);
    }
    SplitSegment(fine, seg, []);
    assert seg + [] == seg;
    SameKind(fine, coarse, seg);
  }

  lemma SameKind(fine: Lex, coarse: Lex, seg: seq<Rune>)
    requires fine.tables == coarse.tables
    ensures SegmentToken(fine, seg) == SegmentToken(coarse, seg)
  {
  }

  /** Re-splitting the first token of a coarse split gives the fine tokens of its runes. */
  lemma FirstResplits(fine: Lex, coarse: Lex, msg: Str)
    requires Refines(fine, coarse) && msg != []
    ensures var n := FirstLength(coarse, Runes(msg));
      && ResplitToken(fine, FirstToken(coarse, Runes(msg))) == SplitRunes(fine, Runes(msg)[..n])
      && ImpureOk(coarse, FirstToken(coarse, Runes(msg)))
  {
    var rs := Runes(msg);
    var n := FirstLength(coarse, rs);
    var seg := rs[..n];
    if IsBoundary(coarse, rs[0]) {
      SplitBoundary(fine, rs[0], []);
      assert seg == [rs[0]] + [];
      assert BoundaryToken(fine, rs[0]) == BoundaryToken(coarse, rs[0]);
    } else {
      RunesCut(msg, n);
      assert NoBoundary(coarse, seg);
      hide Runes, IsBoundary, SplitRunes, Flat;
      if SegmentKind(coarse, seg) != Impure {
        StretchSurvives(fine, coarse, seg);
      }
    }
  }

  /** The fine split can be cut behind the first coarse token. */
  lemma FineSplitsAfterFirst(fine: Lex, coarse: Lex, rs: seq<Rune>)
    requires Refines(fine, coarse) && rs != []
    ensures var n := FirstLength(coarse, rs);
      SplitRunes(fine, rs) == SplitRunes(fine, rs[..n]) + SplitRunes(fine, rs[n..])
  {
    var n := FirstLength(coarse, rs);
    assert rs == rs[..n] + rs[n..];
    if IsBoundary(coarse, rs[0]) {
      assert rs[..1] == [rs[0]] + [] && rs[..1] == [rs[0]];
      SplitBoundary(fine, rs[0], []);
      SplitBoundary(fine, rs[0], rs[1..]);
    } else {
      SplitAtBoundary(fine, rs[..n], rs[n..]);
    }
  }

  /** Re-splitting the coarse split of a piece gives its fine split, and its
      impure tokens are stretches without coarse boundaries. */
  lemma {:induction false} ResplitPiece(fine: Lex, coarse: Lex, msg: Str)
    requires Refines(fine, coarse)
    ensures Resplit(fine, SplitOf(coarse, msg)) == SplitOf(fine, msg)
    ensures forall tok :: tok in SplitOf(coarse, msg) ==> ImpureOk(coarse, tok)
    decreases |msg|
  {
    if msg != [] {
      var rs := Runes(msg);
      var n := FirstLength(coarse, rs);
      FirstResplits(fine, coarse, msg);
      SplitFirst(coarse, rs);
      FineSplitsAfterFirst(fine, coarse, rs);
      RunesSlice(msg, 0, n);
      RunesCut(msg, n);
      assert rs[..0] == [];
      var a := |Flat(rs[..n])|;
      hide Runes, SplitRunes, Flat, FirstLength, FirstToken, ImpureOk, Refines, ResplitToken, Resplit;
      ResplitPiece(fine, coarse, msg[a..]);
      ResplitCons(fine, FirstToken(coarse, rs), SplitRunes(coarse, rs[n..]));
    }
  }

  ghost predicate AllImpureOk(coarse: Lex, toks: seq<Token>) {
    forall i :: 0 <= i < |toks| ==> ImpureOk(coarse, toks[i])
  }

  lemma ResplitPreToken(fine: Lex, coarse: Lex, p: PreToken)
    requires Refines(fine, coarse)
    ensures Resplit(fine, TokensOfPiece(coarse, p)) == TokensOfPiece(fine, p)
    ensures AllImpureOk(coarse, TokensOfPiece(coarse, p))
  {
    if p.kind == Unrefined {
      hide SplitOf, Resplit, Refines;
      ResplitPiece(fine, coarse, p.slice);
      AllMembersOk(coarse, SplitOf(coarse, p.slice));
    } else {
      KeptTokenResplits(fine, coarse, TokensOfPiece(coarse, p));
    }
  }

  lemma AllMembersOk(coarse: Lex, toks: seq<Token>)
    requires forall tok :: tok in toks ==> ImpureOk(coarse, tok)
    ensures AllImpureOk(coarse, toks)
  {
    hide ImpureOk;
    assert forall i :: 0 <= i < |toks| ==> toks[i] in toks;
  }

  lemma KeptTokenResplits(fine: Lex, coarse: Lex, toks: seq<Token>)
    requires |toks| == 1 && toks[0].kind != Impure
    ensures Resplit(fine, toks) == toks && AllImpureOk(coarse, toks)
  {
    assert toks[..0] == [];
  }

  lemma AllImpureAppend(coarse: Lex, a: seq<Token>, b: seq<Token>)
    requires AllImpureOk(coarse, a) && AllImpureOk(coarse, b)
    ensures AllImpureOk(coarse, a + b)
  {
    hide ImpureOk;
  }

  /** Re-splitting the coarse tokens of a message gives its fine tokens. */
  lemma {:induction false} ResplitTokens(fine: Lex, coarse: Lex, pre: seq<PreToken>)
    requires Refines(fine, coarse)
    ensures Resplit(fine, TokensOf(coarse, pre)) == TokensOf(fine, pre)
    ensures AllImpureOk(coarse, TokensOf(coarse, pre))
  {
    hide TokensOfPiece, AllImpureOk, Refines;
    if pre == [] {
      NoTokensOk(coarse);
    } else {
      var front, last := pre[..|pre| - 1], pre[|pre| - 1];
      ResplitTokens(fine, coarse, front);
      ResplitPreToken(fine, coarse, last);
      ResplitAppend(fine, TokensOf(coarse, front), TokensOfPiece(coarse, last));
      AllImpureAppend(coarse, TokensOf(coarse, front), TokensOfPiece(coarse, last));
    }
  }

  lemma NoTokensOk(coarse: Lex)
    ensures AllImpureOk(coarse, [])
  {
  }

  /** tokenNeedsSplit: is there a fine symbol in the slice? */
  method TokenNeedsSplit(fine: Lex, slice: Str, table: Table) returns (r: bool)
    requires Represents(table, fine.symbols)
    ensures r <==> exists j :: 0 <= j < |Runes(slice)| && IsSymbolRune(table, Runes(slice)[j].code)
  {
    var i := 0;
    ghost var j: nat := 0;
    while i < |slice|
      invariant 0 <= i <= |slice| && j <= |Runes(slice)|
      invariant i == |Flat(Runes(slice)[..j])|
      invariant forall h :: 0 <= h < j ==> !IsSymbolRune(table, Runes(slice)[h].code)
      decreases |slice| - i
    {
      RuneAtOffset(slice, j);
      if slice[i] as int < 128 {
        if table.classes[slice[i] as int] == Symbol {
          return true;
        }
        i, j := i + 1, j + 1;
        continue;
      }
      var r := DecodeRune(slice[i..]);
      if IsSymbolRune(table, r.code) {
        return true;
      }
      i, j := i + |r.text|, j + 1;
    }
    RunesCut(slice, j);
    assert slice[i..] == [];
    assert j == |Runes(slice)|;
    return false;
  }

  lemma RuneAtOffset(s: Str, j: nat)
    requires j <= |Runes(s)|
    ensures var i := |Flat(Runes(s)[..j])|;
      && i <= |s|
      && (i < |s| ==>
            && j < |Runes(s)| && DecodeRune(s[i..]) == Runes(s)[j]
            && i + |Runes(s)[j].text| == |Flat(Runes(s)[..j + 1])| <= |s|
            && (s[i] as int < 128 ==> Runes(s)[j].code == s[i] as int && |Runes(s)[j].text| == 1))
  {
    RunesCut(s, j);
    var i := |Flat(Runes(s)[..j])|;
    if i < |s| {
      assert Runes(s[i..])[0] == Runes(s)[j];
      FlatSnoc(Runes(s), j);
      RunesCut(s, j + 1);
    }
  }

  /** An impure token without fine symbols is its own re-split. */
  lemma NoSymbolNoSplit(fine: Lex, coarse: Lex, table: Table, tok: Token)
    requires Refines(fine, coarse) && Represents(table, fine.symbols) && ImpureOk(coarse, tok)
    requires tok.kind == Impure ==>
      forall j :: 0 <= j < |Runes(tok.slice)| ==> !IsSymbolRune(table, Runes(tok.slice)[j].code)
    ensures ResplitToken(fine, tok) == [tok]
  {
    if tok.kind == Impure {
      var rs := Runes(tok.slice);
      forall i | 0 <= i < |rs| ensures rs[i].code !in fine.symbols {
        assert !IsBoundary(coarse, rs[i]);
        SymbolRuneIs(table, fine.symbols, rs[i].code);
      }
      FlatRunes(tok.slice);
      StretchSurvives(fine, coarse, rs);
    }
  }

  /** retokenizeTokensWithSymbolsInto: the input itself if nothing needs splitting,
      otherwise the untouched front and the rest re-split. `needed` is the capacity
      the source reserves. */
  method RetokenizeInto(fine: Lex, ghost coarse: Lex, tokens: seq<Token>, table: Table, simdTokenize: bool)
    returns (out: seq<Token>, needed: nat)
    requires Refines(fine, coarse) && Represents(table, fine.symbols)
    requires AllImpureOk(coarse, tokens) && NoneEmpty(tokens)
    ensures out == Resplit(fine, tokens)
    ensures needed == |out|
  {
    hide Resplit, SplitOf, Refines, Represents, ImpureOk, ResplitToken;
    var start := 0;
    ResplitNothing(fine);
    while start < |tokens|
      invariant 0 <= start <= |tokens| && Resplit(fine, tokens[..start]) == tokens[..start]
    {
      var tok := tokens[start];
      var needs := tok.kind == Impure;
      if needs {
        needs := TokenNeedsSplit(fine, tok.slice, table);
      }
      if needs {
        break;
      }
      NoSymbolNoSplit(fine, coarse, table, tok);
      ResplitNext(fine, tokens, start);
      start := start + 1;
    }
    if start == |tokens| {
      assert tokens[..start] == tokens;
      return tokens, |tokens|;
    }
    needed := |tokens|;
    for i := start to |tokens|
      invariant needed == |Resplit(fine, tokens[..i])| + |tokens| - i
    {
      var tok := tokens[i];
      ResplitNext(fine, tokens, i);
      ResplitSize(fine, tok);
      if tok.kind != Impure {
        continue;
      }
      var splitCount := SplitTokenCount(fine, tok.slice, table);
      if splitCount > 1 {
        needed := needed + splitCount - 1;
      }
    }
    out := tokens[..start];
    for i := start to |tokens|
      invariant out == Resplit(fine, tokens[..i])
    {
      var tok := tokens[i];
      ResplitNext(fine, tokens, i);
      ResplitSize(fine, tok);
      if tok.kind != Impure {
        out := out + [tok];
      } else {
        out := AppendSplitToken(fine, out, tok.slice, table, simdTokenize);
      }
    }
    assert tokens[..|tokens|] == tokens;
  }

  lemma ResplitNothing(fine: Lex)
    ensures Resplit(fine, []) == []
  {
  }

  lemma ResplitNext(fine: Lex, tokens: seq<Token>, i: nat)
    requires i < |tokens|
    ensures Resplit(fine, tokens[..i + 1]) == Resplit(fine, tokens[..i]) + ResplitToken(fine, tokens[i])
    ensures tokens[..i + 1] == tokens[..i] + [tokens[i]]
  {
    assert tokens[..i + 1][..i] == tokens[..i];
  }

  lemma ResplitSize(fine: Lex, tok: Token)
    requires tok.slice != []
    ensures ResplitToken(fine, tok) == if tok.kind == Impure then SplitOf(fine, tok.slice) else [tok]
    ensures |ResplitToken(fine, tok)| >= 1
  {
    SplitOfText(fine, tok.slice);
  }
}
