/** What the special patterns of a tokenizer do to a message, told without its stages: which text
    becomes a special token of which kind, and how the text around it is tokenized. */
module SpecialTokens {
  import opened Bytes
  import opened Unicode
  import opened Tokens
  import opened Splitting
  import opened Specials
  import opened Tokenize

  /** The tokens that the patterns of t make of given pieces. */
  ghost function Remaining(t: Lexer, pre: seq<PreToken>): seq<Token>
    requires SpecialsOk(t)
  {
    TokensOf(t.lex, Stages(Stages(pre, t.whites, White), t.blacks, Black))
  }

  // ------------------------------------------------- pieces are independent

  lemma {:induction false} RefineAllAppend(a: seq<PreToken>, b: seq<PreToken>, m: SpecialMatcher, kind: PreKind)
    requires MatcherOk(m)
    ensures RefineAll(a + b, m, kind) == RefineAll(a, m, kind) + RefineAll(b, m, kind)
    decreases |b|
  {
    hide Refine;
    if b == [] {
      assert a + b == a;
    } else {
      assert (a + b)[..|a + b| - 1] == a + b[..|b| - 1];
      RefineAllAppend(a, b[..|b| - 1], m, kind);
    }
  }

  lemma {:induction false} StagesAppend(a: seq<PreToken>, b: seq<PreToken>, ms: seq<SpecialMatcher>, kind: PreKind)
    requires MatchersOk(ms)
    ensures Stages(a + b, ms, kind) == Stages(a, ms, kind) + Stages(b, ms, kind)
  {
    if ms != [] {
      var early, m := ms[..|ms| - 1], ms[|ms| - 1];
      StagesAppend(a, b, early, kind);
      RefineAllAppend(Stages(a, early, kind), Stages(b, early, kind), m, kind);
    }
  }

  lemma {:induction false} TokensOfAppend(lex: Lex, a: seq<PreToken>, b: seq<PreToken>)
    ensures TokensOf(lex, a + b) == TokensOf(lex, a) + TokensOf(lex, b)
    decreases |b|
  {
    hide TokensOfPiece;
    if b == [] {
      assert a + b == a;
    } else {
      assert (a + b)[..|a + b| - 1] == a + b[..|b| - 1];
      TokensOfAppend(lex, a, b[..|b| - 1]);
    }
  }

  lemma RemainingAppend(t: Lexer, a: seq<PreToken>, b: seq<PreToken>)
    requires SpecialsOk(t)
    ensures Remaining(t, a + b) == Remaining(t, a) + Remaining(t, b)
  {
    hide Stages, TokensOf, MatchersOk;
    StagesAppend(a, b, t.whites, White);
    StagesAppend(Stages(a, t.whites, White), Stages(b, t.whites, White), t.blacks, Black);
    TokensOfAppend(t.lex, Stages(Stages(a, t.whites, White), t.blacks, Black),
                   Stages(Stages(b, t.whites, White), t.blacks, Black));
  }

  // ------------------------------------------------------ special pieces stay

  lemma RefineAllOne(p: PreToken, m: SpecialMatcher, kind: PreKind)
    requires MatcherOk(m)
    ensures RefineAll([p], m, kind) == Refine(p, m, kind)
  {
    assert [p][..0] == [];
  }

  lemma {:induction false} StagesKeep(p: PreToken, ms: seq<SpecialMatcher>, kind: PreKind)
    requires MatchersOk(ms) && p.kind != Unrefined
    ensures Stages([p], ms, kind) == [p]
  {
    if ms != [] {
      StagesKeep(p, ms[..|ms| - 1], kind);
      RefineAllOne(p, ms[|ms| - 1], kind);
    }
  }

  lemma RemainingSpecial(t: Lexer, p: PreToken)
    requires SpecialsOk(t) && p.kind != Unrefined
    ensures Remaining(t, [p]) == [Token(if p.kind == White then SpecialWhite else SpecialBlack, p.slice)]
  {
    StagesKeep(p, t.whites, White);
    StagesKeep(p, t.blacks, Black);
    TokensOfOne(t.lex, p);
  }

  lemma TokensOfOne(lex: Lex, p: PreToken)
    ensures TokensOf(lex, [p]) == TokensOfPiece(lex, p)
  {
    assert [p][..0] == [];
  }

  // ----------------------------------------------------- nothing from nothing

  lemma EmptySplit(m: SpecialMatcher, kind: PreKind)
    requires MatcherOk(m)
    ensures SplitSpecial([], m, kind) == [PreToken(Unrefined, [])]
  {
    var s: Str := [];
    assert s[0..] == s;
  }

  lemma {:induction false} StagesOfEmpty(ms: seq<SpecialMatcher>, kind: PreKind)
    requires MatchersOk(ms)
    ensures Stages([PreToken(Unrefined, [])], ms, kind) == [PreToken(Unrefined, [])]
  {
    var p := PreToken(Unrefined, []);
    if ms != [] {
      StagesOfEmpty(ms[..|ms| - 1], kind);
      EmptySplit(ms[|ms| - 1], kind);
      hide SplitSpecial;
      RefineAllOne(p, ms[|ms| - 1], kind);
    }
  }

  /** The empty message has no tokens. */
  lemma NoTextNoTokens(t: Lexer)
    requires SpecialsOk(t)
    ensures TokensIn(t, []) == []
  {
    var p := PreToken(Unrefined, []);
    StagesOfEmpty(t.whites, White);
    StagesOfEmpty(t.blacks, Black);
    TokensOfOne(t.lex, p);
  }

  lemma {:induction false} StagesOfNone(ms: seq<SpecialMatcher>, kind: PreKind)
    requires MatchersOk(ms)
    ensures Stages([], ms, kind) == []
  {
    if ms != [] {
      StagesOfNone(ms[..|ms| - 1], kind);
    }
  }

  lemma RemainingRest(t: Lexer, s: Str)
    requires SpecialsOk(t)
    ensures Remaining(t, Rest(s)) == TokensIn(t, s)
  {
    NoTextNoTokens(t);
    StagesOfNone(t.whites, White);
    StagesOfNone(t.blacks, Black);
  }

  // -------------------------------------------------------- the first pattern

  lemma {:induction false} StagesCons(pre: seq<PreToken>, ms: seq<SpecialMatcher>, kind: PreKind)
    requires MatchersOk(ms) && ms != []
    ensures Stages(pre, ms, kind) == Stages(RefineAll(pre, ms[0], kind), ms[1..], kind)
  {
    hide RefineAll, MatcherOk;
    var early := ms[..|ms| - 1];
    if early == [] {
      assert ms[1..] == [] && Stages(pre, early, kind) == pre;
    } else {
      StagesCons(pre, early, kind);
      assert early[1..] == ms[1..][..|ms| - 2];
    }
  }

  /** p is the first pattern to be applied, it makes tokens of this kind, and later has the others. */
  ghost predicate IsFirst(t: Lexer, p: SpecialMatcher, kind: TokenKind, later: Lexer) {
    || (t.whites != [] && p == t.whites[0] && kind == SpecialWhite && later == t.(whites := t.whites[1..]))
    || (t.whites == [] && t.blacks != [] && p == t.blacks[0] && kind == SpecialBlack
        && later == t.(blacks := t.blacks[1..]))
  }

  function PreKindOf(kind: TokenKind): PreKind {
    if kind == SpecialWhite then White else Black
  }

  /** The first pattern's turn. */
  lemma FirstTurn(t: Lexer, p: SpecialMatcher, kind: TokenKind, later: Lexer, msg: Str)
    requires SpecialsOk(t) && IsFirst(t, p, kind, later)
    ensures SpecialsOk(later) && MatcherOk(p)
    ensures TokensIn(t, msg) == Remaining(later, SplitSpecial(msg, p, PreKindOf(kind)))
  {
    var whole := [PreToken(Unrefined, msg)];
    RefineAllOne(PreToken(Unrefined, msg), p, PreKindOf(kind));
    hide RefineAll, SplitSpecial;
    if t.whites != [] {
      StagesCons(whole, t.whites, White);
    } else {
      StagesCons(whole, t.blacks, Black);
    }
  }

  /** The tokens around the text that a pattern cuts out. */
  lemma AroundCut(t: Lexer, front: Str, special: Str, kind: TokenKind, tail: seq<PreToken>)
    requires SpecialsOk(t) && (kind == SpecialWhite || kind == SpecialBlack)
    ensures Remaining(t, Rest(front) + [PreToken(PreKindOf(kind), special)] + tail)
         == TokensIn(t, front) + [Token(kind, special)] + Remaining(t, tail)
  {
    var cut := PreToken(PreKindOf(kind), special);
    RemainingAppend(t, Rest(front) + [cut], tail);
    RemainingAppend(t, Rest(front), [cut]);
    RemainingRest(t, front);
    RemainingSpecial(t, cut);
  }

  // ------------------------------------------------------------------ literals

  /** Cutting at occurrences looks only at what is left of the message. */
  lemma {:induction false} LiteralTail(msg: Str, literal: Str, kind: PreKind, last: nat, more: nat)
    requires literal != [] && last + more <= |msg|
    ensures LiteralPieces(msg, literal, kind, last + more) == LiteralPieces(msg[last..], literal, kind, more)
    decreases |msg| - last - more
  {
    hide LiteralPieces, Rest, Index, OccursAt;
    var s := msg[last..];
    LiteralUnfolds(msg, literal, kind, last + more);
    LiteralUnfolds(s, literal, kind, more);
    SliceTail(msg, last, more, |s|);
    var next := Index(s[more..], literal);
    if next >= 0 {
      var from, to := more + next, more + next + |literal|;
      SliceTail(msg, last, more, from);
      SliceTail(msg, last, from, to);
      LiteralTail(msg, literal, kind, last, to);
    }
  }

  lemma SliceTail(msg: Str, last: nat, a: nat, b: nat)
    requires a <= b && last + b <= |msg|
    ensures msg[last..][a..b] == msg[last + a..last + b] && msg[last..][a..] == msg[last + a..]
  {
  }

  lemma LiteralUnfolds(msg: Str, literal: Str, kind: PreKind, last: nat)
    requires literal != [] && last <= |msg|
    ensures var next := Index(msg[last..], literal);
      if next < 0 then LiteralPieces(msg, literal, kind, last) == Rest(msg[last..])
      else
        var start, end := last + next, last + next + |literal|;
        && end <= |msg|
        && LiteralPieces(msg, literal, kind, last)
           == Rest(msg[last..start]) + [PreToken(kind, msg[start..end])] + LiteralPieces(msg, literal, kind, end)
  {
  }

  lemma LiteralRest(msg: Str, literal: Str, kind: PreKind, last: nat)
    requires literal != [] && last <= |msg|
    ensures var s := msg[last..];
      LiteralPieces(msg, literal, kind, last) == if s == [] then [] else SplitLiteral(s, literal, kind)
  {
    LiteralTail(msg, literal, kind, last, 0);
    var s := msg[last..];
    assert s[0..] == s;
  }

  /** A literal as the first pattern: the message up to its first occurrence is tokenized with the
      other patterns, the occurrence is a special token, and the rest of the message is tokenized
      like a message; without an occurrence it changes nothing. */
  lemma LiteralTokens(t: Lexer, literal: Str, kind: TokenKind, later: Lexer, msg: Str)
    requires SpecialsOk(t) && literal != []
    requires (t.whites != [] && t.whites[0] == Literal(literal) && kind == SpecialWhite
                && later == t.(whites := t.whites[1..]))
             || (t.whites == [] && t.blacks != [] && t.blacks[0] == Literal(literal) && kind == SpecialBlack
                   && later == t.(blacks := t.blacks[1..]))
    ensures SpecialsOk(later)
    ensures var i := Index(msg, literal);
      TokensIn(t, msg) == if i < 0 then TokensIn(later, msg)
                          else TokensIn(later, msg[..i]) + [Token(kind, literal)] + TokensIn(t, msg[i + |literal|..])
  {
    hide TokensIn, Remaining;
    assert IsFirst(t, Literal(literal), kind, later);
    FirstTurn(t, Literal(literal), kind, later, msg);
    var pre := PreKindOf(kind);
    var i := Index(msg, literal);
    assert msg[0..] == msg;
    if i < 0 {
      assert SplitSpecial(msg, Literal(literal), pre) == [PreToken(Unrefined, msg)];
      WholeRemains(later, msg);
    } else {
      var end := i + |literal|;
      var tail := LiteralPieces(msg, literal, pre, end);
      assert msg[i..end] == literal && msg[0..i] == msg[..i];
      assert SplitSpecial(msg, Literal(literal), pre) == Rest(msg[..i]) + [PreToken(pre, literal)] + tail;
      AroundCut(later, msg[..i], literal, kind, tail);
      LiteralRest(msg, literal, pre, end);
      TailRemains(t, Literal(literal), kind, later, msg[end..], tail);
    }
  }

  lemma WholeRemains(t: Lexer, msg: Str)
    requires SpecialsOk(t)
    ensures Remaining(t, [PreToken(Unrefined, msg)]) == TokensIn(t, msg)
  {
  }

  /** What is left of the message is tokenized like a message. */
  lemma TailRemains(t: Lexer, p: SpecialMatcher, kind: TokenKind, later: Lexer, s: Str, tail: seq<PreToken>)
    requires SpecialsOk(t) && SpecialsOk(later) && MatcherOk(p) && IsFirst(t, p, kind, later)
    requires tail == if s == [] then [] else SplitSpecial(s, p, PreKindOf(kind))
    ensures Remaining(later, tail) == TokensIn(t, s)
  {
    if s == [] {
      NoTextNoTokens(t);
      RemainingRest(later, []);
      NoTextNoTokens(later);
    } else {
      FirstTurn(t, p, kind, later, s);
    }
  }

  // ------------------------------------------------------- regular expressions

  /** The scan looks only at what is left of the message. */
  lemma {:induction false} ScanTail(msg: Str, find: Finder, kind: PreKind, last: nat, more: nat)
    requires FinderOk(find) && last + more <= |msg|
    ensures RegexPieces(msg, find, kind, last + more, true) == RegexPieces(msg[last..], find, kind, more, true)
    ensures Matches(msg, find, last + more) <==> Matches(msg[last..], find, more)
    ensures Skips(msg, find, last + more) <==> Skips(msg[last..], find, more)
    decreases |msg| - last - more
  {
    hide RegexPieces, Matches, Skips, Rest, StepAt, FinderOk;
    var s := msg[last..];
    SameStep(msg, find, last, more);
    SliceTail(msg, last, more, |s|);
    ScanUnfolds(msg, find, kind, last + more);
    ScanUnfolds(s, find, kind, more);
    match StepAt(s, find, more)
    case Stop =>
    case Skip(to) => ScanTail(msg, find, kind, last, to);
    case Cut(from, to) =>
      SliceTail(msg, last, more, from);
      SliceTail(msg, last, from, to);
      ScanTail(msg, find, kind, last, to);
  }

  lemma ScanUnfolds(msg: Str, find: Finder, kind: PreKind, last: nat)
    requires FinderOk(find) && last <= |msg|
    ensures var step := StepAt(msg, find, last);
      && (step.Stop? ==> RegexPieces(msg, find, kind, last, true) == Rest(msg[last..])
                         && !Matches(msg, find, last) && !Skips(msg, find, last))
      && (step.Skip? ==> RegexPieces(msg, find, kind, last, true) == RegexPieces(msg, find, kind, step.to, true)
                         && Matches(msg, find, last) == Matches(msg, find, step.to) && Skips(msg, find, last))
      && (step.Cut? ==> RegexPieces(msg, find, kind, last, true)
                          == Rest(msg[last..step.start]) + [PreToken(kind, msg[step.start..step.end])]
                             + RegexPieces(msg, find, kind, step.end, true)
                        && Matches(msg, find, last) && Skips(msg, find, last) == Skips(msg, find, step.end))
  {
  }

  lemma SameStep(msg: Str, find: Finder, last: nat, more: nat)
    requires FinderOk(find) && last + more <= |msg|
    ensures var step, whole := StepAt(msg[last..], find, more), StepAt(msg, find, last + more);
      && (step.Stop? ==> whole == Stop)
      && (step.Skip? ==> whole == Skip(last + step.to))
      && (step.Cut? ==> whole == Cut(last + step.start, last + step.end))
  {
    var s := msg[last..];
    assert s[more..] == msg[last + more..];
    hide FinderOk;
    forall k: nat | k <= |s| ensures s[k..] == msg[last + k..] {
    }
  }

  /** Whether an earlier match was found matters only if the scan finds none itself. */
  lemma {:induction false} EarlierMatch(msg: Str, find: Finder, kind: PreKind, last: nat) returns (k: nat)
    requires FinderOk(find) && last <= |msg|
    ensures last <= k <= |msg| && (k == last <==> !Skips(msg, find, last) || Matches(msg, find, last))
    ensures RegexPieces(msg, find, kind, last, true)
      == if Matches(msg, find, last) then RegexPieces(msg, find, kind, last, false) else Rest(msg[k..])
    decreases |msg| - last
  {
    hide FinderOk, Rest, SkipTo;
    k := last;
    if StepAt(msg, find, last).Skip? {
      k := EarlierMatch(msg, find, kind, StepAt(msg, find, last).to);
      if Matches(msg, find, last) {
        k := last;
      }
    }
  }

  /** The rest of a message behind a special token: it is tokenized like a message, unless the scan
      steps over text at empty matches and then finds nothing. */
  lemma RegexRest(t: Lexer, find: Finder, kind: TokenKind, later: Lexer, s: Str) returns (k: nat)
    requires SpecialsOk(t) && SpecialsOk(later) && FinderOk(find) && IsFirst(t, Regex(find), kind, later)
    ensures k <= |s| && (k == 0 <==> Matches(s, find, 0) || !Skips(s, find, 0))
    ensures Remaining(later, RegexPieces(s, find, PreKindOf(kind), 0, true))
      == if k == 0 then TokensIn(t, s) else TokensIn(later, s[k..])
  {
    hide TokensIn, Remaining, RegexPieces, Skips, Rest;
    var pre := PreKindOf(kind);
    FirstTurn(t, Regex(find), kind, later, s);
    k := EarlierMatch(s, find, pre, 0);
    if !Matches(s, find, 0) {
      RemainingRest(later, s[k..]);
      RegexUnmatched(s, find, pre, 0);
      WholeRemains(later, s);
      assert s[0..] == s;
    }
  }

  /** A regular expression as the first pattern. A non-empty match is a special token, the text in
      front of it is tokenized with the other patterns, and the rest of the message like a message,
      except for text stepped over at empty matches. Without a match it changes nothing. */
  lemma RegexTokens(t: Lexer, find: Finder, kind: TokenKind, later: Lexer, msg: Str) returns (k: nat)
    requires SpecialsOk(t) && FinderOk(find)
    requires (t.whites != [] && t.whites[0] == Regex(find) && kind == SpecialWhite
                && later == t.(whites := t.whites[1..]))
             || (t.whites == [] && t.blacks != [] && t.blacks[0] == Regex(find) && kind == SpecialBlack
                   && later == t.(blacks := t.blacks[1..]))
    ensures SpecialsOk(later)
    ensures find(msg).None? ==> TokensIn(t, msg) == TokensIn(later, msg)
    ensures find(msg).Some? ==>
      var (a, b) := find(msg).value;
      if a < b then
        && k <= |msg| - b && (k == 0 <==> Matches(msg[b..], find, 0) || !Skips(msg[b..], find, 0))
        && TokensIn(t, msg) == TokensIn(later, msg[..a]) + [Token(kind, msg[a..b])]
                               + if k == 0 then TokensIn(t, msg[b..]) else TokensIn(later, msg[b + k..])
      else if a < |msg| && Matches(msg[a + |DecodeRune(msg[a..]).text|..], find, 0) then
        TokensIn(t, msg) == TokensIn(t, msg[a + |DecodeRune(msg[a..]).text|..])
      else TokensIn(t, msg) == TokensIn(later, msg)
  {
    hide TokensIn, Remaining, StepAt, FinderOk, DecodeRune;
    assert IsFirst(t, Regex(find), kind, later);
    hide IsFirst;
    k := 0;
    FirstTurn(t, Regex(find), kind, later, msg);
    assert msg[0..] == msg;
    FinderBounds(find, msg, 0);
    match StepAt(msg, find, 0)
    case Stop =>
      RegexUnmatched(msg, find, PreKindOf(kind), 0);
      WholeRemains(later, msg);
    case Skip(to) => SkippedFront(t, find, kind, later, msg, to);
    case Cut(a, b) => k := FoundCut(t, find, kind, later, msg, a, b);
  }

  lemma FoundCut(t: Lexer, find: Finder, kind: TokenKind, later: Lexer, msg: Str, a: nat, b: nat) returns (k: nat)
    requires SpecialsOk(t) && SpecialsOk(later) && FinderOk(find) && IsFirst(t, Regex(find), kind, later)
    requires a < b <= |msg| && StepAt(msg, find, 0) == Cut(a, b)
    ensures k <= |msg| - b && (k == 0 <==> Matches(msg[b..], find, 0) || !Skips(msg[b..], find, 0))
    ensures TokensIn(t, msg) == TokensIn(later, msg[..a]) + [Token(kind, msg[a..b])]
                                + if k == 0 then TokensIn(t, msg[b..]) else TokensIn(later, msg[b + k..])
  {
    hide TokensIn, Remaining, StepAt, FinderOk, Matches, Skips, Rest;
    var pre := PreKindOf(kind);
    FirstTurn(t, Regex(find), kind, later, msg);
    ScanTail(msg, find, pre, b, 0);
    k := RegexRest(t, find, kind, later, msg[b..]);
    SliceTail(msg, b, k, |msg| - b);
    assert msg[0..a] == msg[..a];
    assert RegexPieces(msg, find, pre, 0, false)
        == Rest(msg[..a]) + [PreToken(pre, msg[a..b])] + RegexPieces(msg, find, pre, b, true);
    hide RegexPieces;
    AroundCut(later, msg[..a], msg[a..b], kind, RegexPieces(msg, find, pre, b, true));
  }

  lemma SkippedFront(t: Lexer, find: Finder, kind: TokenKind, later: Lexer, msg: Str, to: nat)
    requires SpecialsOk(t) && SpecialsOk(later) && FinderOk(find) && IsFirst(t, Regex(find), kind, later)
    requires StepAt(msg, find, 0) == Skip(to)
    ensures TokensIn(t, msg) == if Matches(msg[to..], find, 0) then TokensIn(t, msg[to..]) else TokensIn(later, msg)
  {
    hide TokensIn, Remaining, StepAt, FinderOk;
    var pre := PreKindOf(kind);
    FirstTurn(t, Regex(find), kind, later, msg);
    FirstTurn(t, Regex(find), kind, later, msg[to..]);
    ScanTail(msg, find, pre, to, 0);
    assert RegexPieces(msg, find, pre, 0, false) == RegexPieces(msg, find, pre, to, false);
    if Matches(msg[to..], find, 0) {
      var _ := EarlierMatch(msg, find, pre, to);
      var _ := EarlierMatch(msg[to..], find, pre, 0);
    } else {
      RegexUnmatched(msg, find, pre, to);
      WholeRemains(later, msg);
    }
  }

  /** When all patterns have had their turn, what is left is split at symbols and white space. */
  lemma NoPatterns(t: Lexer, msg: Str)
    requires t.whites == [] && t.blacks == []
    ensures TokensIn(t, msg) == SplitOf(t.lex, msg)
  {
    TokensOfOne(t.lex, PreToken(Unrefined, msg));
  }

  /** What the first pattern finds in a message is a special token of its kind, with exactly that text. */
  lemma FoundIsSpecial(t: Lexer, msg: Str, a: nat, b: nat)
    requires SpecialsOk(t) && (t.whites != [] || t.blacks != [])
    requires var p := if t.whites != [] then t.whites[0] else t.blacks[0];
      match p
      case Literal(text) => a == Index(msg, text) && b == a + |text|
      case Regex(find) => find(msg).Some? && find(msg).value == (a, b) && a < b
    ensures b <= |msg|
    ensures Token(if t.whites != [] then SpecialWhite else SpecialBlack, msg[a..b]) in TokensIn(t, msg)
  {
    var p := if t.whites != [] then t.whites[0] else t.blacks[0];
    var kind := if t.whites != [] then SpecialWhite else SpecialBlack;
    var later := if t.whites != [] then t.(whites := t.whites[1..]) else t.(blacks := t.blacks[1..]);
    assert MatcherOk(p) && IsFirst(t, p, kind, later);
    hide TokensIn, SpecialsOk, IsFirst, FinderOk;
    match p
    case Literal(text) => LiteralFound(t, text, kind, later, msg);
    case Regex(find) => MatchFound(t, find, kind, later, msg, a, b);
  }

  lemma LiteralFound(t: Lexer, literal: Str, kind: TokenKind, later: Lexer, msg: Str)
    requires SpecialsOk(t) && literal != [] && IsFirst(t, Literal(literal), kind, later) && Index(msg, literal) >= 0
    ensures var a, b := Index(msg, literal), Index(msg, literal) + |literal|;
      b <= |msg| && Token(kind, msg[a..b]) in TokensIn(t, msg)
  {
    hide TokensIn, SpecialsOk;
    LiteralTokens(t, literal, kind, later, msg);
  }

  lemma MatchFound(t: Lexer, find: Finder, kind: TokenKind, later: Lexer, msg: Str, a: nat, b: nat)
    requires SpecialsOk(t) && FinderOk(find) && IsFirst(t, Regex(find), kind, later)
    requires find(msg).Some? && find(msg).value == (a, b) && a < b
    ensures b <= |msg| && Token(kind, msg[a..b]) in TokensIn(t, msg)
  {
    assert b <= |msg|;
    hide TokensIn, SpecialsOk, FinderOk;
    var _ := RegexTokens(t, find, kind, later, msg);
  }

  // ------------------------------------------------------------ kinds of tokens

  ghost predicate KindsIn(pre: seq<PreToken>, kinds: set<PreKind>) {
    forall p :: p in pre ==> p.kind in kinds
  }

  lemma {:induction false} RegexKinds(msg: Str, find: Finder, kind: PreKind, last: nat, matched: bool)
    requires FinderOk(find) && last <= |msg|
    ensures KindsIn(RegexPieces(msg, find, kind, last, matched), {Unrefined, kind})
    decreases |msg| - last
  {
    hide StepAt, FinderOk;
    match StepAt(msg, find, last)
    case Stop =>
    case Skip(to) => RegexKinds(msg, find, kind, to, matched);
    case Cut(start, end) => RegexKinds(msg, find, kind, end, true);
  }

  lemma RefineKinds(p: PreToken, m: SpecialMatcher, kind: PreKind)
    requires MatcherOk(m)
    ensures KindsIn(Refine(p, m, kind), {p.kind, Unrefined, kind})
  {
    if p.kind == Unrefined {
      match m
      case Literal(text) =>
        LiteralSplitExact(p.slice, text, kind);
        hide SplitLiteral, Occurs;
      case Regex(find) => RegexKinds(p.slice, find, kind, 0, false);
    }
  }

  lemma {:induction false} StageKinds(pre: seq<PreToken>, m: SpecialMatcher, kind: PreKind, kinds: set<PreKind>)
    requires MatcherOk(m) && KindsIn(pre, kinds) && Unrefined in kinds && kind in kinds
    ensures KindsIn(RefineAll(pre, m, kind), kinds)
  {
    hide Refine;
    if pre != [] {
      StageKinds(pre[..|pre| - 1], m, kind, kinds);
      RefineKinds(pre[|pre| - 1], m, kind);
    }
  }

  lemma {:induction false} StagesKinds(pre: seq<PreToken>, ms: seq<SpecialMatcher>, kind: PreKind, kinds: set<PreKind>)
    requires MatchersOk(ms) && KindsIn(pre, kinds) && Unrefined in kinds && (ms != [] ==> kind in kinds)
    ensures KindsIn(Stages(pre, ms, kind), kinds)
  {
    hide RefineAll, KindsIn;
    if ms != [] {
      StagesKinds(pre, ms[..|ms| - 1], kind, kinds);
      StageKinds(Stages(pre, ms[..|ms| - 1], kind), ms[|ms| - 1], kind, kinds);
    }
  }

  lemma {:induction false} TokenKinds(lex: Lex, pre: seq<PreToken>, kinds: set<PreKind>, tok: Token)
    requires KindsIn(pre, kinds) && tok in TokensOf(lex, pre)
    ensures tok.kind == SpecialWhite ==> White in kinds
    ensures tok.kind == SpecialBlack ==> Black in kinds
  {
    var front, last := pre[..|pre| - 1], pre[|pre| - 1];
    if tok in TokensOf(lex, front) {
      TokenKinds(lex, front, kinds, tok);
    } else if last.kind == Unrefined {
      SplitIsPlain(lex, last.slice, tok);
    } else {
      assert last in pre;
    }
  }

  /** Special tokens come from patterns of their own kind only. */
  lemma SpecialsHavePatterns(t: Lexer, msg: Str, tok: Token)
    requires SpecialsOk(t) && tok in TokensIn(t, msg)
    ensures tok.kind == SpecialWhite ==> t.whites != []
    ensures tok.kind == SpecialBlack ==> t.blacks != []
  {
    var kinds := {Unrefined} + (if t.whites != [] then {White} else {}) + if t.blacks != [] then {Black} else {};
    var whole := [PreToken(Unrefined, msg)];
    hide Stages, TokensOf;
    StagesKinds(whole, t.whites, White, kinds);
    StagesKinds(Stages(whole, t.whites, White), t.blacks, Black, kinds);
    TokenKinds(t.lex, PreTokens(t, msg), kinds, tok);
  }
}
