/** Tokens, their kinds, and the two static filters of token_filter.go and template.go. */
module Tokens {
  import opened Bytes

  datatype TokenKind = Alphabetic | Numeric | Symbolic | Whitespace | Impure | SpecialWhite | SpecialBlack

  datatype Token = Token(kind: TokenKind, slice: Str)

  /** The iota value of a kind. */
  function KindCode(kind: TokenKind): (k: nat)
    ensures k < 7
  {
    match kind
    case Alphabetic => 0
    case Numeric => 1
    case Symbolic => 2
    case Whitespace => 3
    case Impure => 4
    case SpecialWhite => 5
    case SpecialBlack => 6
  }

  /** The codes count the kinds in this order. */
  lemma KindCodes(kind: TokenKind)
    ensures [Alphabetic, Numeric, Symbolic, Whitespace, Impure, SpecialWhite, SpecialBlack][KindCode(kind)] == kind
  {
  }

  datatype StaticFilter = StaticFilter(alphabetic: bool, numeric: bool, impure: bool)

  /** Does a token take part in dependency scoring? */
  predicate Keeps(f: StaticFilter, tok: Token) {
    match tok.kind
    case Alphabetic => f.alphabetic
    case Numeric => f.numeric
    case Impure => f.impure
    case SpecialWhite => true
    case _ => false
  }

  /** May a token become a literal of a template? */
  predicate CommonCandidate(tok: Token, f: StaticFilter) {
    match tok.kind
    case SpecialWhite => true
    case Whitespace => true
    case Symbolic => true
    case Alphabetic => f.alphabetic
    case Numeric => f.numeric
    case Impure => f.impure
    case SpecialBlack => false
  }

  /** With all switches off only white special tokens are kept, and turning one switch changes
      this for the tokens of its kind and no others. */
  lemma SwitchesKeep(f: StaticFilter, tok: Token)
    ensures Keeps(StaticFilter(false, false, false), tok) <==> tok.kind == SpecialWhite
    ensures Keeps(f, tok) != Keeps(f.(alphabetic := !f.alphabetic), tok) <==> tok.kind == Alphabetic
    ensures Keeps(f, tok) != Keeps(f.(numeric := !f.numeric), tok) <==> tok.kind == Numeric
    ensures Keeps(f, tok) != Keeps(f.(impure := !f.impure), tok) <==> tok.kind == Impure
  {
  }

  /** The same for candidates, where white space and symbols need no switch. */
  lemma SwitchesAdmit(f: StaticFilter, tok: Token)
    ensures CommonCandidate(tok, StaticFilter(false, false, false)) <==>
      tok.kind == SpecialWhite || tok.kind == Whitespace || tok.kind == Symbolic
    ensures CommonCandidate(tok, f) != CommonCandidate(tok, f.(alphabetic := !f.alphabetic)) <==> tok.kind == Alphabetic
    ensures CommonCandidate(tok, f) != CommonCandidate(tok, f.(numeric := !f.numeric)) <==> tok.kind == Numeric
    ensures CommonCandidate(tok, f) != CommonCandidate(tok, f.(impure := !f.impure)) <==> tok.kind == Impure
  {
  }

  /** The text of a row of tokens. */
  function TextOf(toks: seq<Token>): Str {
    if toks == [] then [] else toks[0].slice + TextOf(toks[1..])
  }

  lemma {:induction false} TextAppend(a: seq<Token>, b: seq<Token>)
    ensures TextOf(a + b) == TextOf(a) + TextOf(b)
  {
    if a == [] {
      assert a + b == b;
    } else {
      assert (a + b)[1..] == a[1..] + b;
      TextAppend(a[1..], b);
    }
  }

  ghost predicate NoneEmpty(toks: seq<Token>) {
    forall i :: 0 <= i < |toks| ==> toks[i].slice != []
  }
}
