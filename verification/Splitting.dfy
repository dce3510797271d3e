/** The split of a piece of text at white space and symbols: a specification over
    runes, and the properties that single it out. */
module Splitting {
  import opened Bytes
  import opened Unicode
  import opened Tokens

  /** What a tokenizer needs to know about characters. */
  datatype Lex = Lex(tables: Tables, symbols: set<nat>)

  predicate IsBoundary(lex: Lex, r: Rune) {
    lex.tables.IsSpace(r.code) || r.code in lex.symbols
  }

  function BoundaryToken(lex: Lex, r: Rune): Token {
    Token(if lex.tables.IsSpace(r.code) then Whitespace else Symbolic, r.text)
  }

  predicate AllLetters(lex: Lex, rs: seq<Rune>) {
    forall i :: 0 <= i < |rs| ==> lex.tables.IsLetter(rs[i].code)
  }

  predicate AllDigits(lex: Lex, rs: seq<Rune>) {
    forall i :: 0 <= i < |rs| ==> lex.tables.IsDigit(rs[i].code)
  }

  function SegmentKind(lex: Lex, rs: seq<Rune>): TokenKind {
    if AllLetters(lex, rs) then Alphabetic else if AllDigits(lex, rs) then Numeric else Impure
  }

  function SegmentToken(lex: Lex, rs: seq<Rune>): Token {
    Token(SegmentKind(lex, rs), Flat(rs))
  }

  /** The number of leading runes that are not boundaries. */
  function SegmentLength(lex: Lex, rs: seq<Rune>): (k: nat)
    ensures k <= |rs|
    ensures forall i :: 0 <= i < k ==> !IsBoundary(lex, rs[i])
    ensures k < |rs| ==> IsBoundary(lex, rs[k])
  {
    if rs == [] || IsBoundary(lex, rs[0]) then 0 else 1 + SegmentLength(lex, rs[1..])
  }

  /** Boundary runes are tokens of their own, and so are the longest stretches between them. */
  function SplitRunes(lex: Lex, rs: seq<Rune>): seq<Token>
    decreases |rs|
  {
    if rs == [] then []
    else if IsBoundary(lex, rs[0]) then [BoundaryToken(lex, rs[0])] + SplitRunes(lex, rs[1..])
    else
      var k := SegmentLength(lex, rs);
      [SegmentToken(lex, rs[..k])] + SplitRunes(lex, rs[k..])
  }

  function SplitOf(lex: Lex, msg: Str): seq<Token> {
    SplitRunes(lex, Runes(msg))
  }

  ghost predicate NoBoundary(lex: Lex, rs: seq<Rune>) {
    forall i :: 0 <= i < |rs| ==> !IsBoundary(lex, rs[i])
  }

  // ------------------------------------------------ equations for the loops

  lemma {:induction false} SegmentLengthIs(lex: Lex, seg: seq<Rune>, rest: seq<Rune>)
    requires NoBoundary(lex, seg) && (rest == [] || IsBoundary(lex, rest[0]))
    ensures SegmentLength(lex, seg + rest) == |seg|
  {
    if seg == [] {
      assert seg + rest == rest;
    } else {
      assert (seg + rest)[1..] == seg[1..] + rest;
      SegmentLengthIs(lex, seg[1..], rest);
    }
  }

  /** A stretch without boundaries, up to a boundary or the end, is one token. */
  lemma SplitSegment(lex: Lex, seg: seq<Rune>, rest: seq<Rune>)
    requires seg != [] && NoBoundary(lex, seg) && (rest == [] || IsBoundary(lex, rest[0]))
    ensures SplitRunes(lex, seg + rest) == [SegmentToken(lex, seg)] + SplitRunes(lex, rest)
  {
    SegmentLengthIs(lex, seg, rest);
    assert (seg + rest)[..|seg|] == seg && (seg + rest)[|seg|..] == rest;
    assert (seg + rest)[0] == seg[0];
  }

  lemma SplitBoundary(lex: Lex, r: Rune, rest: seq<Rune>)
    requires IsBoundary(lex, r)
    ensures SplitRunes(lex, [r] + rest) == [BoundaryToken(lex, r)] + SplitRunes(lex, rest)
  {
    assert ([r] + rest)[1..] == rest;
  }

  /** The runes of the first token. */
  function FirstLength(lex: Lex, rs: seq<Rune>): (n: nat)
    requires rs != []
    ensures 0 < n <= |rs|
  {
    if IsBoundary(lex, rs[0]) then 1 else SegmentLength(lex, rs)
  }

  function FirstToken(lex: Lex, rs: seq<Rune>): Token
    requires rs != []
  {
    if IsBoundary(lex, rs[0]) then BoundaryToken(lex, rs[0]) else SegmentToken(lex, rs[..SegmentLength(lex, rs)])
  }

  lemma SplitFirst(lex: Lex, rs: seq<Rune>)
    requires rs != []
    ensures SplitRunes(lex, rs) == [FirstToken(lex, rs)] + SplitRunes(lex, rs[FirstLength(lex, rs)..])
  {
  }

  /** What follows a boundary does not influence the first token. */
  lemma FirstIsStable(lex: Lex, a: seq<Rune>, b: seq<Rune>)
    requires a != [] && (b == [] || IsBoundary(lex, b[0]))
    ensures FirstLength(lex, a + b) == FirstLength(lex, a) && FirstToken(lex, a + b) == FirstToken(lex, a)
  {
    if !IsBoundary(lex, a[0]) {
      var k := SegmentLength(lex, a);
      CutAppend(a, b, k);
      SegmentLengthIs(lex, a[..k], a[k..] + b);
    }
  }

  lemma CutAppend(a: seq<Rune>, b: seq<Rune>, k: nat)
    requires k <= |a|
    ensures a + b == a[..k] + (a[k..] + b) && (a + b)[..k] == a[..k] && (a + b)[k..] == a[k..] + b
  {
  }

  /** Splitting distributes over a cut in front of a boundary. */
  lemma {:induction false} SplitAtBoundary(lex: Lex, a: seq<Rune>, b: seq<Rune>)
    requires b == [] || IsBoundary(lex, b[0])
    ensures SplitRunes(lex, a + b) == SplitRunes(lex, a) + SplitRunes(lex, b)
    decreases |a|
  {
    if a == [] {
      assert a + b == b;
    } else {
      hide SplitRunes, FirstLength, FirstToken;
      var n := FirstLength(lex, a);
      FirstIsStable(lex, a, b);
      SplitFirst(lex, a + b);
      SplitFirst(lex, a);
      CutAppend(a, b, n);
      SplitAtBoundary(lex, a[n..], b);
    }
  }

  // --------------------------------------------------- what a split must be

  predicate IsSegmentKind(k: TokenKind) {
    k == Alphabetic || k == Numeric || k == Impure
  }

  /** tok is the token of the runes `part`. */
  ghost predicate TokenFits(lex: Lex, tok: Token, part: seq<Rune>) {
    || (|part| == 1 && IsBoundary(lex, part[0]) && tok == BoundaryToken(lex, part[0]))
    || (part != [] && NoBoundary(lex, part) && tok == SegmentToken(lex, part))
  }

  function Joined(parts: seq<seq<Rune>>): seq<Rune> {
    if parts == [] then [] else parts[0] + Joined(parts[1..])
  }

  /** toks tokenize parts one by one, and no two segments are adjacent. */
  ghost predicate Tokenizes(lex: Lex, toks: seq<Token>, parts: seq<seq<Rune>>) {
    && |toks| == |parts|
    && (forall i :: 0 <= i < |toks| ==> TokenFits(lex, toks[i], parts[i]))
    && (forall h, i :: 0 <= h < i < |toks| && i == h + 1 ==>
          !(IsSegmentKind(toks[h].kind) && IsSegmentKind(toks[i].kind)))
  }

  /** The split is a tokenization without adjacent segments ... */
  lemma {:induction false} SplitTokenizes(lex: Lex, rs: seq<Rune>) returns (parts: seq<seq<Rune>>)
    ensures Tokenizes(lex, SplitRunes(lex, rs), parts) && Joined(parts) == rs
    ensures parts != [] && IsBoundary(lex, rs[0]) ==> !IsSegmentKind(SplitRunes(lex, rs)[0].kind)
    decreases |rs|
  {
    if rs == [] {
      parts := [];
    } else {
      var k := if IsBoundary(lex, rs[0]) then 1 else SegmentLength(lex, rs);
      var first := if IsBoundary(lex, rs[0]) then BoundaryToken(lex, rs[0]) else SegmentToken(lex, rs[..k]);
      assert SplitRunes(lex, rs) == [first] + SplitRunes(lex, rs[k..]);
      assert TokenFits(lex, first, rs[..k]);
      assert IsSegmentKind(first.kind) && k < |rs| ==> IsBoundary(lex, rs[k]);
      assert rs[..k] + rs[k..] == rs;
      hide IsBoundary, SplitRunes, TokenFits, Tokenizes;
      var tail := SplitTokenizes(lex, rs[k..]);
      parts := [rs[..k]] + tail;
      assert parts[1..] == tail;
      TokenizesCons(lex, first, rs[..k], SplitRunes(lex, rs[k..]), tail);
    }
  }

  lemma TokenizesCons(lex: Lex, tok: Token, part: seq<Rune>, toks: seq<Token>, parts: seq<seq<Rune>>)
    requires TokenFits(lex, tok, part) && Tokenizes(lex, toks, parts)
    requires toks != [] ==> !(IsSegmentKind(tok.kind) && IsSegmentKind(toks[0].kind))
    ensures Tokenizes(lex, [tok] + toks, [part] + parts)
  {
    hide TokenFits, IsSegmentKind;
  }

  /** ... and the only one. */
  lemma {:induction false} SplitIsUnique(lex: Lex, toks: seq<Token>, parts: seq<seq<Rune>>)
    requires Tokenizes(lex, toks, parts)
    ensures toks == SplitRunes(lex, Joined(parts))
    decreases |parts|
  {
    if parts != [] {
      var part, rest := parts[0], Joined(parts[1..]);
      assert TokenFits(lex, toks[0], part);
      TokenizesTail(lex, toks, parts);
      SplitIsUnique(lex, toks[1..], parts[1..]);
      assert toks == [toks[0]] + toks[1..];
      if |part| == 1 && IsBoundary(lex, part[0]) {
        assert part == [part[0]];
        SplitBoundary(lex, part[0], rest);
      } else {
        NextIsBoundary(lex, toks, parts);
        SplitSegment(lex, part, rest);
      }
    }
  }

  lemma TokenizesTail(lex: Lex, toks: seq<Token>, parts: seq<seq<Rune>>)
    requires Tokenizes(lex, toks, parts) && parts != []
    ensures Tokenizes(lex, toks[1..], parts[1..])
  {
  }

  lemma NextIsBoundary(lex: Lex, toks: seq<Token>, parts: seq<seq<Rune>>)
    requires Tokenizes(lex, toks, parts) && parts != [] && NoBoundary(lex, parts[0])
    ensures Joined(parts[1..]) == [] || IsBoundary(lex, Joined(parts[1..])[0])
  {
    if |parts| > 1 {
      assert TokenFits(lex, toks[0], parts[0]) && TokenFits(lex, toks[1], parts[1]);
      assert parts[1..][0] == parts[1];
    }
  }

  /** Splitting keeps the text and makes no empty tokens. */
  lemma {:induction false} SplitKeepsText(lex: Lex, rs: seq<Rune>)
    requires forall i :: 0 <= i < |rs| ==> rs[i].text != []
    ensures TextOf(SplitRunes(lex, rs)) == Flat(rs) && NoneEmpty(SplitRunes(lex, rs))
    decreases |rs|
  {
    if rs != [] {
      var k := if IsBoundary(lex, rs[0]) then 1 else SegmentLength(lex, rs);
      SplitKeepsText(lex, rs[k..]);
      FlatAppend(rs[..k], rs[k..]);
      assert rs[..k] + rs[k..] == rs;
      var toks := SplitRunes(lex, rs);
      assert toks[1..] == SplitRunes(lex, rs[k..]);
      assert toks[0].slice == Flat(rs[..k]) by { assert rs[..1][1..] == []; }
      assert forall i :: 0 < i < |toks| ==> toks[i] == toks[1..][i - 1];
    }
  }

  lemma SplitOfText(lex: Lex, msg: Str)
    ensures TextOf(SplitOf(lex, msg)) == msg && NoneEmpty(SplitOf(lex, msg))
  {
    var rs := Runes(msg);
    forall i | 0 <= i < |rs| ensures rs[i].text != [] { RunesNonEmpty(msg, i); }
    SplitKeepsText(lex, rs);
    FlatRunes(msg);
  }

  /** The token that a split makes of this slice, wherever it occurs. */
  function TokenOfSlice(lex: Lex, slice: Str): Token {
    var rs := Runes(slice);
    if |rs| == 1 && IsBoundary(lex, rs[0]) then BoundaryToken(lex, rs[0]) else SegmentToken(lex, rs)
  }

  lemma FirstTokenOfSlice(lex: Lex, msg: Str)
    requires Runes(msg) != []
    ensures var n := FirstLength(lex, Runes(msg));
      FirstToken(lex, Runes(msg)) == TokenOfSlice(lex, Flat(Runes(msg)[..n]))
  {
    var rs := Runes(msg);
    var n := FirstLength(lex, rs);
    RunesCut(msg, n);
    hide Runes;
    if IsBoundary(lex, rs[0]) {
      assert rs[..1] == [rs[0]] && rs[..1][1..] == [];
    }
  }

  /** The slice of a token tells its kind. */
  lemma {:induction false} SplitTellsKind(lex: Lex, msg: Str, tok: Token)
    requires tok in SplitOf(lex, msg)
    ensures tok == TokenOfSlice(lex, tok.slice)
    decreases |Runes(msg)|
  {
    hide TokenOfSlice, FirstLength, FirstToken, SplitRunes, Flat;
    var rs := Runes(msg);
    if rs == [] {
      SplitNothing(lex);
    } else {
      var n := FirstLength(lex, rs);
      SplitFirst(lex, rs);
      FirstTokenOfSlice(lex, msg);
      FirstSlice(lex, rs);
      RunesCut(msg, n);
      if tok != FirstToken(lex, rs) {
        SplitTellsKind(lex, msg[|Flat(rs[..n])|..], tok);
      }
    }
  }

  lemma SplitNothing(lex: Lex)
    ensures SplitRunes(lex, []) == []
  {
  }

  lemma FirstSlice(lex: Lex, rs: seq<Rune>)
    requires rs != []
    ensures FirstToken(lex, rs).slice == Flat(rs[..FirstLength(lex, rs)])
  {
    assert rs[..1][1..] == [];
  }

  /** The first token fits the runes of its slice. */
  lemma FirstFits(lex: Lex, msg: Str)
    requires Runes(msg) != []
    ensures var tok := FirstToken(lex, Runes(msg)); TokenFits(lex, tok, Runes(tok.slice))
  {
    var rs := Runes(msg);
    var n := FirstLength(lex, rs);
    RunesCut(msg, n);
    FirstSlice(lex, rs);
    hide Runes;
  }

  lemma {:induction false} SplitFits(lex: Lex, msg: Str, tok: Token)
    requires tok in SplitOf(lex, msg)
    ensures TokenFits(lex, tok, Runes(tok.slice))
    decreases |Runes(msg)|
  {
    hide TokenFits, FirstLength, FirstToken, SplitRunes, Flat;
    var rs := Runes(msg);
    if rs == [] {
      SplitNothing(lex);
    } else {
      var n := FirstLength(lex, rs);
      SplitFirst(lex, rs);
      FirstFits(lex, msg);
      RunesCut(msg, n);
      if tok != FirstToken(lex, rs) {
        SplitFits(lex, msg[|Flat(rs[..n])|..], tok);
      }
    }
  }

  /** What the kinds mean: a space is a white space token and any other split symbol a symbolic one;
      all other tokens have neither, and are alphabetic, numeric or impure by their characters. */
  lemma KindMeans(lex: Lex, msg: Str, tok: Token)
    requires tok in SplitOf(lex, msg)
    ensures var rs := Runes(tok.slice);
      && |rs| > 0
      && (tok.kind == Whitespace <==> |rs| == 1 && lex.tables.IsSpace(rs[0].code))
      && (tok.kind == Symbolic <==> |rs| == 1 && !lex.tables.IsSpace(rs[0].code) && rs[0].code in lex.symbols)
      && (tok.kind == Whitespace || tok.kind == Symbolic ||
            forall i :: 0 <= i < |rs| ==> !lex.tables.IsSpace(rs[i].code) && rs[i].code !in lex.symbols)
      && (tok.kind == Whitespace || tok.kind == Symbolic ||
            tok.kind == if forall i :: 0 <= i < |rs| ==> lex.tables.IsLetter(rs[i].code) then Alphabetic
                        else if forall i :: 0 <= i < |rs| ==> lex.tables.IsDigit(rs[i].code) then Numeric
                        else Impure)
  {
    SplitFits(lex, msg, tok);
    SplitIsPlain(lex, msg, tok);
    hide Runes, SplitOf;
  }

  /** Splitting makes no special tokens. */
  lemma SplitIsPlain(lex: Lex, msg: Str, tok: Token)
    requires tok in SplitOf(lex, msg)
    ensures tok.kind != SpecialWhite && tok.kind != SpecialBlack
  {
    SplitTellsKind(lex, msg, tok);
  }
}
