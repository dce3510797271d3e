/** The scalar splitting loops of tokenizer.go, proved against the rune-level split. */
module Tokenizer {
  import opened Bytes
  import opened Unicode
  import opened Tokens
  import opened Splitting
  import opened SymbolTable

  // ------------------------------------------------------ classifying a slice

  /** The kind tokenWith gives to an arbitrary slice. */
  function KindOf(lex: Lex, rs: seq<Rune>): TokenKind {
    if rs != [] && AllLetters(lex, rs) then Alphabetic
    else if rs != [] && AllDigits(lex, rs) then Numeric
    else if |rs| == 1 && lex.tables.IsSpace(rs[0].code) then Whitespace
    else if |rs| == 1 && IsBoundary(lex, rs[0]) then Symbolic
    else Impure
  }

  ghost predicate IsAscii(s: Str) {
    forall i :: 0 <= i < |s| ==> s[i] as int < 128
  }

  /** ASCII bytes are runes of their own. */
  lemma {:induction false} AsciiRunes(s: Str)
    requires IsAscii(s)
    ensures |Runes(s)| == |s|
    ensures forall i :: 0 <= i < |s| ==> Runes(s)[i] == Rune(s[i] as int, s[i..i + 1])
    decreases |s|
  {
    if s != [] {
      AsciiRune(s);
      hide DecodeRune;
      var t := s[1..];
      AsciiRunes(t);
      assert Runes(s) == [DecodeRune(s)] + Runes(t);
      forall i | 0 <= i < |s| ensures Runes(s)[i] == Rune(s[i] as int, s[i..i + 1]) {
        if i > 0 {
          assert Runes(s)[i] == Runes(t)[i - 1];
          assert t[i - 1..i] == s[i..i + 1];
        }
      }
    }
  }

  /** b | 0x20 */
  function Lower(b: int): int
    requires 0 <= b < 256
  {
    if (b / 32) % 2 == 0 then b + 32 else b
  }

  /** Setting bit 5 folds the two letter ranges into one. */
  lemma LowerIsLetter(b: int)
    requires 0 <= b < 128
    ensures 97 <= Lower(b) <= 122 <==> AsciiLetter(b)
  {
  }

  predicate LetterBytes(s: Str) {
    forall i :: 0 <= i < |s| ==> AsciiLetter(s[i] as int)
  }

  predicate DigitBytes(s: Str) {
    forall i :: 0 <= i < |s| ==> AsciiDigit(s[i] as int)
  }

  /** The kind of an ASCII slice, read off its bytes. */
  lemma KindOfAscii(lex: Lex, slice: Str, table: Table)
    requires Represents(table, lex.symbols) && IsAscii(slice)
    ensures |table.classes| == 128
    ensures KindOf(lex, Runes(slice)) ==
      if |slice| > 0 && LetterBytes(slice) then Alphabetic
      else if |slice| > 0 && DigitBytes(slice) then Numeric
      else if |slice| == 1 && table.classes[slice[0] as int] == Space then Whitespace
      else if |slice| == 1 && table.classes[slice[0] as int] == Symbol then Symbolic
      else Impure
  {
    AsciiRunes(slice);
    var rs := Runes(slice);
    hide Runes, AllLetters, AllDigits, LetterBytes, DigitBytes;
    AllLettersAscii(lex, rs, slice);
    if |slice| == 1 {
      assert rs[0].code == slice[0] as int;
      assert table.classes[slice[0] as int] == ClassOf(lex.symbols, slice[0] as int);
    }
  }

  lemma AllLettersAscii(lex: Lex, rs: seq<Rune>, slice: Str)
    requires IsAscii(slice) && |rs| == |slice|
    requires forall i :: 0 <= i < |slice| ==> rs[i] == Rune(slice[i] as int, slice[i..i + 1])
    ensures AllLetters(lex, rs) <==> LetterBytes(slice)
    ensures AllDigits(lex, rs) <==> DigitBytes(slice)
  {
    forall i | 0 <= i < |slice|
      ensures lex.tables.IsLetter(rs[i].code) == AsciiLetter(slice[i] as int)
      ensures lex.tables.IsDigit(rs[i].code) == AsciiDigit(slice[i] as int)
    {
    }
  }

  /** tokenWith: an ASCII fast path with byte checks, and the rune-wise slow path. */
  method TokenWith(lex: Lex, slice: Str, table: Table) returns (tok: Token)
    requires Represents(table, lex.symbols)
    ensures tok == Token(KindOf(lex, Runes(slice)), slice)
  {
    hide KindOf, Runes, Represents;
    var allLetter := true;
    var allDigit := true;
    for i := 0 to |slice|
      invariant IsAscii(slice[..i])
      invariant allLetter <==> LetterBytes(slice[..i])
      invariant allDigit <==> DigitBytes(slice[..i])
    {
      var b := slice[i] as int;
      assert slice[..i + 1] == slice[..i] + [slice[i]];
      if b >= 128 {
        return Token(KindOf(lex, Runes(slice)), slice);
      }
      LowerIsLetter(b);
      if Lower(b) < 97 || Lower(b) > 122 {
        allLetter := false;
      }
      if b < 48 || b > 57 {
        allDigit := false;
      }
    }
    assert slice[..|slice|] == slice;
    KindOfAscii(lex, slice, table);
    if |slice| > 0 {
      if allLetter {
        return Token(Alphabetic, slice);
      }
      if allDigit {
        return Token(Numeric, slice);
      }
      if |slice| == 1 {
        match table.classes[slice[0] as int]
        case Space => return Token(Whitespace, slice);
        case Symbol => return Token(Symbolic, slice);
        case Other =>
      }
    }
    return Token(Impure, slice);
  }

  lemma KindOfSegment(lex: Lex, rs: seq<Rune>)
    requires rs != [] && NoBoundary(lex, rs)
    ensures KindOf(lex, rs) == SegmentKind(lex, rs)
  {
  }

  // -------------------------------------------------------- loop positions

  /** The loop stands at rune j (offset i) with a stretch open since rune k (offset start). */
  ghost predicate Stands(lex: Lex, msg: Str, k: nat, start: int, j: nat, i: int) {
    && k <= j <= |Runes(msg)|
    && start == |Flat(Runes(msg)[..k])| && i == |Flat(Runes(msg)[..j])|
    && NoBoundary(lex, Runes(msg)[k..j])
  }

  lemma StandsFacts(lex: Lex, msg: Str, k: nat, start: int, j: nat, i: int)
    requires Stands(lex, msg, k, start, j, i)
    ensures 0 <= start <= i <= |msg| && (start < i <==> k < j) && (i < |msg| <==> j < |Runes(msg)|)
    ensures Runes(msg[start..i]) == Runes(msg)[k..j] && msg[start..i] == Flat(Runes(msg)[k..j])
    ensures i < |msg| ==> DecodeRune(msg[i..]) == Runes(msg)[j]
  {
    var rs := Runes(msg);
    RunesSlice(msg, k, j);
    RunesCut(msg, j);
    assert k == j ==> rs[..k] == rs[..j];
    if i < |msg| {
      assert Runes(msg[i..])[0] == rs[j];
    } else {
      assert msg[i..] == [];
    }
  }

  /** The loop passes one rune that is not a boundary. */
  lemma StandsOn(lex: Lex, msg: Str, k: nat, start: int, j: nat, i: int)
    requires Stands(lex, msg, k, start, j, i) && j < |Runes(msg)| && !IsBoundary(lex, Runes(msg)[j])
    ensures Stands(lex, msg, k, start, j + 1, i + |Runes(msg)[j].text|)
  {
    var rs := Runes(msg);
    FlatSnoc(rs, j);
    assert rs[k..j + 1] == rs[k..j] + [rs[j]];
  }

  /** The loop passes a boundary rune and opens a new stretch. */
  lemma StandsNew(lex: Lex, msg: Str, k: nat, start: int, j: nat, i: int)
    requires Stands(lex, msg, k, start, j, i) && j < |Runes(msg)|
    ensures var e := i + |Runes(msg)[j].text|; Stands(lex, msg, j + 1, e, j + 1, e)
  {
    FlatSnoc(Runes(msg), j);
  }

  lemma FlatSnoc(rs: seq<Rune>, j: nat)
    requires j < |rs|
    ensures Flat(rs[..j + 1]) == Flat(rs[..j]) + rs[j].text
  {
    assert rs[..j + 1] == rs[..j] + [rs[j]];
    FlatAppend(rs[..j], [rs[j]]);
    assert [rs[j]][1..] == [];
  }

  /** The tokens of the open stretch, none if it is empty. */
  function Pending(lex: Lex, seg: seq<Rune>): seq<Token> {
    if seg == [] then [] else [SegmentToken(lex, seg)]
  }

  /** The loop has emitted `done`, which the split of the rest from rune k completes. */
  ghost predicate Emitted(lex: Lex, msg: Str, tokens0: seq<Token>, tokens: seq<Token>, k: nat)
    requires k <= |Runes(msg)|
  {
    tokens + SplitRunes(lex, Runes(msg)[k..]) == tokens0 + SplitOf(lex, msg)
  }

  lemma EmittedNothing(lex: Lex, msg: Str, tokens0: seq<Token>)
    ensures Emitted(lex, msg, tokens0, tokens0, 0) && Stands(lex, msg, 0, 0, 0, 0)
  {
    assert Runes(msg)[0..] == Runes(msg);
  }

  lemma EmitAtBoundary(lex: Lex, msg: Str, tokens0: seq<Token>, tokens: seq<Token>, k: nat, j: nat)
    requires k <= j < |Runes(msg)| && Emitted(lex, msg, tokens0, tokens, k)
    requires NoBoundary(lex, Runes(msg)[k..j]) && IsBoundary(lex, Runes(msg)[j])
    ensures Emitted(lex, msg, tokens0,
              tokens + Pending(lex, Runes(msg)[k..j]) + [BoundaryToken(lex, Runes(msg)[j])], j + 1)
  {
    hide SplitRunes, Pending, SplitOf, IsBoundary, BoundaryToken;
    var rs := Runes(msg);
    var seg, rest := rs[k..j], rs[j + 1..];
    SliceUpTo(rs, k, j);
    SplitUpTo(lex, seg, rs[j], rest);
    RegroupTokens(tokens, Pending(lex, seg), [BoundaryToken(lex, rs[j])], SplitRunes(lex, rest));
  }

  lemma SliceUpTo(rs: seq<Rune>, k: nat, j: nat)
    requires k <= j < |rs|
    ensures rs[k..] == rs[k..j] + ([rs[j]] + rs[j + 1..])
  {
  }

  lemma RegroupTokens(a: seq<Token>, b: seq<Token>, c: seq<Token>, d: seq<Token>)
    ensures a + (b + (c + d)) == a + b + c + d
  {
  }

  lemma SplitUpTo(lex: Lex, seg: seq<Rune>, r: Rune, rest: seq<Rune>)
    requires NoBoundary(lex, seg) && IsBoundary(lex, r)
    ensures SplitRunes(lex, seg + ([r] + rest))
         == Pending(lex, seg) + ([BoundaryToken(lex, r)] + SplitRunes(lex, rest))
  {
    SplitBoundary(lex, r, rest);
    if seg != [] {
      SplitSegment(lex, seg, [r] + rest);
    } else {
      assert seg + ([r] + rest) == [r] + rest;
    }
  }

  lemma EmitAtEnd(lex: Lex, msg: Str, tokens0: seq<Token>, tokens: seq<Token>, k: nat)
    requires k <= |Runes(msg)| && Emitted(lex, msg, tokens0, tokens, k)
    requires NoBoundary(lex, Runes(msg)[k..])
    ensures tokens + Pending(lex, Runes(msg)[k..]) == tokens0 + SplitOf(lex, msg)
  {
    var seg := Runes(msg)[k..];
    if seg != [] {
      SplitSegment(lex, seg, []);
      assert seg + [] == seg;
    }
  }

  /** The class table answers the boundary question for an ASCII byte. */
  lemma AsciiBoundary(lex: Lex, table: Table, msg: Str, i: nat)
    requires Represents(table, lex.symbols) && i < |msg| && msg[i] as int < 128
    ensures DecodeRune(msg[i..]) == Rune(msg[i] as int, msg[i..i + 1])
    ensures var r := DecodeRune(msg[i..]);
      && (table.classes[msg[i] as int] == Other <==> !IsBoundary(lex, r))
      && (table.classes[msg[i] as int] == Space <==> lex.tables.IsSpace(r.code))
  {
    AsciiRune(msg[i..]);
    assert msg[i..][..1] == msg[i..i + 1];
  }

  /** appendSplitTokenScalar: one pass over the bytes, decoding non-ASCII runes. */
  method AppendSplitTokenScalar(lex: Lex, tokens0: seq<Token>, msg: Str, table: Table) returns (tokens: seq<Token>)
    requires Represents(table, lex.symbols)
    ensures tokens == tokens0 + SplitOf(lex, msg)
  {
    tokens := tokens0;
    if msg == [] {
      return;
    }
    hide Represents, SplitOf, SplitRunes, Runes, Flat, DecodeRune, IsBoundary, Stands, Emitted;
    EmittedNothing(lex, msg, tokens0);
    var start, i := 0, 0;
    ghost var k: nat, j: nat := 0, 0;
    StandsFacts(lex, msg, k, start, j, i);
    while i < |msg|
      invariant 0 <= i <= |msg| && k <= j <= |Runes(msg)|
      invariant Stands(lex, msg, k, start, j, i) && Emitted(lex, msg, tokens0, tokens, k)
      decreases |msg| - i
    {
      StandsFacts(lex, msg, k, start, j, i);
      tokens, start, i, k, j := SplitStep(lex, table, msg, tokens0, tokens, k, start, j, i);
    }
    StandsFacts(lex, msg, k, start, j, i);
    StandsEnd(lex, msg, k, start, j, i);
    EmitAtEnd(lex, msg, tokens0, tokens, k);
    if start < |msg| {
      var tok := TokenWith(lex, msg[start..], table);
      KindOfSegment(lex, Runes(msg)[k..]);
      tokens := tokens + [tok];
    }
  }

  lemma StandsEnd(lex: Lex, msg: Str, k: nat, start: int, j: nat, i: int)
    requires Stands(lex, msg, k, start, j, i) && i == |msg|
    ensures 0 <= start <= |msg| && k <= |Runes(msg)|
    ensures NoBoundary(lex, Runes(msg)[k..]) && (start < |msg| <==> Runes(msg)[k..] != [])
    ensures Runes(msg[start..]) == Runes(msg)[k..] && msg[start..] == Flat(Runes(msg)[k..])
  {
    StandsFacts(lex, msg, k, start, j, i);
    assert NoBoundary(lex, Runes(msg)[k..j]);
    hide Runes, Flat, Stands, NoBoundary;
    assert j == |Runes(msg)| && Runes(msg)[k..j] == Runes(msg)[k..];
    assert msg[start..i] == msg[start..];
  }

  /** One iteration of the loop. */
  method SplitStep(lex: Lex, table: Table, msg: Str, ghost tokens0: seq<Token>, before: seq<Token>,
      ghost k0: nat, start0: int, ghost j0: nat, i0: int)
    returns (tokens: seq<Token>, start: int, i: int, ghost k: nat, ghost j: nat)
    requires Represents(table, lex.symbols)
    requires k0 <= j0 <= |Runes(msg)| && 0 <= i0 < |msg|
    requires Stands(lex, msg, k0, start0, j0, i0) && Emitted(lex, msg, tokens0, before, k0)
    ensures k <= j <= |Runes(msg)| && i0 < i <= |msg|
    ensures Stands(lex, msg, k, start, j, i) && Emitted(lex, msg, tokens0, tokens, k)
  {
    hide Represents, SplitOf, SplitRunes, Runes, Flat, IsBoundary, Stands, Emitted;
    tokens, start, i, k, j := before, start0, i0, k0, j0;
    StandsFacts(lex, msg, k, start, j, i);
    ghost var rune := Runes(msg)[j];
    StandsNew(lex, msg, k, start, j, i);
    StandsFacts(lex, msg, j + 1, i + |rune.text|, j + 1, i + |rune.text|);
    if msg[i] as int < 128 {
      AsciiBoundary(lex, table, msg, i);
      TableSize(table, lex.symbols);
      var cls := table.classes[msg[i] as int];
      if cls == Other {
        StandsOn(lex, msg, k, start, j, i);
        i, j := i + 1, j + 1;
        return;
      }
      EmitHere(lex, msg, tokens0, tokens, k, start, j, i);
      if start < i {
        var tok := TokenWith(lex, msg[start..i], table);
        tokens := tokens + [tok];
      }
      var kind := if cls == Space then Whitespace else Symbolic;
      tokens := tokens + [Token(kind, msg[i..i + 1])];
      i := i + 1;
      start, k, j := i, j + 1, j + 1;
      return;
    }
    var r := DecodeRune(msg[i..]);
    TableSize(table, lex.symbols);
    SymbolRuneBoundary(lex, table, r);
    var isSpace := lex.tables.IsSpace(r.code);
    if !isSpace && !IsSymbolRune(table, r.code) {
      StandsOn(lex, msg, k, start, j, i);
      i, j := i + |r.text|, j + 1;
      return;
    }
    EmitHere(lex, msg, tokens0, tokens, k, start, j, i);
    if start < i {
      var tok := TokenWith(lex, msg[start..i], table);
      tokens := tokens + [tok];
    }
    var kind := if isSpace then Whitespace else Symbolic;
    assert r.text == msg[i..][..|r.text|] == msg[i..i + |r.text|];
    tokens := tokens + [Token(kind, msg[i..i + |r.text|])];
    i := i + |r.text|;
    start, k, j := i, j + 1, j + 1;
  }

  lemma TableSize(table: Table, symbols: set<nat>)
    requires Represents(table, symbols)
    ensures |table.classes| == 128
  {
  }

  lemma SymbolRuneBoundary(lex: Lex, table: Table, r: Rune)
    requires Represents(table, lex.symbols)
    ensures |table.classes| == 128
    ensures lex.tables.IsSpace(r.code) || IsSymbolRune(table, r.code) <==> IsBoundary(lex, r)
  {
  }

  /** What the loop appends at a boundary is what the split has there. */
  lemma EmitHere(lex: Lex, msg: Str, tokens0: seq<Token>, tokens: seq<Token>, k: nat, start: int, j: nat, i: int)
    requires k <= j < |Runes(msg)| && 0 <= i <= |msg|
    requires Stands(lex, msg, k, start, j, i) && Emitted(lex, msg, tokens0, tokens, k)
    requires IsBoundary(lex, Runes(msg)[j])
    ensures start < i ==>
      && 0 <= start
      && Emitted(lex, msg, tokens0,
           tokens + [Token(KindOf(lex, Runes(msg[start..i])), msg[start..i])] + [BoundaryToken(lex, Runes(msg)[j])], j + 1)
    ensures start >= i ==> Emitted(lex, msg, tokens0, tokens + [BoundaryToken(lex, Runes(msg)[j])], j + 1)
  {
    EmitAtBoundary(lex, msg, tokens0, tokens, k, j);
    StandsFacts(lex, msg, k, start, j, i);
    if start < i {
      KindOfSegment(lex, Runes(msg)[k..j]);
    } else {
      assert tokens + [] == tokens;
    }
  }

  /** splitTokenCount: the number of tokens the split appends. */
  method SplitTokenCount(lex: Lex, msg: Str, table: Table) returns (count: nat)
    requires Represents(table, lex.symbols)
    ensures count == |SplitOf(lex, msg)|
  {
    if msg == [] {
      return 0;
    }
    hide Represents, SplitOf, SplitRunes, Runes, Flat, IsBoundary, Stands, Emitted;
    EmittedNothing(lex, msg, []);
    count := 0;
    var start, i := 0, 0;
    ghost var k: nat, j: nat := 0, 0;
    ghost var tokens: seq<Token> := [];
    StandsFacts(lex, msg, k, start, j, i);
    while i < |msg|
      invariant 0 <= i <= |msg| && k <= j <= |Runes(msg)|
      invariant Stands(lex, msg, k, start, j, i) && Emitted(lex, msg, [], tokens, k)
      invariant count == |tokens|
      decreases |msg| - i
    {
      count, start, i, k, j, tokens := CountStep(lex, table, msg, count, k, start, j, i, tokens);
    }
    StandsEnd(lex, msg, k, start, j, i);
    EmitAtEnd(lex, msg, [], tokens, k);
    if start < |msg| {
      count := count + 1;
    }
  }

  /** One iteration of the loop. */
  method CountStep(lex: Lex, table: Table, msg: Str, count0: nat, ghost k0: nat, start0: int, ghost j0: nat, i0: int,
      ghost before: seq<Token>)
    returns (count: nat, start: int, i: int, ghost k: nat, ghost j: nat, ghost tokens: seq<Token>)
    requires Represents(table, lex.symbols)
    requires k0 <= j0 <= |Runes(msg)| && 0 <= i0 < |msg| && count0 == |before|
    requires Stands(lex, msg, k0, start0, j0, i0) && Emitted(lex, msg, [], before, k0)
    ensures k <= j <= |Runes(msg)| && i0 < i <= |msg| && count == |tokens|
    ensures Stands(lex, msg, k, start, j, i) && Emitted(lex, msg, [], tokens, k)
  {
    hide Represents, SplitOf, SplitRunes, Runes, Flat, IsBoundary, Stands, Emitted;
    count, start, i, k, j, tokens := count0, start0, i0, k0, j0, before;
    StandsFacts(lex, msg, k, start, j, i);
    var boundary, size := RuneAt(lex, table, msg, i);
    ghost var rune := Runes(msg)[j];
    StandsNew(lex, msg, k, start, j, i);
    StandsFacts(lex, msg, j + 1, i + size, j + 1, i + size);
    if !boundary {
      StandsOn(lex, msg, k, start, j, i);
      i, j := i + size, j + 1;
      return;
    }
    EmitHere(lex, msg, [], tokens, k, start, j, i);
    if start < i {
      tokens := tokens + [Token(KindOf(lex, Runes(msg[start..i])), msg[start..i])];
      count := count + 1;
    }
    tokens := tokens + [BoundaryToken(lex, rune)];
    count := count + 1;
    i := i + size;
    start, k, j := i, j + 1, j + 1;
  }

  /** Is the rune at offset i a boundary, and how long is it? */
  method RuneAt(lex: Lex, table: Table, msg: Str, i: nat) returns (boundary: bool, size: nat)
    requires Represents(table, lex.symbols) && i < |msg|
    ensures boundary == IsBoundary(lex, DecodeRune(msg[i..])) && size == |DecodeRune(msg[i..]).text|
  {
    if msg[i] as int < 128 {
      AsciiBoundary(lex, table, msg, i);
      return table.classes[msg[i] as int] != Other, 1;
    }
    var r := DecodeRune(msg[i..]);
    SymbolRuneBoundary(lex, table, r);
    return lex.tables.IsSpace(r.code) || IsSymbolRune(table, r.code), |r.text|;
  }
}
