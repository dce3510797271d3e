/** The class-byte splitter of tokenize_simd.go, proved equal to the scalar one on
    ASCII text. The portable classifier stands for the vector kernels. */
module TokenizeSimd {
  import opened Bytes
  import opened Unicode
  import opened Tokens
  import opened Splitting
  import opened SymbolTable
  import opened Tokenizer

  const SPACE_BIT: bv8 := 1
  const SYMBOL_BIT: bv8 := 2
  const LETTER_BIT: bv8 := 4
  const DIGIT_BIT: bv8 := 8
  const NON_ASCII_BIT: bv8 := 16
  const BOUNDARY_BITS: bv8 := 19

  const SIMD_MIN_LEN := 32
  const SIMD_MAX_LEN := 1024

  predicate SymbolBit(symLo: seq<bv8>, b: nat)
    requires |symLo| == 16
  {
    b < 128 && NibbleHas(symLo, b)
  }

  function OrIf(c: bv8, cond: bool, bit: bv8): bv8 {
    if cond then c | bit else c
  }

  /** The class byte of one input byte. */
  function ClassByte(symLo: seq<bv8>, b: nat): bv8
    requires |symLo| == 16 && b < 256
  {
    var c1 := OrIf(0, b == 32 || 9 <= b <= 13, SPACE_BIT);
    var c2 := OrIf(c1, 97 <= Lower(b) <= 122, LETTER_BIT);
    var c3 := OrIf(c2, 48 <= b <= 57, DIGIT_BIT);
    var c4 := OrIf(c3, b >= 128, NON_ASCII_BIT);
    OrIf(c4, SymbolBit(symLo, b), SYMBOL_BIT)
  }

  /** Five conditions in five bits. */
  lemma FlagBits(space: bool, letter: bool, digit: bool, wide: bool, symbol: bool)
    ensures var c := OrIf(OrIf(OrIf(OrIf(OrIf(0, space, SPACE_BIT), letter, LETTER_BIT), digit, DIGIT_BIT),
                                wide, NON_ASCII_BIT), symbol, SYMBOL_BIT);
      && (c & SPACE_BIT != 0 <==> space) && (c & LETTER_BIT != 0 <==> letter) && (c & DIGIT_BIT != 0 <==> digit)
      && (c & NON_ASCII_BIT != 0 <==> wide) && (c & SYMBOL_BIT != 0 <==> symbol)
      && (c & BOUNDARY_BITS == 0 <==> !space && !wide && !symbol)
  {
  }

  /** The class byte answers the scalar splitter's questions about the byte. */
  lemma ClassByteMeans(lex: Lex, table: Table, b: nat)
    requires Represents(table, lex.symbols) && b < 256
    ensures var c := ClassByte(table.symLo, b);
      && (c & NON_ASCII_BIT != 0 <==> b >= 128)
      && (c & BOUNDARY_BITS == 0 <==> b < 128 && table.classes[b] == Other)
      && (b < 128 ==> (c & SPACE_BIT != 0 <==> table.classes[b] == Space))
      && (b < 128 ==> (c & LETTER_BIT != 0 <==> AsciiLetter(b)) && (c & DIGIT_BIT != 0 <==> AsciiDigit(b)))
  {
    FlagBits(b == 32 || 9 <= b <= 13, 97 <= Lower(b) <= 122, 48 <= b <= 57, b >= 128, SymbolBit(table.symLo, b));
    if b < 128 {
      LowerIsLetter(b);
      assert table.classes[b] == ClassOf(lex.symbols, b);
    }
  }

  /** `if cond { c |= bit }` */
  method OrBit(c0: bv8, cond: bool, bit: bv8) returns (c: bv8)
    ensures c == OrIf(c0, cond, bit)
  {
    c := c0;
    if cond {
      c := c | bit;
    }
  }

  /** The body of the classification loop. */
  method ClassifyByte(symLo: seq<bv8>, b: nat) returns (c: bv8)
    requires |symLo| == 16 && b < 256
    ensures c == ClassByte(symLo, b)
  {
    hide OrIf, SymbolBit, Lower;
    c := OrBit(0, b == 32 || 9 <= b <= 13, SPACE_BIT);
    var lower := Lower(b);
    c := OrBit(c, 97 <= lower <= 122, LETTER_BIT);
    c := OrBit(c, 48 <= b <= 57, DIGIT_BIT);
    c := OrBit(c, b >= 128, NON_ASCII_BIT);
    c := OrBit(c, SymbolBit(symLo, b), SYMBOL_BIT);
  }

  /** classifyBytesGo writes one class byte per input byte. */
  method ClassifyBytes(src: Str, symLo: seq<bv8>, dst: array<bv8>)
    requires |symLo| == 16 && |src| <= dst.Length
    modifies dst
    ensures forall i :: 0 <= i < |src| ==> dst[i] == ClassByte(symLo, src[i] as int)
  {
    hide ClassByte;
    for i := 0 to |src|
      invariant forall j :: 0 <= j < i ==> dst[j] == ClassByte(symLo, src[j] as int)
    {
      dst[i] := ClassifyByte(symLo, src[i] as int);
    }
  }

  /** segmentToken: the kind of a stretch from its accumulated class bits. */
  function SegmentOf(slice: Str, acc: bv8): Token {
    if acc & LETTER_BIT != 0 then Token(Alphabetic, slice)
    else if acc & DIGIT_BIT != 0 then Token(Numeric, slice)
    else Token(Impure, slice)
  }

  /** The accumulator has the letter (digit) bit iff all bytes of the stretch are letters (digits). */
  ghost predicate Accumulated(acc: bv8, stretch: Str) {
    && (acc & LETTER_BIT != 0 <==> LetterBytes(stretch))
    && (acc & DIGIT_BIT != 0 <==> DigitBytes(stretch))
  }

  lemma AndBits(acc: bv8, c: bv8)
    ensures (acc & c) & LETTER_BIT != 0 <==> acc & LETTER_BIT != 0 && c & LETTER_BIT != 0
    ensures (acc & c) & DIGIT_BIT != 0 <==> acc & DIGIT_BIT != 0 && c & DIGIT_BIT != 0
  {
  }

  lemma AccumulateStep(acc: bv8, c: bv8, stretch: Str, b: Byte)
    requires Accumulated(acc, stretch)
    requires (c & LETTER_BIT != 0 <==> AsciiLetter(b as int)) && (c & DIGIT_BIT != 0 <==> AsciiDigit(b as int))
    ensures Accumulated(acc & c, stretch + [b])
  {
    AndBits(acc, c);
    var t := stretch + [b];
    assert t[|stretch|] == b;
    assert forall i :: 0 <= i < |stretch| ==> t[i] == stretch[i];
  }

  /** Offsets and rune positions coincide in ASCII text. */
  lemma {:induction false} AsciiOffset(msg: Str, j: nat)
    requires IsAscii(msg) && j <= |msg|
    ensures j <= |Runes(msg)| == |msg| && |Flat(Runes(msg)[..j])| == j
  {
    AsciiRunes(msg);
    if j > 0 {
      AsciiOffset(msg, j - 1);
      FlatSnoc(Runes(msg), j - 1);
    }
  }

  /** For ASCII text the loop of the scalar splitter is at the same place. */
  ghost predicate InStep(lex: Lex, msg: Str, tokens0: seq<Token>, tokens: seq<Token>, start: int, i: int) {
    && 0 <= start <= i <= |msg|
    && (IsAscii(msg) ==>
          && i <= |Runes(msg)|
          && Stands(lex, msg, start, start, i, i) && Emitted(lex, msg, tokens0, tokens, start))
  }

  lemma InStepStart(lex: Lex, msg: Str, tokens0: seq<Token>)
    ensures InStep(lex, msg, tokens0, tokens0, 0, 0)
  {
    EmittedNothing(lex, msg, tokens0);
  }

  lemma AsciiPart(msg: Str, start: nat, i: nat)
    requires IsAscii(msg) && start <= i <= |msg|
    ensures IsAscii(msg[start..i])
  {
    assert forall j :: 0 <= j < i - start ==> msg[start..i][j] == msg[start + j];
  }

  lemma OpenStretch(lex: Lex, msg: Str, k: nat, start: int, j: nat, i: int)
    requires Stands(lex, msg, k, start, j, i)
    ensures 0 <= start <= i <= |msg| && k <= j <= |Runes(msg)| && NoBoundary(lex, Runes(msg)[k..j])
    ensures Runes(msg[start..i]) == Runes(msg)[k..j] && msg[start..i] == Flat(Runes(msg)[k..j])
  {
    StandsFacts(lex, msg, k, start, j, i);
    hide Runes, Flat;
  }

  lemma SegmentOfIs(lex: Lex, msg: Str, start: int, i: int, acc: bv8)
    requires IsAscii(msg) && 0 <= start < i <= |msg| && Accumulated(acc, msg[start..i])
    requires i <= |Runes(msg)| && Stands(lex, msg, start, start, i, i)
    ensures SegmentOf(msg[start..i], acc) == Token(KindOf(lex, Runes(msg[start..i])), msg[start..i])
    ensures SegmentOf(msg[start..i], acc) == SegmentToken(lex, Runes(msg)[start..i])
  {
    hide *;
    OpenStretch(lex, msg, start, start, i, i);
    AsciiPart(msg, start, i);
    SegmentFromBits(lex, msg[start..i], acc);
  }

  /** The bits of a boundary-free stretch give its kind. */
  lemma SegmentFromBits(lex: Lex, slice: Str, acc: bv8)
    requires IsAscii(slice) && slice != [] && Accumulated(acc, slice) && NoBoundary(lex, Runes(slice))
    requires Flat(Runes(slice)) == slice
    ensures SegmentOf(slice, acc) == Token(KindOf(lex, Runes(slice)), slice) == SegmentToken(lex, Runes(slice))
  {
    AsciiRunes(slice);
    AllLettersAscii(lex, Runes(slice), slice);
    hide IsAscii, NoBoundary, Runes, AllLetters, AllDigits, LetterBytes, DigitBytes;
    KindOfSegment(lex, Runes(slice));
  }

  /** A byte that is no boundary extends the stretch. */
  lemma InStepOn(lex: Lex, table: Table, msg: Str, tokens0: seq<Token>, tokens: seq<Token>, start: int, i: int)
    requires Represents(table, lex.symbols) && InStep(lex, msg, tokens0, tokens, start, i) && i < |msg|
    requires msg[i] as int < 128 && table.classes[msg[i] as int] == Other
    ensures InStep(lex, msg, tokens0, tokens, start, i + 1)
  {
    if IsAscii(msg) {
      StandsFacts(lex, msg, start, start, i, i);
      AsciiBoundary(lex, table, msg, i);
      StandsOn(lex, msg, start, start, i, i);
    }
  }

  function StretchTokens(msg: Str, start: int, i: int, acc: bv8): seq<Token>
    requires 0 <= start <= i <= |msg|
  {
    if start < i then [SegmentOf(msg[start..i], acc)] else []
  }

  /** At a boundary the open stretch and the boundary byte are emitted. */
  lemma InStepBoundary(lex: Lex, table: Table, msg: Str, tokens0: seq<Token>, tokens: seq<Token>, start: int, i: int,
      acc: bv8)
    requires Represents(table, lex.symbols) && InStep(lex, msg, tokens0, tokens, start, i) && i < |msg|
    requires msg[i] as int < 128 && table.classes[msg[i] as int] != Other
    requires Accumulated(acc, msg[start..i])
    ensures var kind := if table.classes[msg[i] as int] == Space then Whitespace else Symbolic;
      InStep(lex, msg, tokens0, tokens + StretchTokens(msg, start, i, acc) + [Token(kind, msg[i..i + 1])], i + 1, i + 1)
  {
    if IsAscii(msg) {
      StandsFacts(lex, msg, start, start, i, i);
      AsciiBoundary(lex, table, msg, i);
      StandsNew(lex, msg, start, start, i, i);
      EmitHere(lex, msg, tokens0, tokens, start, start, i, i);
      if start < i {
        SegmentOfIs(lex, msg, start, i, acc);
      } else {
        assert tokens + [] == tokens;
      }
    }
  }

  /** At the end of ASCII text only the open stretch is left to emit. */
  lemma InStepEnd(lex: Lex, msg: Str, tokens0: seq<Token>, tokens: seq<Token>, start: int, acc: bv8)
    requires InStep(lex, msg, tokens0, tokens, start, |msg|) && IsAscii(msg)
    requires Accumulated(acc, msg[start..|msg|])
    ensures tokens + StretchTokens(msg, start, |msg|, acc) == tokens0 + SplitOf(lex, msg)
  {
    StandsEnd(lex, msg, start, start, |msg|, |msg|);
    EmitAtEnd(lex, msg, tokens0, tokens, start);
    StandsFacts(lex, msg, start, start, |msg|, |msg|);
    assert Runes(msg)[start..|msg|] == Runes(msg)[start..];
    if start < |msg| {
      SegmentOfIs(lex, msg, start, |msg|, acc);
    }
  }

  /** The loop stands at offset i with all bytes before it ASCII. */
  ghost predicate Track(lex: Lex, msg: Str, tokens0: seq<Token>, tokens: seq<Token>, start: int, i: int, acc: bv8) {
    InStep(lex, msg, tokens0, tokens, start, i) && IsAscii(msg[..i]) && Accumulated(acc, msg[start..i])
  }

  lemma TrackStart(lex: Lex, msg: Str, tokens0: seq<Token>)
    ensures Track(lex, msg, tokens0, tokens0, 0, 0, 0xFF)
  {
    InStepStart(lex, msg, tokens0);
    AccumulateNone(0xFF);
  }

  /** One iteration, by the class byte of the current byte. */
  lemma TrackStep(lex: Lex, table: Table, msg: Str, tokens0: seq<Token>, tokens: seq<Token>,
      start: int, i: int, acc: bv8, c: bv8)
    requires Represents(table, lex.symbols) && 0 <= i < |msg| && c == ClassByte(table.symLo, msg[i] as int)
    requires Track(lex, msg, tokens0, tokens, start, i, acc)
    ensures 0 <= start <= i
    ensures c & BOUNDARY_BITS == 0 ==> Track(lex, msg, tokens0, tokens, start, i + 1, acc & c)
    ensures c & NON_ASCII_BIT != 0 ==> !IsAscii(msg)
    ensures c & BOUNDARY_BITS != 0 && c & NON_ASCII_BIT == 0 ==>
      var kind := if c & SPACE_BIT != 0 then Whitespace else Symbolic;
      Track(lex, msg, tokens0, tokens + StretchTokens(msg, start, i, acc) + [Token(kind, msg[i..i + 1])], i + 1, i + 1, 0xFF)
  {
    hide Accumulated, ClassByte, SegmentOf;
    assert msg[..i + 1] == msg[..i] + [msg[i]];
    assert msg[start..i + 1] == msg[start..i] + [msg[i]];
    assert msg[i + 1..i + 1] == [];
    ClassByteMeans(lex, table, msg[i] as int);
    hide InStep;
    if c & BOUNDARY_BITS == 0 {
      AccumulateStep(acc, c, msg[start..i], msg[i]);
      InStepOn(lex, table, msg, tokens0, tokens, start, i);
    } else if c & NON_ASCII_BIT == 0 {
      InStepBoundary(lex, table, msg, tokens0, tokens, start, i, acc);
      AccumulateNone(0xFF);
    }
  }

  lemma TrackEnd(lex: Lex, msg: Str, tokens0: seq<Token>, tokens: seq<Token>, start: int, acc: bv8)
    requires Track(lex, msg, tokens0, tokens, start, |msg|, acc)
    ensures IsAscii(msg) && 0 <= start <= |msg| && msg[start..|msg|] == msg[start..]
    ensures tokens + StretchTokens(msg, start, |msg|, acc) == tokens0 + SplitOf(lex, msg)
  {
    assert msg[..|msg|] == msg;
    InStepEnd(lex, msg, tokens0, tokens, start, acc);
  }

  /** appendSplitTokenSIMD: on ASCII text the scalar result, otherwise ok=false
      and the original tokens. */
  method AppendSplitTokenSimd(lex: Lex, tokens0: seq<Token>, msg: Str, table: Table)
    returns (tokens: seq<Token>, ok: bool)
    requires Represents(table, lex.symbols) && |msg| <= SIMD_MAX_LEN
    ensures ok <==> IsAscii(msg)
    ensures tokens == if ok then tokens0 + SplitOf(lex, msg) else tokens0
  {
    hide Represents, Track, ClassByte, SplitOf, SegmentOf, IsAscii;
    var classes := new bv8[SIMD_MAX_LEN](_ => 0);
    ClassifyBytes(msg, LowNibbles(table, lex.symbols), classes);
    tokens := tokens0;
    var start := 0;
    var acc: bv8 := 0xFF;
    TrackStart(lex, msg, tokens0);
    for i := 0 to |msg|
      invariant Track(lex, msg, tokens0, tokens, start, i, acc)
      invariant forall j :: 0 <= j < |msg| ==> classes[j] == ClassByte(LowNibbles(table, lex.symbols), msg[j] as int)
    {
      var c := classes[i];
      TrackStep(lex, table, msg, tokens0, tokens, start, i, acc, c);
      if c & BOUNDARY_BITS == 0 {
        acc := acc & c;
        continue;
      }
      if c & NON_ASCII_BIT != 0 {
        return tokens0, false;
      }
      if start < i {
        tokens := tokens + [SegmentOf(msg[start..i], acc)];
      } else {
        assert tokens + [] == tokens;
      }
      var kind := if c & SPACE_BIT != 0 then Whitespace else Symbolic;
      tokens := tokens + [Token(kind, msg[i..i + 1])];
      start := i + 1;
      acc := 0xFF;
    }
    TrackEnd(lex, msg, tokens0, tokens, start, acc);
    if start < |msg| {
      tokens := tokens + [SegmentOf(msg[start..], acc)];
    } else {
      assert tokens + [] == tokens;
    }
    return tokens, true;
  }

  function LowNibbles(table: Table, ghost symbols: set<nat>): (symLo: seq<bv8>)
    requires Represents(table, symbols)
    ensures |symLo| == 16
  {
    table.symLo
  }

  lemma AccumulateNone(acc: bv8)
    requires acc == 0xFF
    ensures Accumulated(acc, [])
  {
  }

  /** appendSplitToken: the vector path for lines of suitable length, if there is
      one and the line is ASCII, and the scalar path otherwise. */
  method AppendSplitToken(lex: Lex, tokens0: seq<Token>, msg: Str, table: Table, simdTokenize: bool)
    returns (tokens: seq<Token>)
    requires Represents(table, lex.symbols)
    ensures tokens == tokens0 + SplitOf(lex, msg)
  {
    if simdTokenize && |msg| >= SIMD_MIN_LEN && |msg| <= SIMD_MAX_LEN {
      var out, ok := AppendSplitTokenSimd(lex, tokens0, msg, table);
      if ok {
        return out;
      }
    }
    tokens := AppendSplitTokenScalar(lex, tokens0, msg, table);
  }
}
