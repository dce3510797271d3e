/** A text cut into literal runs and parameters: the common ground of the template
    and the mask that the parser renders for one row, and of the codec that reads them. */
module Pieces {
  import opened Bytes
  import opened Placeholder
  import opened GreedyMatch

  /** Literals and the parameters between them; the template is Join(parts). */
  datatype Cut = Cut(parts: seq<Str>, args: seq<Str>)

  ghost predicate CutOk(c: Cut) {
    |c.parts| == |c.args| + 1
  }

  function Literal(c: Cut, s: Str): Cut
    requires |c.parts| > 0
  {
    Cut(c.parts[|c.parts| - 1 := c.parts[|c.parts| - 1] + s], c.args)
  }

  function OpenParameter(c: Cut, s: Str): Cut {
    Cut(c.parts + [[]], c.args + [s])
  }

  function ExtendParameter(c: Cut, s: Str): Cut
    requires |c.args| > 0
  {
    Cut(c.parts, c.args[|c.args| - 1 := c.args[|c.args| - 1] + s])
  }

  /** Consecutive chunks with the same flag run together; true marks literal text. */
  function CutOf(chunks: seq<Str>, flags: seq<bool>): (c: Cut)
    requires |chunks| == |flags|
    ensures |c.parts| == |c.args| + 1
    ensures flags != [] && !flags[|flags| - 1] ==> c.args != []
  {
    if chunks == [] then Cut([[]], [])
    else
      var n := |chunks| - 1;
      var c := CutOf(chunks[..n], flags[..n]);
      if flags[n] then Literal(c, chunks[n])
      else if n > 0 && !flags[n - 1] then ExtendParameter(c, chunks[n])
      else OpenParameter(c, chunks[n])
  }

  /** The step of CutOf. */
  function Extend(c: Cut, open: bool, s: Str, flag: bool): Cut
    requires CutOk(c) && (open ==> c.args != [])
  {
    if flag then Literal(c, s) else if open then ExtendParameter(c, s) else OpenParameter(c, s)
  }

  /** The text ends inside a parameter. */
  predicate Open(flags: seq<bool>) {
    flags != [] && !flags[|flags| - 1]
  }

  lemma CutSnoc(chunks: seq<Str>, flags: seq<bool>, s: Str, flag: bool)
    requires |chunks| == |flags|
    ensures CutOf(chunks + [s], flags + [flag]) == Extend(CutOf(chunks, flags), Open(flags), s, flag)
  {
    assert (chunks + [s])[..|chunks|] == chunks && (flags + [flag])[..|flags|] == flags;
  }

  // ------------------------------------------------------ independence of chunks

  /** The one-byte chunks of a string. */
  function Chars(s: Str): seq<Str> {
    seq(|s|, i requires 0 <= i < |s| => [s[i]])
  }

  function Repeat<T>(x: T, n: nat): seq<T> {
    seq(n, _ => x)
  }

  lemma ExtendTwice(c: Cut, open: bool, a: Str, b: Str, flag: bool)
    requires CutOk(c) && (open ==> c.args != [])
    ensures CutOk(Extend(c, open, a, flag)) && (!flag ==> Extend(c, open, a, flag).args != [])
    ensures Extend(Extend(c, open, a, flag), !flag, b, flag) == Extend(c, open, a + b, flag)
  {
    if flag {
      var last := c.parts[|c.parts| - 1];
      assert last + a + b == last + (a + b);
    } else if open {
      var last := c.args[|c.args| - 1];
      assert last + a + b == last + (a + b);
    }
  }

  /** Reading a non-empty chunk byte by byte changes nothing. */
  lemma {:induction false} CharsAreChunk(chunks: seq<Str>, flags: seq<bool>, s: Str, flag: bool)
    requires |chunks| == |flags| && s != []
    ensures CutOf(chunks + Chars(s), flags + Repeat(flag, |s|)) == CutOf(chunks + [s], flags + [flag])
    decreases |s|
  {
    var n := |s| - 1;
    var front, last := s[..n], [s[n]];
    assert s == front + last;
    assert chunks + Chars(s) == chunks + Chars(front) + [last];
    assert flags + Repeat(flag, |s|) == flags + Repeat(flag, n) + [flag];
    CutSnoc(chunks + Chars(front), flags + Repeat(flag, n), last, flag);
    CutSnoc(chunks, flags, s, flag);
    if n == 0 {
      assert chunks + Chars(front) == chunks && flags + Repeat(flag, n) == flags && last == s;
    } else {
      CharsAreChunk(chunks, flags, front, flag);
      CutSnoc(chunks, flags, front, flag);
      ExtendTwice(CutOf(chunks, flags), Open(flags), front, last, flag);
    }
  }

  // ------------------------------------------------------------------- masks

  function MaskByte(flag: bool): Byte {
    if flag then '0' else '1'
  }

  /** One mask byte for each byte of each chunk. */
  function MaskOf(chunks: seq<Str>, flags: seq<bool>): Str
    requires |chunks| == |flags|
  {
    if chunks == [] then []
    else
      var n := |chunks| - 1;
      MaskOf(chunks[..n], flags[..n]) + Repeat(MaskByte(flags[n]), |chunks[n]|)
  }

  predicate ValidMask(mask: Str) {
    forall i :: 0 <= i < |mask| ==> mask[i] == '0' || mask[i] == '1'
  }

  function FlagsOf(mask: Str): seq<bool> {
    seq(|mask|, i requires 0 <= i < |mask| => mask[i] == '0')
  }

  /** The cut that a mask describes. */
  function MaskCut(msg: Str, mask: Str): (c: Cut)
    requires |msg| == |mask|
    ensures CutOk(c)
  {
    CutOf(Chars(msg), FlagsOf(mask))
  }

  lemma ConcatSnoc(chunks: seq<Str>)
    requires chunks != []
    ensures Concat(chunks) == Concat(chunks[..|chunks| - 1]) + chunks[|chunks| - 1]
  {
    var n := |chunks| - 1;
    ConcatAppend(chunks[..n], [chunks[n]]);
    ConcatOne(chunks[n]);
    assert chunks == chunks[..n] + [chunks[n]];
  }

  ghost predicate NoEmptyChunk(chunks: seq<Str>) {
    forall i :: 0 <= i < |chunks| ==> chunks[i] != []
  }

  lemma MaskSnoc(text: Str, mask: Str, last: Str, flag: bool)
    requires |text| == |mask| && last != []
    ensures MaskCut(text + last, mask + Repeat(MaskByte(flag), |last|))
         == Extend(MaskCut(text, mask), Open(FlagsOf(mask)), last, flag)
  {
    assert Chars(text + last) == Chars(text) + Chars(last);
    assert FlagsOf(mask + Repeat(MaskByte(flag), |last|)) == FlagsOf(mask) + Repeat(flag, |last|);
    hide CutOf, Extend;
    CharsAreChunk(Chars(text), FlagsOf(mask), last, flag);
    CutSnoc(Chars(text), FlagsOf(mask), last, flag);
  }

  /** The mask of a row of non-empty chunks describes the row's own cut. */
  lemma {:induction false} MaskDescribesRow(chunks: seq<Str>, flags: seq<bool>)
    requires |chunks| == |flags| && NoEmptyChunk(chunks)
    ensures |MaskOf(chunks, flags)| == |Concat(chunks)| && ValidMask(MaskOf(chunks, flags))
    ensures MaskCut(Concat(chunks), MaskOf(chunks, flags)) == CutOf(chunks, flags)
  {
    if chunks != [] {
      var n := |chunks| - 1;
      var front, fs := chunks[..n], flags[..n];
      ConcatSnoc(chunks);
      MaskDescribesRow(front, fs);
      OpenAgrees(front, fs);
      assert chunks == front + [chunks[n]] && flags == fs + [flags[n]];
      CutSnoc(front, fs, chunks[n], flags[n]);
      hide CutOf, Concat, MaskCut, Extend, Open;
      MaskSnoc(Concat(front), MaskOf(front, fs), chunks[n], flags[n]);
    }
  }

  lemma OpenAgrees(chunks: seq<Str>, flags: seq<bool>)
    requires |chunks| == |flags| && NoEmptyChunk(chunks)
    ensures Open(FlagsOf(MaskOf(chunks, flags))) == Open(flags)
  {
  }

  // ------------------------------------------------------------ what cuts mean

  lemma {:induction false} FillLiteral(c: Cut, s: Str)
    requires CutOk(c)
    ensures Fill(Literal(c, s).parts, c.args) == Fill(c.parts, c.args) + s
    decreases |c.args|
  {
    if c.args != [] {
      var rest := Cut(c.parts[1..], c.args[1..]);
      FillLiteral(rest, s);
      assert Literal(c, s).parts[1..] == Literal(rest, s).parts;
      Associate(c.parts[0], c.args[0], Fill(rest.parts, rest.args), s);
    }
  }

  lemma Associate(a: Str, b: Str, c: Str, d: Str)
    ensures a + (b + (c + d)) == a + (b + c) + d
  {
  }

  lemma {:induction false} FillOpened(c: Cut, s: Str)
    requires CutOk(c)
    ensures Fill(c.parts + [[]], c.args + [s]) == Fill(c.parts, c.args) + s
    decreases |c.args|
  {
    var d := OpenParameter(c, s);
    if c.args == [] {
      assert d.args[1..] == [] && d.parts[1..] == [[]];
    } else {
      var rest := Cut(c.parts[1..], c.args[1..]);
      FillOpened(rest, s);
      assert d.parts[1..] == rest.parts + [[]] && d.args[1..] == rest.args + [s];
      Associate(c.parts[0], c.args[0], Fill(rest.parts, rest.args), s);
    }
  }

  lemma {:induction false} FillExtended(c: Cut, s: Str)
    requires CutOk(c) && c.args != [] && c.parts[|c.parts| - 1] == []
    ensures Fill(c.parts, ExtendParameter(c, s).args) == Fill(c.parts, c.args) + s
    decreases |c.args|
  {
    var d := ExtendParameter(c, s);
    if |c.args| == 1 {
      assert c.parts[1..] == [[]] && d.args[1..] == [] == c.args[1..];
      Associate(c.parts[0], c.args[0], [], s);
    } else {
      var rest := Cut(c.parts[1..], c.args[1..]);
      FillExtended(rest, s);
      assert d.args[1..] == ExtendParameter(rest, s).args;
      Associate(c.parts[0], c.args[0], Fill(rest.parts, rest.args), s);
    }
  }

  /** No two placeholders touch. */
  ghost predicate Separated(parts: seq<Str>) {
    forall i :: 0 < i < |parts| - 1 ==> parts[i] != []
  }

  /** The cut of non-empty chunks: non-empty parameters that fill the literals to the
      whole text, and no two parameters side by side. */
  lemma {:induction false} CutDecomposes(chunks: seq<Str>, flags: seq<bool>)
    requires |chunks| == |flags| && NoEmptyChunk(chunks)
    ensures var c := CutOf(chunks, flags);
      && Decomposes(c.parts, c.args, Concat(chunks)) && Separated(c.parts)
      && (Open(flags) <==> chunks != [] && c.parts[|c.parts| - 1] == [])
  {
    if chunks != [] {
      var n := |chunks| - 1;
      var front, fs := chunks[..n], flags[..n];
      CutDecomposes(front, fs);
      ConcatSnoc(chunks);
      var c := CutOf(front, fs);
      if flags[n] {
        FillLiteral(c, chunks[n]);
      } else if n > 0 && !flags[n - 1] {
        assert Open(fs);
        FillExtended(c, chunks[n]);
      } else {
        FillOpened(c, chunks[n]);
      }
    }
  }

  // -------------------------------------------------------------- what masks mean

  /** One byte b for each byte of each string. */
  function Bits(ss: seq<Str>, b: Byte): seq<Str> {
    seq(|ss|, i requires 0 <= i < |ss| => Repeat(b, |ss[i]|))
  }

  function BitCut(c: Cut): Cut {
    Cut(Bits(c.parts, '0'), Bits(c.args, '1'))
  }

  lemma RepeatMore(b: Byte, m: nat, n: nat)
    ensures Repeat(b, m) + Repeat(b, n) == Repeat(b, m + n)
  {
  }

  lemma BitsSnoc(ss: seq<Str>, s: Str, b: Byte)
    ensures Bits(ss + [s], b) == Bits(ss, b) + [Repeat(b, |s|)]
  {
  }

  lemma BitsLonger(ss: seq<Str>, s: Str, b: Byte)
    requires ss != []
    ensures var k := |ss| - 1;
      Bits(ss[k := ss[k] + s], b) == Bits(ss, b)[k := Bits(ss, b)[k] + Repeat(b, |s|)]
  {
    var k := |ss| - 1;
    RepeatMore(b, |ss[k]|, |s|);
    assert |ss[k] + s| == |ss[k]| + |s|;
  }

  lemma BitsOfExtended(c: Cut, open: bool, s: Str, flag: bool)
    requires CutOk(c) && (open ==> c.args != [])
    ensures BitCut(Extend(c, open, s, flag)) == Extend(BitCut(c), open, Repeat(MaskByte(flag), |s|), flag)
  {
    if flag {
      BitsLonger(c.parts, s, '0');
    } else if open {
      BitsLonger(c.args, s, '1');
    } else {
      BitsSnoc(c.args, s, '1');
      BitsSnoc(c.parts, [], '0');
      assert Repeat<Byte>('0', 0) == [];
    }
  }

  /** The mask of a cut: '0' for every byte of a literal, '1' for every byte of a parameter. */
  lemma {:induction false} MaskSpells(chunks: seq<Str>, flags: seq<bool>)
    requires |chunks| == |flags| && NoEmptyChunk(chunks)
    ensures var c := CutOf(chunks, flags);
      MaskOf(chunks, flags) == Fill(Bits(c.parts, '0'), Bits(c.args, '1'))
  {
    if chunks != [] {
      var n := |chunks| - 1;
      var front, fs := chunks[..n], flags[..n];
      MaskSpells(front, fs);
      var c := CutOf(front, fs);
      var bits := BitCut(c);
      var s := Repeat(MaskByte(flags[n]), |chunks[n]|);
      assert chunks == front + [chunks[n]] && flags == fs + [flags[n]];
      CutSnoc(front, fs, chunks[n], flags[n]);
      BitsOfExtended(c, Open(fs), chunks[n], flags[n]);
      CutDecomposes(front, fs);
      hide CutOf, Bits;
      if flags[n] {
        FillLiteral(bits, s);
      } else if Open(fs) {
        FillExtended(bits, s);
      } else {
        FillOpened(bits, s);
      }
    }
  }

  lemma {:induction false} MaskOfChars(msg: Str, mask: Str)
    requires |msg| == |mask| && ValidMask(mask)
    ensures MaskOf(Chars(msg), FlagsOf(mask)) == mask
  {
    if msg != [] {
      var n := |msg| - 1;
      MaskOfChars(msg[..n], mask[..n]);
      assert Chars(msg)[..n] == Chars(msg[..n]) && FlagsOf(mask)[..n] == FlagsOf(mask[..n]);
      assert mask == mask[..n] + [mask[n]];
    }
  }

  /** A mask cuts a message into its runs: the runs of '0' are the literals, the runs of '1' the
      parameters. */
  lemma MaskMeans(msg: Str, mask: Str)
    requires |msg| == |mask| && ValidMask(mask)
    ensures var c := MaskCut(msg, mask);
      && Decomposes(c.parts, c.args, msg) && Separated(c.parts)
      && mask == Fill(Bits(c.parts, '0'), Bits(c.args, '1'))
  {
    assert NoEmptyChunk(Chars(msg));
    CutDecomposes(Chars(msg), FlagsOf(mask));
    ConcatChars(msg);
    MaskSpells(Chars(msg), FlagsOf(mask));
    MaskOfChars(msg, mask);
  }

  lemma {:induction false} ConcatChars(msg: Str)
    ensures Concat(Chars(msg)) == msg
  {
    if msg != [] {
      ConcatChars(msg[1..]);
      assert Chars(msg)[1..] == Chars(msg[1..]);
    }
  }

  // -------------------------------------------------- rendering and reading back

  lemma {:induction false} JoinLiteral(parts: seq<Str>, s: Str)
    requires parts != []
    ensures Join(parts[|parts| - 1 := parts[|parts| - 1] + s]) == Join(parts) + s
  {
    if |parts| > 1 {
      var ext := parts[|parts| - 1 := parts[|parts| - 1] + s];
      JoinLiteral(parts[1..], s);
      assert ext[1..] == parts[1..][|parts| - 2 := parts[|parts| - 1] + s];
      assert parts[0] + PLACEHOLDER + (Join(parts[1..]) + s) == parts[0] + PLACEHOLDER + Join(parts[1..]) + s;
    }
  }

  lemma {:induction false} JoinOpened(parts: seq<Str>)
    requires parts != []
    ensures Join(parts + [[]]) == Join(parts) + PLACEHOLDER
  {
    if |parts| == 1 {
      assert (parts + [[]])[1..] == [[]];
    } else {
      JoinOpened(parts[1..]);
      assert (parts + [[]])[1..] == parts[1..] + [[]];
      assert parts[0] + PLACEHOLDER + (Join(parts[1..]) + PLACEHOLDER) == Join(parts) + PLACEHOLDER;
    }
  }

  /** Splitting a joined template finds at least its parts, and exactly as many only
      if none of them contains the placeholder. */
  lemma {:induction false} SplitCounts(parts: seq<Str>)
    requires parts != []
    ensures |Split(Join(parts))| >= |parts|
    ensures |Split(Join(parts))| == |parts| <==> AllFree(parts)
  {
    SplitOneIff(parts[0]);
    if |parts| > 1 {
      SplitAt(parts[0], Join(parts[1..]));
      SplitCounts(parts[1..]);
      AllFreeCons(parts);
    }
  }

  lemma AllFreeCons(parts: seq<Str>)
    requires parts != []
    ensures AllFree(parts) <==> Free(parts[0]) && AllFree(parts[1..])
  {
    hide Free;
    if Free(parts[0]) && AllFree(parts[1..]) {
      forall i | 0 <= i < |parts| ensures Free(parts[i]) {
        if i > 0 { assert parts[i] == parts[1..][i - 1]; }
      }
    }
  }

  lemma SplitOneIff(s: Str)
    ensures |Split(s)| >= 1 && (|Split(s)| == 1 <==> Free(s))
  {
    var i := Index(s, PLACEHOLDER);
    if i >= 0 {
      assert OccursAt(s, PLACEHOLDER, i);
    }
  }
}
