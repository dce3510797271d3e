/** Cutting special tokens out of a message by literals and regular expressions. */
module Specials {
  import opened Bytes
  import opened Unicode
  import opened GreedyMatch

  datatype PreKind = Unrefined | White | Black

  datatype PreToken = PreToken(kind: PreKind, slice: Str)

  /** A regular expression is known only by what FindStringIndex returns. */
  type Finder = Str -> Option<(nat, nat)>

  ghost predicate FinderOk(find: Finder) {
    forall s :: find(s).Some? ==> find(s).value.0 <= find(s).value.1 <= |s|
  }

  datatype SpecialMatcher = Literal(text: Str) | Regex(find: Finder)

  ghost predicate MatcherOk(m: SpecialMatcher) {
    match m
    case Literal(text) => text != []
    case Regex(find) => FinderOk(find)
  }

  function PreText(pre: seq<PreToken>): Str {
    if pre == [] then [] else pre[0].slice + PreText(pre[1..])
  }

  lemma {:induction false} PreTextAppend(a: seq<PreToken>, b: seq<PreToken>)
    ensures PreText(a + b) == PreText(a) + PreText(b)
  {
    if a == [] {
      assert a + b == b;
    } else {
      assert (a + b)[1..] == a[1..] + b;
      PreTextAppend(a[1..], b);
    }
  }

  function Rest(s: Str): seq<PreToken> {
    if s == [] then [] else [PreToken(Unrefined, s)]
  }

  lemma PieceText(front: Str, special: PreToken, rest: seq<PreToken>)
    ensures PreText(Rest(front) + [special] + rest) == front + special.slice + PreText(rest)
  {
    var a, b := Rest(front), [special];
    assert b[1..] == [] && (a != [] ==> a[1..] == []);
    PreTextAppend(a, b);
    PreTextAppend(a + b, rest);
  }

  // ---------------------------------------------------------------- literals

  /** The pieces of msg[last..] around the non-overlapping occurrences of a literal. */
  function LiteralPieces(msg: Str, literal: Str, kind: PreKind, last: nat): seq<PreToken>
    requires literal != [] && last <= |msg|
    decreases |msg| - last
  {
    var next := Index(msg[last..], literal);
    if next < 0 then Rest(msg[last..])
    else
      var start, end := last + next, last + next + |literal|;
      Rest(msg[last..start]) + [PreToken(kind, msg[start..end])] + LiteralPieces(msg, literal, kind, end)
  }

  function SplitLiteral(msg: Str, literal: Str, kind: PreKind): seq<PreToken>
    requires literal != []
  {
    if Contains(msg, literal) then LiteralPieces(msg, literal, kind, 0) else [PreToken(Unrefined, msg)]
  }

  /** Unrefined pieces are non-empty and free of the literal; special pieces are the literal. */
  ghost predicate LiteralPiece(p: PreToken, literal: Str, kind: PreKind) {
    || p == PreToken(kind, literal)
    || (p.kind == Unrefined && p.slice != [] && !Occurs(p.slice, literal))
  }

  /** The text before the first occurrence is free of the literal. */
  lemma FreeFront(msg: Str, literal: Str, last: nat)
    requires literal != [] && last <= |msg| && Index(msg[last..], literal) >= 0
    ensures var next := Index(msg[last..], literal);
      && last + next + |literal| <= |msg|
      && !Occurs(msg[last..last + next], literal) && msg[last + next..last + next + |literal|] == literal
  {
    var s := msg[last..];
    var next := Index(s, literal);
    OccursAtDrop(msg, last, literal, next);
    assert s[..next] == msg[last..last + next];
    forall k: nat ensures !OccursAt(s[..next], literal, k) {
      if k + |literal| <= next { OccursAtTake(s, next, literal, k); }
    }
  }

  lemma {:induction false} LiteralPiecesText(msg: Str, literal: Str, kind: PreKind, last: nat)
    requires literal != [] && last <= |msg|
    ensures PreText(LiteralPieces(msg, literal, kind, last)) == msg[last..]
    decreases |msg| - last
  {
    hide OccursAt;
    var next := Index(msg[last..], literal);
    RestText(msg[last..]);
    if next >= 0 {
      var start, end := last + next, last + next + |literal|;
      LiteralPiecesText(msg, literal, kind, end);
      var tail := LiteralPieces(msg, literal, kind, end);
      var special := PreToken(kind, msg[start..end]);
      assert LiteralPieces(msg, literal, kind, last) == Rest(msg[last..start]) + [special] + tail;
      hide LiteralPieces, Rest;
      PieceText(msg[last..start], special, tail);
      CutRange(msg, last, start, end);
    }
  }

  lemma NoneLeft(s: Str, literal: Str)
    ensures Index(s, literal) < 0 ==> !Occurs(s, literal)
  {
  }

  lemma {:induction false} LiteralPiecesClean(msg: Str, literal: Str, kind: PreKind, last: nat)
    requires literal != [] && last <= |msg|
    ensures forall p :: p in LiteralPieces(msg, literal, kind, last) ==> LiteralPiece(p, literal, kind)
    decreases |msg| - last
  {
    hide OccursAt, Occurs;
    var next := Index(msg[last..], literal);
    NoneLeft(msg[last..], literal);
    if next >= 0 {
      FreeFront(msg, literal, last);
      var start, end := last + next, last + next + |literal|;
      var special, tail := PreToken(kind, msg[start..end]), LiteralPieces(msg, literal, kind, end);
      assert LiteralPieces(msg, literal, kind, last) == Rest(msg[last..start]) + [special] + tail;
      assert forall p :: p in Rest(msg[last..start]) ==> LiteralPiece(p, literal, kind);
      assert LiteralPiece(special, literal, kind);
      hide *;
      LiteralPiecesClean(msg, literal, kind, end);
    }
  }

  lemma RestText(s: Str)
    ensures PreText(Rest(s)) == s
  {
    assert s != [] ==> Rest(s)[1..] == [];
  }

  /** The literal splitter keeps the text and leaves no occurrence uncut. */
  lemma LiteralSplitExact(msg: Str, literal: Str, kind: PreKind)
    requires literal != []
    ensures PreText(SplitLiteral(msg, literal, kind)) == msg
    ensures forall p :: p in SplitLiteral(msg, literal, kind) ==>
              LiteralPiece(p, literal, kind) || (p == PreToken(Unrefined, msg) && msg == [])
  {
    LiteralPiecesText(msg, literal, kind, 0);
    LiteralPiecesClean(msg, literal, kind, 0);
    assert msg[0..] == msg;
    assert [PreToken(Unrefined, msg)][1..] == [];
  }

  lemma CutRange(msg: Str, last: nat, start: nat, end: nat)
    requires last <= start <= end <= |msg|
    ensures msg[last..] == msg[last..start] + msg[start..end] + msg[end..]
  {
  }

  /** What one round of the loop appends. */
  lemma NextLiteral(dst: seq<PreToken>, msg: Str, literal: Str, kind: PreKind, last: nat)
    requires literal != [] && last <= |msg| && Index(msg[last..], literal) >= 0
    ensures var start, end := last + Index(msg[last..], literal), last + Index(msg[last..], literal) + |literal|;
      && (if start > last then dst + [PreToken(Unrefined, msg[last..start])] else dst) + [PreToken(kind, msg[start..end])]
           + LiteralPieces(msg, literal, kind, end)
        == dst + LiteralPieces(msg, literal, kind, last)
  {
    var start, end := last + Index(msg[last..], literal), last + Index(msg[last..], literal) + |literal|;
    var special, tail := [PreToken(kind, msg[start..end])], LiteralPieces(msg, literal, kind, end);
    assert LiteralPieces(msg, literal, kind, last) == Rest(msg[last..start]) + special + tail;
    assert dst + Rest(msg[last..start]) == if start > last then dst + [PreToken(Unrefined, msg[last..start])] else dst;
    hide *;
    Regroup3(dst, Rest(msg[last..start]), special, tail);
  }

  /** appendSplitSpecialLiteral */
  method AppendSplitSpecialLiteral(dst0: seq<PreToken>, msg: Str, literal: Str, kind: PreKind)
    returns (dst: seq<PreToken>)
    requires literal != []
    ensures dst == dst0 + SplitLiteral(msg, literal, kind)
  {
    hide OccursAt, Occurs, Index;
    dst := dst0;
    if !Contains(msg, literal) {
      return dst + [PreToken(Unrefined, msg)];
    }
    var last: nat := 0;
    while true
      invariant last <= |msg|
      invariant dst + LiteralPieces(msg, literal, kind, last) == dst0 + SplitLiteral(msg, literal, kind)
      decreases |msg| - last
    {
      var next := Index(msg[last..], literal);
      if next < 0 {
        break;
      }
      var start := last + next;
      var end := start + |literal|;
      NextLiteral(dst, msg, literal, kind, last);
      if start > last {
        dst := dst + [PreToken(Unrefined, msg[last..start])];
      }
      dst := dst + [PreToken(kind, msg[start..end])];
      last := end;
    }
    if last < |msg| {
      dst := dst + [PreToken(Unrefined, msg[last..])];
    }
  }

  lemma Regroup3(a: seq<PreToken>, b: seq<PreToken>, c: seq<PreToken>, d: seq<PreToken>)
    ensures a + (b + c + d) == a + b + c + d
  {
  }

  // ------------------------------------------------------ regular expressions

  /** Where the scan goes on after an empty match at `start`. */
  function SkipTo(msg: Str, start: nat): nat
    requires start < |msg|
  {
    start + |DecodeRune(msg[start..]).text|
  }

  /** What one iteration of the scan at `last` finds: nothing more, an empty match
      to step over, or a special token msg[start..end]. */
  datatype Step = Stop | Skip(to: nat) | Cut(start: nat, end: nat)

  function StepAt(msg: Str, find: Finder, last: nat): (step: Step)
    requires FinderOk(find) && last <= |msg|
    ensures step.Skip? ==> last < step.to <= |msg|
    ensures step.Cut? ==> last <= step.start < step.end <= |msg|
  {
    match find(msg[last..])
    case None => Stop
    case Some(range) =>
      var start, end := last + range.0, last + range.1;
      if end > start then Cut(start, end) else if start >= |msg| then Stop else Skip(SkipTo(msg, start))
  }

  /** The pieces appended by the scan from `last` on. */
  function RegexPieces(msg: Str, find: Finder, kind: PreKind, last: nat, matched: bool): seq<PreToken>
    requires FinderOk(find) && last <= |msg|
    decreases |msg| - last
  {
    match StepAt(msg, find, last)
    case Stop => if matched then Rest(msg[last..]) else [PreToken(Unrefined, msg)]
    case Skip(to) => RegexPieces(msg, find, kind, to, matched)
    case Cut(start, end) =>
      Rest(msg[last..start]) + [PreToken(kind, msg[start..end])] + RegexPieces(msg, find, kind, end, true)
  }

  /** Does the scan from `last` on find a non-empty match? */
  predicate Matches(msg: Str, find: Finder, last: nat)
    requires FinderOk(find) && last <= |msg|
    decreases |msg| - last
  {
    match StepAt(msg, find, last)
    case Stop => false
    case Skip(to) => Matches(msg, find, to)
    case Cut(_, _) => true
  }

  /** Does the scan from `last` on step over text at an empty match? */
  predicate Skips(msg: Str, find: Finder, last: nat)
    requires FinderOk(find) && last <= |msg|
    decreases |msg| - last
  {
    match StepAt(msg, find, last)
    case Stop => false
    case Skip(_) => true
    case Cut(_, end) => Skips(msg, find, end)
  }

  function SplitRegex(msg: Str, find: Finder, kind: PreKind): seq<PreToken>
    requires FinderOk(find)
  {
    RegexPieces(msg, find, kind, 0, false)
  }

  /** Text is lost exactly when the scan both skips at an empty match and finds
      a non-empty one. */
  predicate RegexLoses(msg: Str, find: Finder)
    requires FinderOk(find)
  {
    Matches(msg, find, 0) && Skips(msg, find, 0)
  }

  lemma {:induction false} RegexPiecesText(msg: Str, find: Finder, kind: PreKind, last: nat, matched: bool)
    requires FinderOk(find) && last <= |msg| && (matched || Matches(msg, find, last))
    ensures var text := PreText(RegexPieces(msg, find, kind, last, matched));
      if Skips(msg, find, last) then |text| < |msg| - last else text == msg[last..]
    decreases |msg| - last
  {
    hide StepAt, FinderOk, Rest;
    RestText(msg[last..]);
    match StepAt(msg, find, last)
    case Stop =>
    case Skip(to) =>
      RegexPiecesText(msg, find, kind, to, matched);
    case Cut(start, end) =>
      RegexPiecesText(msg, find, kind, end, true);
      PieceText(msg[last..start], PreToken(kind, msg[start..end]), RegexPieces(msg, find, kind, end, true));
      CutRange(msg, last, start, end);
  }

  lemma {:induction false} RegexUnmatched(msg: Str, find: Finder, kind: PreKind, last: nat)
    requires FinderOk(find) && last <= |msg| && !Matches(msg, find, last)
    ensures RegexPieces(msg, find, kind, last, false) == [PreToken(Unrefined, msg)]
    decreases |msg| - last
  {
    hide StepAt, FinderOk;
    var step := StepAt(msg, find, last);
    if step.Skip? {
      RegexUnmatched(msg, find, kind, step.to);
    }
  }

  /** The regex splitter keeps the text exactly when the scan loses none. */
  lemma RegexKeepsText(msg: Str, find: Finder, kind: PreKind)
    requires FinderOk(find)
    ensures var text := PreText(SplitRegex(msg, find, kind));
      if RegexLoses(msg, find) then |text| < |msg| else text == msg
  {
    assert msg[0..] == msg;
    if Matches(msg, find, 0) {
      RegexPiecesText(msg, find, kind, 0, false);
    } else {
      RegexUnmatched(msg, find, kind, 0);
      assert [PreToken(Unrefined, msg)][1..] == [];
    }
  }

  /** The pattern never matches the empty string. */
  ghost predicate NonEmptyFinder(find: Finder) {
    forall s :: find(s).Some? ==> find(s).value.0 < find(s).value.1
  }

  /** A pattern that never matches the empty string loses nothing. */
  lemma {:induction false} NonEmptyNeverSkips(msg: Str, find: Finder, last: nat)
    requires FinderOk(find) && last <= |msg| && NonEmptyFinder(find)
    ensures !Skips(msg, find, last)
    decreases |msg| - last
  {
    var step := StepAt(msg, find, last);
    if step.Cut? {
      NonEmptyNeverSkips(msg, find, step.end);
    }
  }

  /** The leftmost match of x* : a run of x at the very start, possibly empty. */
  function LeadingX(s: Str): nat {
    if s != [] && s[0] == 'x' then 1 + LeadingX(s[1..]) else 0
  }

  /** The empty matches of x* make the splitter drop the "a" of "ax". */
  lemma EmptyMatchLosesText()
    ensures var find: Finder := s => Some((0, LeadingX(s)));
      && (forall s :: LeadingX(s) <= |s|)
      && FinderOk(find) && RegexLoses("ax", find)
      && SplitRegex("ax", find, White) == [PreToken(White, "x")]
  {
    var find: Finder := s => Some((0, LeadingX(s)));
    forall s ensures LeadingX(s) <= |s| { LeadingXBound(s); }
    assert FinderOk(find);
    var msg: Str := "ax";
    assert msg[0..] == msg && msg[1..] == "x" && msg[2..] == [];
    assert LeadingX("x") == 1 by { assert ("x")[1..] == []; }
    AsciiRune(msg);
    assert StepAt(msg, find, 0) == Skip(1);
    assert StepAt(msg, find, 1) == Cut(1, 2);
    assert StepAt(msg, find, 2) == Stop;
    hide StepAt, FinderOk, LeadingX, DecodeRune;
    assert msg[1..2] == "x" && msg[1..1] == [];
    assert RegexPieces(msg, find, White, 2, true) == [];
  }

  lemma {:induction false} LeadingXBound(s: Str)
    ensures LeadingX(s) <= |s|
  {
    if s != [] {
      LeadingXBound(s[1..]);
    }
  }

  /** appendSplitSpecialRegex */
  method AppendSplitSpecialRegex(dst0: seq<PreToken>, msg: Str, find: Finder, kind: PreKind)
    returns (dst: seq<PreToken>)
    requires FinderOk(find)
    ensures dst == dst0 + SplitRegex(msg, find, kind)
  {
    hide FinderOk, SplitRegex, StepAt, SkipTo;
    assert RegexPieces(msg, find, kind, 0, false) == SplitRegex(msg, find, kind) by { SplitRegexIs(msg, find, kind); }
    dst := dst0;
    var last := 0;
    var matched := false;
    while last <= |msg|
      invariant 0 <= last <= |msg|
      invariant !matched ==> dst == dst0
      invariant dst + RegexPieces(msg, find, kind, last, matched) == dst0 + SplitRegex(msg, find, kind)
      decreases |msg| - last
    {
      var idx := find(msg[last..]);
      FinderBounds(find, msg, last);
      if idx.None? {
        break;
      }
      var start := last + idx.value.0;
      var end := last + idx.value.1;
      if end - start <= 0 {
        if start >= |msg| {
          break;
        }
        last := SkipTo(msg, start);
        continue;
      }
      Regroup3(dst, Rest(msg[last..start]), [PreToken(kind, msg[start..end])], RegexPieces(msg, find, kind, end, true));
      matched := true;
      if start > last {
        dst := dst + [PreToken(Unrefined, msg[last..start])];
      } else {
        assert dst + [] == dst;
      }
      dst := dst + [PreToken(kind, msg[start..end])];
      last := end;
    }
    if !matched {
      return dst + [PreToken(Unrefined, msg)];
    }
    if last < |msg| {
      dst := dst + [PreToken(Unrefined, msg[last..])];
    }
  }

  lemma SplitRegexIs(msg: Str, find: Finder, kind: PreKind)
    requires FinderOk(find)
    ensures RegexPieces(msg, find, kind, 0, false) == SplitRegex(msg, find, kind)
  {
  }

  lemma FinderBounds(find: Finder, msg: Str, last: nat)
    requires FinderOk(find) && last <= |msg|
    ensures match find(msg[last..])
      case None => StepAt(msg, find, last) == Stop
      case Some(range) =>
        var start, end := last + range.0, last + range.1;
        && start <= end <= |msg|
        && (end > start ==> StepAt(msg, find, last) == Cut(start, end))
        && (end <= start ==> StepAt(msg, find, last) == if start >= |msg| then Stop else Skip(SkipTo(msg, start)))
  {
  }
}
