/** Matching one compiled template against a message: the greedy scan of
    matcher.go, what a successful match means, and when the scan misses one. */
module GreedyMatch {
  import opened Bytes
  import opened Placeholder

  datatype Option<+T> = None | Some(value: T)

  datatype Compiled = Compiled(
    id: nat,
    template: Str,
    parts: seq<Str>,
    placeholderCount: nat,
    literalBytes: nat,
    minMsgLen: nat,
    firstLiteral: Str,
    lastLiteral: Str)

  function TotalLen(parts: seq<Str>): nat {
    if parts == [] then 0 else |parts[0]| + TotalLen(parts[1..])
  }

  /** The value compileTemplate builds for a template. */
  function CompiledFor(id: nat, tmpl: Str): Compiled {
    var parts := Split(tmpl);
    Compiled(id, tmpl, parts, |parts| - 1, TotalLen(parts), TotalLen(parts) + |parts| - 1,
             parts[0], parts[|parts| - 1])
  }

  lemma {:induction false} TotalLenSnoc(parts: seq<Str>, p: Str)
    ensures TotalLen(parts + [p]) == TotalLen(parts) + |p|
  {
    if parts == [] {
      assert parts + [p] == [p];
    } else {
      assert (parts + [p])[1..] == parts[1..] + [p];
      TotalLenSnoc(parts[1..], p);
    }
  }

  method CompileTemplate(id: nat, tmpl: Str) returns (c: Compiled)
    ensures c == CompiledFor(id, tmpl)
  {
    var parts := Split(tmpl);
    var literalBytes := 0;
    for i := 0 to |parts|
      invariant literalBytes == TotalLen(parts[..i])
    {
      assert parts[..i + 1] == parts[..i] + [parts[i]];
      TotalLenSnoc(parts[..i], parts[i]);
      literalBytes := literalBytes + |parts[i]|;
    }
    assert parts[..|parts|] == parts;
    c := Compiled(id, tmpl, parts, |parts| - 1, literalBytes, literalBytes + |parts| - 1,
                  parts[0], parts[|parts| - 1]);
  }

  // ------------------------------------------------------- declarative view

  /** parts[0] args[0] parts[1] args[1] ... parts[n] */
  function Fill(parts: seq<Str>, args: seq<Str>): Str
    requires |parts| == |args| + 1
  {
    if args == [] then parts[0] else parts[0] + (args[0] + Fill(parts[1..], args[1..]))
  }

  ghost predicate NoEmpty(args: seq<Str>) {
    forall i :: 0 <= i < |args| ==> args[i] != []
  }

  /** args are non-empty values for the placeholders that produce msg. */
  ghost predicate Decomposes(parts: seq<Str>, args: seq<Str>, msg: Str) {
    |parts| == |args| + 1 && NoEmpty(args) && Fill(parts, args) == msg
  }

  /** Each argument but the last ends where the next literal first occurs. */
  ghost predicate Leftmost(parts: seq<Str>, args: seq<Str>)
    requires |parts| == |args| + 1
    decreases |args|
  {
    |args| >= 2 ==>
      && parts[1] != []
      && Index(args[0] + Fill(parts[1..], args[1..]), parts[1]) == |args[0]|
      && Leftmost(parts[1..], args[1..])
  }

  // ------------------------------------------------------------ greedy scan

  function Prepend(front: seq<Str>, r: Option<seq<Str>>): Option<seq<Str>> {
    match r
    case None => None
    case Some(args) => Some(front + args)
  }

  /** The scan from a placeholder on: `parts` are the literals after it, s is
      the unread message. */
  function Scan(parts: seq<Str>, s: Str): Option<seq<Str>>
    requires |parts| > 0
    decreases |parts|
  {
    var next := parts[0];
    if |parts| == 1 then
      if HasSuffix(s, next) && |s| > |next| then Some([s[..|s| - |next|]]) else None
    else
      var idx := Index(s, next);
      if next == [] || idx <= 0 then None
      else
        Prepend([s[..idx]], Scan(parts[1..], s[idx + |next|..]))
  }

  /** The arguments of the match of template t with msg, if it matches. */
  function MatchOf(parts: seq<Str>, msg: Str): Option<seq<Str>>
    requires |parts| > 0
  {
    if |parts| == 1 then (if msg == parts[0] then Some([]) else None)
    else if !HasPrefix(msg, parts[0]) then None
    else Scan(parts[1..], msg[|parts[0]|..])
  }

  /** The scan meets a literal right where an argument would have to start. */
  ghost predicate GapZero(parts: seq<Str>, s: Str)
    requires |parts| > 0
    decreases |parts|
  {
    |parts| > 1 &&
      var idx := Index(s, parts[0]);
      idx >= 0 && (idx == 0 || GapZero(parts[1..], s[idx + |parts[0]|..]))
  }

  ghost predicate MeetsGapZero(parts: seq<Str>, msg: Str)
    requires |parts| > 0
  {
    |parts| > 1 && HasPrefix(msg, parts[0]) && GapZero(parts[1..], msg[|parts[0]|..])
  }

  lemma FillCons(p: Str, parts: seq<Str>, args: seq<Str>)
    requires |parts| == |args| > 0
    ensures Fill([p] + parts, args) == p + (args[0] + Fill(parts, args[1..]))
    ensures NoEmpty(args) <==> args[0] != [] && NoEmpty(args[1..])
  {
    assert ([p] + parts)[1..] == parts;
    assert forall i :: 0 < i < |args| ==> args[i] == args[1..][i - 1];
  }

  /** What the scan returns is the leftmost decomposition of what it read. */
  lemma {:induction false} ScanSound(p: Str, parts: seq<Str>, s: Str)
    requires |parts| > 0 && Scan(parts, s).Some?
    ensures var args := Scan(parts, s).value;
      && |args| == |parts| && Decomposes([p] + parts, args, p + s) && Leftmost([p] + parts, args)
    ensures !GapZero(parts, s)
    decreases |parts|
  {
    var args := Scan(parts, s).value;
    var next := parts[0];
    assert ([p] + parts)[1..] == parts;
    if |parts| == 1 {
      FillCons(p, parts, args);
      assert s == args[0] + next;
    } else {
      hide OccursAt, Index;
      var idx := Index(s, next);
      ScanSound(next, parts[1..], s[idx + |next|..]);
      assert [next] + parts[1..] == parts;
      assert args[1..] == Scan(parts[1..], s[idx + |next|..]).value;
      FillCons(p, parts, args);
      CutAt(s, next, idx);
      assert s == s[..idx] + (next + s[idx + |next|..]);
    }
  }

  /** The last argument of a decomposition. */
  lemma LastArgument(p: Str, next: Str, args: seq<Str>, s: Str)
    requires |args| == 1 && Decomposes([p] + [next], args, p + s)
    ensures Scan([next], s) == Some(args)
  {
    FillCons(p, [next], args);
    SamePrefix(p, s, args[0] + next);
    assert s[..|s| - |next|] == args[0] && s[|s| - |next|..] == next;
    assert args == [args[0]];
  }

  /** The first of several arguments of a leftmost decomposition: the scan takes it, and what is
      left decomposes leftmost. */
  lemma FirstArgument(p: Str, parts: seq<Str>, args: seq<Str>, s: Str) returns (tail: Str)
    requires |parts| == |args| > 1
    requires Decomposes([p] + parts, args, p + s) && Leftmost([p] + parts, args)
    ensures args[0] != [] && parts[0] != [] && s == args[0] + (parts[0] + tail) && Index(s, parts[0]) == |args[0]|
    ensures [parts[0]] + parts[1..] == parts
    ensures Decomposes([parts[0]] + parts[1..], args[1..], parts[0] + tail) && Leftmost([parts[0]] + parts[1..], args[1..])
  {
    assert ([p] + parts)[1..] == parts && ([p] + parts)[1] == parts[0];
    tail := DecomposeStep(p, parts, args, s);
    FillCons(p, parts, args);
    SamePrefix(p, s, args[0] + Fill(parts, args[1..]));
  }

  lemma ScanFirst(parts: seq<Str>, s: Str, arg: Str, tail: Str)
    requires |parts| > 1 && parts[0] != [] && arg != [] && s == arg + (parts[0] + tail) && Index(s, parts[0]) == |arg|
    ensures Scan(parts, s) == Prepend([arg], Scan(parts[1..], tail))
  {
    hide OccursAt;
    assert s[..|arg|] == arg && s[|arg| + |parts[0]|..] == tail;
  }

  /** A leftmost decomposition is what the scan returns. */
  lemma {:induction false} ScanComplete(p: Str, parts: seq<Str>, args: seq<Str>, s: Str)
    requires |parts| == |args| > 0
    requires Decomposes([p] + parts, args, p + s) && Leftmost([p] + parts, args)
    ensures Scan(parts, s) == Some(args)
    decreases |parts|
  {
    hide Decomposes, Leftmost, Scan, Index;
    if |parts| == 1 {
      assert parts == [parts[0]];
      LastArgument(p, parts[0], args, s);
    } else {
      var tail := FirstArgument(p, parts, args, s);
      ScanComplete(parts[0], parts[1..], args[1..], tail);
      ScanFirst(parts, s, args[0], tail);
      assert args == [args[0]] + args[1..];
    }
  }

  lemma SamePrefix(p: Str, s: Str, t: Str)
    requires p + s == p + t
    ensures s == t
  {
    assert (p + s)[|p|..] == s && (p + t)[|p|..] == t;
  }

  /** Peels the first argument off a decomposition. */
  lemma DecomposeStep(p: Str, parts: seq<Str>, args: seq<Str>, s: Str) returns (tail: Str)
    requires |parts| == |args| > 0 && Decomposes([p] + parts, args, p + s)
    ensures args[0] != []
    ensures |parts| == 1 ==> s == args[0] + parts[0]
    ensures |parts| > 1 ==>
      && s == args[0] + (parts[0] + tail)
      && Decomposes([parts[0]] + parts[1..], args[1..], parts[0] + tail)
  {
    FillCons(p, parts, args);
    SamePrefix(p, s, args[0] + Fill(parts, args[1..]));
    assert [parts[0]] + parts[1..] == parts;
    if |parts| > 1 {
      FillCons(parts[0], parts[1..], args[1..]);
      tail := args[1] + Fill(parts[1..], args[1..][1..]);
    } else {
      tail := [];
    }
  }

  /** The exchange argument: if some decomposition of s[d..] exists, the greedy
      cursor stays at or before it, and only a gap of zero can stop the scan. */
  lemma {:induction false} ScanNeverPasses(p: Str, parts: seq<Str>, args: seq<Str>, s: Str, d: nat)
    requires |parts| == |args| > 0 && d <= |s|
    requires Decomposes([p] + parts, args, p + s[d..])
    ensures Scan(parts, s).Some? || GapZero(parts, s)
    decreases |parts|
  {
    hide Decomposes, Fill, OccursAt, Index;
    var tail := DecomposeStep(p, parts, args, s[d..]);
    var next := parts[0];
    if |parts| == 1 {
      EndStep(s, d, args[0], next);
    } else {
      WitnessStep(s, d, args[0], next, tail);
      var idx := Index(s, next);
      if idx > 0 && next != [] {
        ScanNeverPasses(next, parts[1..], args[1..], s[idx + |next|..], d + |args[0]| - idx);
      }
    }
  }

  lemma EndStep(s: Str, d: nat, arg: Str, next: Str)
    requires d <= |s| && s[d..] == arg + next && arg != []
    ensures HasSuffix(s, next) && |s| > |next|
  {
    assert s[|s| - |next|..] == s[d..][|arg|..] == next;
  }

  /** The next literal is found no later than in the witness, and the witness
      goes on behind the place where it was found. */
  lemma WitnessStep(s: Str, d: nat, arg: Str, next: Str, tail: Str)
    requires d <= |s| && s[d..] == arg + (next + tail)
    ensures var idx := Index(s, next);
      && 0 <= idx <= d + |arg|
      && (next == [] ==> idx == 0)
      && s[idx + |next|..][d + |arg| - idx..] == tail
  {
    var a := |arg|;
    assert s[d..][a..a + |next|] == next && s[d..][a + |next|..] == tail;
    OccursAtDrop(s, d, next, a);
    var idx := Index(s, next);
    assert next == [] ==> OccursAt(s, next, 0);
    assert s[idx + |next|..][d + a - idx..] == s[d + a + |next|..] == s[d..][a + |next|..];
  }

  /** The match succeeds with args exactly when args are the leftmost decomposition. */
  lemma MatchIsLeftmost(parts: seq<Str>, msg: Str, args: seq<Str>)
    requires |parts| > 0
    ensures MatchOf(parts, msg) == Some(args) <==> Decomposes(parts, args, msg) && Leftmost(parts, args)
  {
    if |parts| > 1 {
      var p, rest := parts[0], parts[1..];
      assert [p] + rest == parts;
      assert Decomposes(parts, args, msg) ==> HasPrefix(msg, p);
      if HasPrefix(msg, p) {
        var s := msg[|p|..];
        assert msg == p + s;
        if Scan(rest, s).Some? { ScanSound(p, rest, s); }
        if Decomposes(parts, args, msg) && Leftmost(parts, args) { ScanComplete(p, rest, args, s); }
      }
    }
  }

  /** A template matches exactly when its placeholders can be given non-empty
      values and the scan never meets a literal at its cursor. */
  lemma MatchIff(parts: seq<Str>, msg: Str)
    requires |parts| > 0
    ensures MatchOf(parts, msg).Some? <==>
      (exists args :: Decomposes(parts, args, msg)) && !MeetsGapZero(parts, msg)
  {
    if MatchOf(parts, msg).Some? {
      var args := MatchOf(parts, msg).value;
      MatchIsLeftmost(parts, msg, args);
      if |parts| > 1 {
        assert [parts[0]] + parts[1..] == parts;
        ScanSound(parts[0], parts[1..], msg[|parts[0]|..]);
      }
    }
    if args :| Decomposes(parts, args, msg) {
      if |parts| > 1 {
        var p, rest := parts[0], parts[1..];
        assert [p] + rest == parts;
        assert HasPrefix(msg, p) && msg == p + msg[|p|..];
        assert msg[|p|..][0..] == msg[|p|..];
        ScanNeverPasses(p, rest, args, msg[|p|..], 0);
      } else {
        assert args == [];
      }
    }
  }

  /** The gap-zero exit loses matches: <*>a<*> can produce "aaa" but is rejected. */
  lemma GapZeroLosesMatch()
    ensures var parts := Split("<*>a<*>");
      parts == ["", "a", ""] && Decomposes(parts, ["a", "a"], "aaa") && MatchOf(parts, "aaa").None?
  {
    var lits: seq<Str> := ["", "a", ""];
    assert Free("") && Free("a");
    assert lits[1..] == ["a", ""] && lits[1..][1..] == [""];
    assert Join(lits) == "<*>a<*>";
    SplitJoin(lits);
    var args: seq<Str> := ["a", "a"];
    assert args[1..] == ["a"];
    assert Fill(lits, args) == "aaa";
    var msg: Str := "aaa";
    assert OccursAt(msg, "a", 0);
  }

  lemma {:induction false} FillLength(parts: seq<Str>, args: seq<Str>)
    requires |parts| == |args| + 1
    ensures |Fill(parts, args)| == TotalLen(parts) + TotalLen(args)
  {
    if args != [] {
      FillLength(parts[1..], args[1..]);
    }
  }

  lemma {:induction false} TotalLenNoEmpty(args: seq<Str>)
    requires NoEmpty(args)
    ensures TotalLen(args) >= |args|
  {
    if args != [] {
      TotalLenNoEmpty(args[1..]);
    }
  }

  /** Templates are only tried on messages that are long enough to match. */
  lemma MatchLength(parts: seq<Str>, msg: Str)
    requires |parts| > 0 && MatchOf(parts, msg).Some?
    ensures |msg| >= TotalLen(parts) + |parts| - 1
  {
    var args := MatchOf(parts, msg).value;
    MatchIsLeftmost(parts, msg, args);
    FillLength(parts, args);
    TotalLenNoEmpty(args);
  }

  /** The scan at the last placeholder, in terms of the whole message. */
  lemma ScanAtLast(parts: seq<Str>, i: nat, msg: Str, cursor: nat)
    requires i + 2 == |parts| && cursor <= |msg|
    ensures var next := parts[i + 1];
      && (next == [] ==> HasSuffix(msg, next)) && (HasSuffix(msg, next) ==> |next| <= |msg|)
      && Scan(parts[i + 1..], msg[cursor..]) ==
        if HasSuffix(msg, next) && |msg| - |next| > cursor then Some([msg[cursor..|msg| - |next|]]) else None
  {
    var next := parts[i + 1];
    SuffixOfRest(msg, cursor, next);
    assert parts[i + 1..] == [next];
    if |msg| - |next| > cursor {
      assert msg[cursor..][..|msg| - cursor - |next|] == msg[cursor..|msg| - |next|];
    }
  }

  /** The scan at an earlier placeholder. */
  lemma ScanAtMiddle(parts: seq<Str>, i: nat, msg: Str, cursor: nat)
    requires i + 2 < |parts| && cursor <= |msg|
    ensures var next := parts[i + 1];
      var idx := Index(msg[cursor..], next);
      && cursor + idx + |next| <= |msg| + (if idx < 0 then |next| else 0)
      && Scan(parts[i + 1..], msg[cursor..]) ==
        if next == [] || idx <= 0 then None
        else Prepend([msg[cursor..cursor + idx]], Scan(parts[i + 2..], msg[cursor + idx + |next|..]))
  {
    var next := parts[i + 1];
    var idx := Index(msg[cursor..], next);
    assert parts[i + 1..][1..] == parts[i + 2..];
    if idx > 0 {
      assert msg[cursor..][..idx] == msg[cursor..cursor + idx];
      assert msg[cursor..][idx + |next|..] == msg[cursor + idx + |next|..];
    }
  }

  lemma PrependNone(r: Option<seq<Str>>)
    ensures Prepend([], r) == r
  {
    if r.Some? {
      assert [] + r.value == r.value;
    }
  }

  lemma PrependStep(front: seq<Str>, a: Str, r: Option<seq<Str>>)
    ensures Prepend(front + [a], r) == Prepend(front, Prepend([a], r))
  {
    if r.Some? {
      assert front + [a] + r.value == front + ([a] + r.value);
    }
  }

  /** The loop has bound `found` and reads on at the i-th placeholder from cursor. */
  ghost predicate OnTrack(parts: seq<Str>, msg: Str, i: nat, cursor: nat, found: seq<Str>) {
    && i + 1 < |parts| && cursor <= |msg|
    && MatchOf(parts, msg) == Prepend(found, Scan(parts[i + 1..], msg[cursor..]))
  }

  lemma TrackStart(parts: seq<Str>, msg: Str)
    requires |parts| > 1
    ensures if HasPrefix(msg, parts[0]) then OnTrack(parts, msg, 0, |parts[0]|, []) else MatchOf(parts, msg).None?
    ensures parts[0] == [] ==> HasPrefix(msg, parts[0])
  {
    if HasPrefix(msg, parts[0]) {
      PrependNone(Scan(parts[1..], msg[|parts[0]|..]));
    }
  }

  lemma TrackLast(parts: seq<Str>, msg: Str, i: nat, cursor: nat, found: seq<Str>)
    requires OnTrack(parts, msg, i, cursor, found) && i + 2 == |parts|
    ensures var next := parts[i + 1];
      && (next == [] ==> HasSuffix(msg, next)) && (HasSuffix(msg, next) ==> |next| <= |msg|)
      && MatchOf(parts, msg) ==
        if HasSuffix(msg, next) && |msg| - |next| > cursor then Some(found + [msg[cursor..|msg| - |next|]]) else None
  {
    ScanAtLast(parts, i, msg, cursor);
  }

  lemma TrackMiddle(parts: seq<Str>, msg: Str, i: nat, cursor: nat, found: seq<Str>)
    requires OnTrack(parts, msg, i, cursor, found) && i + 2 < |parts|
    ensures var next := parts[i + 1];
      var idx := Index(msg[cursor..], next);
      && (next == [] || idx <= 0 ==> MatchOf(parts, msg).None?)
      && (next != [] && idx > 0 ==>
            && cursor + idx + |next| <= |msg|
            && OnTrack(parts, msg, i + 1, cursor + idx + |next|, found + [msg[cursor..cursor + idx]]))
  {
    ScanAtMiddle(parts, i, msg, cursor);
    var next := parts[i + 1];
    var idx := Index(msg[cursor..], next);
    if next != [] && idx > 0 {
      PrependStep(found, msg[cursor..cursor + idx], Scan(parts[i + 2..], msg[cursor + idx + |next|..]));
    }
  }

  /** A template without placeholders is its own literal. */
  lemma LiteralTemplate(t: Compiled, msg: Str)
    requires t == CompiledFor(t.id, t.template)
    ensures |t.parts| == t.placeholderCount + 1
    ensures t.placeholderCount == 0 ==> MatchOf(t.parts, msg) == if msg == t.template then Some([]) else None
  {
    JoinSplit(t.template);
  }

  /** matchInternal: with capture the arguments are returned as well. */
  method MatchInternal(t: Compiled, msg: Str, capture: bool) returns (args: seq<Str>, ok: bool)
    requires t == CompiledFor(t.id, t.template)
    ensures ok == MatchOf(t.parts, msg).Some?
    ensures capture && ok ==> args == MatchOf(t.parts, msg).value
  {
    hide OnTrack, MatchOf, HasPrefix, HasSuffix, OccursAt, Index, CompiledFor, Split, TotalLen;
    args := [];
    LiteralTemplate(t, msg);
    if t.placeholderCount == 0 {
      return [], msg == t.template;
    }
    TrackStart(t.parts, msg);
    var cursor := 0;
    var first := t.parts[0];
    if first != [] {
      if !HasPrefix(msg, first) {
        return [], false;
      }
      cursor := |first|;
    }
    ghost var found: seq<Str> := [];
    var i := 0;
    while i < t.placeholderCount
      invariant 0 <= i < t.placeholderCount && 0 <= cursor <= |msg|
      invariant OnTrack(t.parts, msg, i, cursor, found)
      invariant capture ==> args == found
      decreases t.placeholderCount - i
    {
      var next := t.parts[i + 1];
      if i == t.placeholderCount - 1 {
        TrackLast(t.parts, msg, i, cursor, found);
        if next == [] {
          if cursor >= |msg| {
            return [], false;
          }
          assert msg[cursor..] == msg[cursor..|msg|];
          if capture {
            args := args + [msg[cursor..]];
          }
          cursor := |msg|;
          break;
        }
        if !HasSuffix(msg, next) {
          return [], false;
        }
        var end := |msg| - |next|;
        if end <= cursor {
          return [], false;
        }
        if capture {
          args := args + [msg[cursor..end]];
        }
        cursor := end + |next|;
        break;
      }
      TrackMiddle(t.parts, msg, i, cursor, found);
      if next == [] {
        return [], false;
      }
      var idx := Index(msg[cursor..], next);
      if idx < 0 {
        return [], false;
      }
      if idx == 0 {
        return [], false;
      }
      found := found + [msg[cursor..cursor + idx]];
      if capture {
        args := args + [msg[cursor..cursor + idx]];
      }
      cursor := cursor + idx + |next|;
      i := i + 1;
    }
    ok := cursor == |msg|;
  }

  lemma SuffixOfRest(msg: Str, cursor: nat, p: Str)
    requires cursor <= |msg|
    ensures HasSuffix(msg[cursor..], p) && |msg[cursor..]| > |p| <==> HasSuffix(msg, p) && |msg| - |p| > cursor
  {
    if |p| <= |msg| - cursor {
      assert msg[cursor..][|msg| - cursor - |p|..] == msg[|msg| - |p|..];
    }
  }
}
