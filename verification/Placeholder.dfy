/** Template strings: splitting at the placeholder, joining, and the
    normalization of matcher.go. */
module Placeholder {
  import opened Bytes

  const PLACEHOLDER: Str := "<*>"
  const REPEAT: Str := "<*><*>"

  /** strings.Split(s, "<*>") */
  function Split(s: Str): (parts: seq<Str>)
    ensures |parts| > 0
    decreases |s|
  {
    var i := Index(s, PLACEHOLDER);
    if i < 0 then [s] else [s[..i]] + Split(s[i + 3..])
  }

  function Join(parts: seq<Str>): Str
    requires |parts| > 0
  {
    if |parts| == 1 then parts[0] else parts[0] + PLACEHOLDER + Join(parts[1..])
  }

  ghost predicate Free(s: Str) {
    !Occurs(s, PLACEHOLDER)
  }

  lemma {:induction false} JoinSplit(s: Str)
    ensures Join(Split(s)) == s
    decreases |s|
  {
    var i := Index(s, PLACEHOLDER);
    if i >= 0 {
      JoinSplit(s[i + 3..]);
      assert s == s[..i] + PLACEHOLDER + s[i + 3..];
    }
  }

  /** The placeholder cannot overlap itself. */
  lemma NoOverlap(x: Str, z: Str, k: nat)
    requires k < |x| < k + 3
    ensures !OccursAt(x + PLACEHOLDER + z, PLACEHOLDER, k)
  {
    var s := x + PLACEHOLDER + z;
    assert s[|x|] == '<';
    if OccursAt(s, PLACEHOLDER, k) {
      assert s[k..k + 3][|x| - k] == s[|x|];
    }
  }

  lemma SplitUnfolds(s: Str)
    ensures var i := Index(s, PLACEHOLDER);
      if i < 0 then Split(s) == [s] && Free(s) else i + 3 <= |s| && Split(s) == [s[..i]] + Split(s[i + 3..])
  {
  }

  /** Any occurrence of the placeholder is a splitting point. */
  lemma {:induction false} SplitAt(x: Str, z: Str)
    ensures Split(x + PLACEHOLDER + z) == Split(x) + Split(z)
    decreases |x|
  {
    var i := Index(x, PLACEHOLDER);
    if i < 0 {
      FreeBeforePlaceholder(x, z);
      SliceBack(x, PLACEHOLDER, z);
      SplitUnfolds(x);
      hide Split, OccursAt, Occurs;
      SplitUnfolds(x + PLACEHOLDER + z);
    } else {
      SplitAt(x[i + 3..], z);
      SplitBehind(x, z);
    }
  }

  lemma SplitBehind(x: Str, z: Str)
    requires var i := Index(x, PLACEHOLDER);
      i >= 0 && i + 3 <= |x| && Split(x[i + 3..] + PLACEHOLDER + z) == Split(x[i + 3..]) + Split(z)
    ensures Split(x + PLACEHOLDER + z) == Split(x) + Split(z)
  {
    hide Split, OccursAt, Occurs;
    var s := x + PLACEHOLDER + z;
    var i := Index(x, PLACEHOLDER);
    SplitUnfolds(x);
    SplitUnfolds(s);
    IndexInFront(x, z);
    SliceFront(x, PLACEHOLDER, z, i);
    SliceFront(x, PLACEHOLDER, z, i + 3);
    Associates([x[..i]], Split(x[i + 3..]), Split(z));
  }

  lemma Associates(a: seq<Str>, b: seq<Str>, c: seq<Str>)
    ensures a + (b + c) == a + b + c
  {
  }

  lemma IndexInFront(x: Str, z: Str)
    requires Index(x, PLACEHOLDER) >= 0
    ensures Index(x + PLACEHOLDER + z, PLACEHOLDER) == Index(x, PLACEHOLDER)
  {
    var s := x + PLACEHOLDER + z;
    var i := Index(x, PLACEHOLDER);
    assert s[..|x|] == x;
    forall k | 0 <= k < i ensures !OccursAt(s, PLACEHOLDER, k) {
      OccursAtTake(s, |x|, PLACEHOLDER, k);
    }
    OccursAtTake(s, |x|, PLACEHOLDER, i);
    IndexIs(s, PLACEHOLDER, i);
  }

  lemma FreeBeforePlaceholder(x: Str, z: Str)
    requires Free(x)
    ensures Index(x + PLACEHOLDER + z, PLACEHOLDER) == |x|
  {
    var s := x + PLACEHOLDER + z;
    forall k | 0 <= k < |x| ensures !OccursAt(s, PLACEHOLDER, k) {
      if k + 3 <= |x| {
        OccursAtTake(s, |x|, PLACEHOLDER, k);
        assert s[..|x|] == x;
      } else {
        NoOverlap(x, z, k);
      }
    }
    assert s[|x|..|x| + 3] == PLACEHOLDER;
    IndexIs(s, PLACEHOLDER, |x|);
  }

  ghost predicate AllFree(parts: seq<Str>) {
    forall i :: 0 <= i < |parts| ==> Free(parts[i])
  }

  /** Splitting inverts joining for parts without the placeholder. */
  lemma {:induction false} SplitJoin(parts: seq<Str>)
    requires |parts| > 0 && AllFree(parts)
    ensures Split(Join(parts)) == parts
  {
    if |parts| > 1 {
      SplitAt(parts[0], Join(parts[1..]));
      SplitJoin(parts[1..]);
    }
  }

  lemma {:induction false} SplitIsFree(s: Str)
    ensures AllFree(Split(s))
    decreases |s|
  {
    var i := Index(s, PLACEHOLDER);
    if i >= 0 {
      forall k | 0 <= k ensures !OccursAt(s[..i], PLACEHOLDER, k) {
        if k + 3 <= i { OccursAtTake(s, i, PLACEHOLDER, k); }
      }
      SplitIsFree(s[i + 3..]);
    }
  }

  // --------------------------------------------------------- normalization

  /** The non-empty members of parts. */
  function NonEmpty(parts: seq<Str>): seq<Str> {
    if parts == [] then []
    else if parts[0] == [] then NonEmpty(parts[1..])
    else [parts[0]] + NonEmpty(parts[1..])
  }

  /** parts without its empty interior members. */
  function Squeezed(parts: seq<Str>): (r: seq<Str>)
    requires |parts| > 0
    ensures |r| > 0
  {
    if |parts| == 1 then parts
    else [parts[0]] + NonEmpty(parts[1..|parts| - 1]) + [parts[|parts| - 1]]
  }

  /** No two placeholders are adjacent: every interior literal is non-empty. */
  ghost predicate Normalized(s: Str) {
    var parts := Split(s);
    forall i :: 0 < i < |parts| - 1 ==> parts[i] != []
  }

  /** strings.ReplaceAll(s, "<*><*>", "<*>") */
  function ReplaceRepeats(s: Str): Str
    decreases |s|
  {
    var i := Index(s, REPEAT);
    if i < 0 then s else s[..i] + PLACEHOLDER + ReplaceRepeats(s[i + 6..])
  }

  lemma {:induction false} NonEmptyAppend(a: seq<Str>, b: seq<Str>)
    ensures NonEmpty(a + b) == NonEmpty(a) + NonEmpty(b)
  {
    if a == [] {
      assert a + b == b;
    } else {
      assert (a + b)[1..] == a[1..] + b;
      NonEmptyAppend(a[1..], b);
    }
  }

  /** Removing one empty interior part, or rewriting what follows, keeps the squeezed form. */
  lemma SqueezeTail(a: seq<Str>, b: seq<Str>, c: seq<Str>)
    requires |a| > 0 && |b| > 0 && |c| > 0 && Squeezed(b) == Squeezed(c)
    ensures Squeezed(a + b) == Squeezed(a + c)
    ensures Squeezed(a + [[]] + b) == Squeezed(a + b)
  {
    SqueezeParts(a, b);
    SqueezeParts(a, c);
    SqueezeParts(a + [[]], b);
    NonEmptyAppend(a[1..], [[]]);
    assert (a + [[]])[1..] == a[1..] + [[]];
    SqueezeDetermines(b, c);
  }

  lemma SqueezeParts(a: seq<Str>, b: seq<Str>)
    requires |a| > 0 && |b| > 0
    ensures Squeezed(a + b) == [a[0]] + NonEmpty(a[1..]) + NonEmpty(b[..|b| - 1]) + [b[|b| - 1]]
  {
    var s := a + b;
    assert s[1..|s| - 1] == a[1..] + b[..|b| - 1];
    NonEmptyAppend(a[1..], b[..|b| - 1]);
  }

  lemma SqueezeDetermines(b: seq<Str>, c: seq<Str>)
    requires |b| > 0 && |c| > 0 && Squeezed(b) == Squeezed(c)
    ensures NonEmpty(b[..|b| - 1]) == NonEmpty(c[..|c| - 1]) && b[|b| - 1] == c[|c| - 1]
  {
    SqueezeHead(b);
    SqueezeHead(c);
    var r := Squeezed(b);
    assert b[|b| - 1] == r[|r| - 1] == c[|c| - 1];
  }

  lemma SqueezeHead(b: seq<Str>)
    requires |b| > 0
    ensures |b| == 1 <==> |Squeezed(b)| == 1
    ensures |b| > 1 ==> var r := Squeezed(b);
      NonEmpty(b[..|b| - 1]) == NonEmpty([r[0]]) + r[1..|r| - 1]
  {
    if |b| > 1 {
      var r := Squeezed(b);
      var mid := NonEmpty(b[1..|b| - 1]);
      assert r[1..|r| - 1] == mid && r[0] == b[0];
      assert b[..|b| - 1] == [b[0]] + b[1..|b| - 1];
      NonEmptyAppend([b[0]], b[1..|b| - 1]);
    }
  }

  /** One replacement pass changes neither the literals nor their order. */
  lemma {:induction false} ReplaceKeepsLiterals(s: Str)
    ensures Squeezed(Split(ReplaceRepeats(s))) == Squeezed(Split(s))
    ensures Occurs(s, REPEAT) ==> |ReplaceRepeats(s)| < |s|
    ensures |ReplaceRepeats(s)| <= |s|
    decreases |s|
  {
    var i := Index(s, REPEAT);
    if i >= 0 {
      var x, y := s[..i], s[i + 6..];
      ReplaceKeepsLiterals(y);
      CutAt(s, REPEAT, i);
      SplitRepeat(x, y);
      SplitAt(x, ReplaceRepeats(y));
      hide Split;
      SqueezeTail(Split(x), Split(ReplaceRepeats(y)), Split(y));
      SqueezeTail(Split(x), Split(y), Split(y));
    }
  }

  lemma SplitRepeat(x: Str, y: Str)
    ensures Split(x + REPEAT + y) == Split(x) + [[]] + Split(y)
  {
    hide Split;
    assert REPEAT == PLACEHOLDER + PLACEHOLDER;
    Regroup(x, PLACEHOLDER, PLACEHOLDER, y);
    SplitTwice(x, PLACEHOLDER, y);
  }

  lemma SplitTwice(x: Str, p: Str, y: Str)
    requires p == PLACEHOLDER
    ensures Split(x + p + ([] + p + y)) == Split(x) + [[]] + Split(y)
  {
    var none: Str := [];
    assert Split(none) == [none];
    hide Split;
    SplitAt(none, y);
    SplitAt(x, none + p + y);
    var a, b := Split(x), Split(y);
    assert a + ([none] + b) == a + [none] + b;
  }

  /** An empty interior part puts two placeholders next to each other. */
  lemma {:induction false} EmptyInterior(parts: seq<Str>, k: nat)
    requires 0 < k < |parts| - 1 && parts[k] == []
    ensures Occurs(Join(parts), REPEAT)
  {
    assert REPEAT == PLACEHOLDER + PLACEHOLDER;
    if k == 1 {
      var rest := Join(parts[2..]);
      assert parts[1..][1..] == parts[2..];
      assert Join(parts) == parts[0] + REPEAT + rest;
      OccursWithin(parts[0], REPEAT, rest);
    } else {
      EmptyInterior(parts[1..], k - 1);
      var tail := Join(parts[1..]);
      assert Join(parts) == (parts[0] + PLACEHOLDER) + tail + [];
      OccursInPart(parts[0] + PLACEHOLDER, tail, [], REPEAT);
    }
  }

  lemma {:induction false} NonEmptyIdentity(parts: seq<Str>)
    requires forall i :: 0 <= i < |parts| ==> parts[i] != []
    ensures NonEmpty(parts) == parts
  {
    if parts != [] {
      NonEmptyIdentity(parts[1..]);
    }
  }

  /** A string without adjacent placeholders is its own squeezed form. */
  lemma NoRepeatIsNormal(s: Str)
    requires !Occurs(s, REPEAT)
    ensures Normalized(s) && Squeezed(Split(s)) == Split(s)
  {
    var parts := Split(s);
    JoinSplit(s);
    forall i | 0 < i < |parts| - 1 ensures parts[i] != [] {
      if parts[i] == [] { EmptyInterior(parts, i); }
    }
    SqueezedFixed(parts);
  }

  /** Collapses runs of placeholders by repeated replacement. */
  method NormalizeTemplate(tmpl0: Str) returns (tmpl: Str)
    ensures Split(tmpl) == Squeezed(Split(tmpl0))
    ensures Normalized(tmpl)
    ensures Normalized(tmpl0) ==> tmpl == tmpl0
  {
    tmpl := tmpl0;
    if tmpl == [] {
      assert Split(tmpl) == [tmpl];
      return;
    }
    while Contains(tmpl, REPEAT)
      invariant Squeezed(Split(tmpl)) == Squeezed(Split(tmpl0))
      decreases |tmpl|
    {
      ReplaceKeepsLiterals(tmpl);
      tmpl := ReplaceRepeats(tmpl);
    }
    NoRepeatIsNormal(tmpl);
    if Normalized(tmpl0) {
      NormalIsFixed(tmpl0);
      JoinSplit(tmpl);
      JoinSplit(tmpl0);
    }
  }

  lemma NormalIsFixed(s: Str)
    requires Normalized(s)
    ensures Squeezed(Split(s)) == Split(s)
  {
    SqueezedFixed(Split(s));
  }

  lemma SqueezedFixed(parts: seq<Str>)
    requires |parts| > 0 && forall i :: 0 < i < |parts| - 1 ==> parts[i] != []
    ensures Squeezed(parts) == parts
  {
    if |parts| > 1 {
      NonEmptyIdentity(parts[1..|parts| - 1]);
    }
  }
}
