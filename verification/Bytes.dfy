/** Go strings as byte sequences, and the functions of package strings that the
    program calls. */
module Bytes {

  /** One byte of a Go string. */
  type Byte = c: char | c as int < 256

  type Str = seq<Byte>

  // ---------------------------------------------------------- occurrences

  ghost predicate OccursAt(s: Str, sub: Str, i: int) {
    0 <= i && i + |sub| <= |s| && s[i..i + |sub|] == sub
  }

  function HasPrefix(s: Str, p: Str): bool {
    |p| <= |s| && s[..|p|] == p
  }

  function HasSuffix(s: Str, p: Str): bool {
    |p| <= |s| && s[|s| - |p|..] == p
  }

  lemma PrefixOfDrop(s: Str, sub: Str, i: nat)
    requires i <= |s|
    ensures HasPrefix(s[i..], sub) <==> OccursAt(s, sub, i)
  {
    if i + |sub| <= |s| {
      assert s[i..][..|sub|] == s[i..i + |sub|];
    }
  }

  /** The first offset at or after `from` at which sub occurs, or -1. */
  function IndexFrom(s: Str, sub: Str, from: nat): (r: int)
    requires from <= |s|
    ensures r == -1 || (from <= r && OccursAt(s, sub, r))
    ensures forall k :: from <= k && (r < 0 || k < r) ==> !OccursAt(s, sub, k)
    decreases |s| - from
  {
    PrefixOfDrop(s, sub, from);
    if HasPrefix(s[from..], sub) then from
    else if from == |s| then -1
    else IndexFrom(s, sub, from + 1)
  }

  /** strings.Index */
  function Index(s: Str, sub: Str): (r: int)
    ensures r == -1 || (OccursAt(s, sub, r) && 0 <= r && r + |sub| <= |s|)
    ensures forall k :: 0 <= k && (r < 0 || k < r) ==> !OccursAt(s, sub, k)
  {
    IndexFrom(s, sub, 0)
  }

  ghost predicate Occurs(s: Str, sub: Str) {
    exists i :: OccursAt(s, sub, i)
  }

  /** strings.Contains */
  function Contains(s: Str, sub: Str): (r: bool)
    ensures r <==> Occurs(s, sub)
  {
    Index(s, sub) >= 0
  }

  /** The first occurrence is the only candidate for Index. */
  lemma IndexIs(s: Str, sub: Str, i: nat)
    requires OccursAt(s, sub, i) && forall k :: 0 <= k < i ==> !OccursAt(s, sub, k)
    ensures Index(s, sub) == i
  {
  }

  lemma OccursAtDrop(s: Str, d: nat, sub: Str, i: nat)
    requires d <= |s|
    ensures OccursAt(s[d..], sub, i) <==> OccursAt(s, sub, d + i)
  {
    if d + i + |sub| <= |s| {
      assert s[d..][i..i + |sub|] == s[d + i..d + i + |sub|];
    }
  }

  lemma OccursAtTake(s: Str, e: nat, sub: Str, i: nat)
    requires i + |sub| <= e <= |s|
    ensures OccursAt(s[..e], sub, i) <==> OccursAt(s, sub, i)
  {
    assert s[..e][i..i + |sub|] == s[i..i + |sub|];
  }

  lemma CutAt(s: Str, sub: Str, i: nat)
    requires OccursAt(s, sub, i)
    ensures s == s[..i] + sub + s[i + |sub|..]
  {
  }

  lemma Regroup(a: Str, b: Str, c: Str, d: Str)
    ensures a + (b + c) + d == a + b + ([] + c + d)
  {
  }

  lemma SliceFront(x: Str, p: Str, z: Str, k: nat)
    requires k <= |x|
    ensures (x + p + z)[..k] == x[..k] && (x + p + z)[k..] == x[k..] + p + z
  {
  }

  lemma SliceBack(x: Str, p: Str, z: Str)
    ensures (x + p + z)[..|x|] == x && (x + p + z)[|x| + |p|..] == z
  {
  }

  lemma OccursWithin(pre: Str, mid: Str, post: Str)
    ensures OccursAt(pre + mid + post, mid, |pre|)
  {
    assert (pre + mid + post)[|pre|..|pre| + |mid|] == mid;
  }

  /** A part of a string that contains sub is a reason for the string to contain it. */
  lemma OccursInPart(pre: Str, mid: Str, post: Str, sub: Str)
    requires Occurs(mid, sub)
    ensures Occurs(pre + mid + post, sub)
  {
    var i :| OccursAt(mid, sub, i);
    var s := pre + mid + post;
    assert s[|pre| + i..|pre| + i + |sub|] == mid[i..i + |sub|];
    assert OccursAt(s, sub, |pre| + i);
  }

  // --------------------------------------------------------- concatenation

  function Concat(ss: seq<Str>): Str {
    if ss == [] then [] else ss[0] + Concat(ss[1..])
  }

  lemma {:induction false} ConcatAppend(a: seq<Str>, b: seq<Str>)
    ensures Concat(a + b) == Concat(a) + Concat(b)
  {
    if a == [] {
      assert a + b == b;
    } else {
      assert (a + b)[1..] == a[1..] + b;
      ConcatAppend(a[1..], b);
    }
  }

  lemma ConcatOne(s: Str)
    ensures Concat([s]) == s
  {
  }

  // ------------------------------------------------------------- ordering

  /** Go's string comparison a < b. */
  predicate Less(a: Str, b: Str) {
    |b| > 0 && (|a| == 0 || a[0] < b[0] || (a[0] == b[0] && Less(a[1..], b[1..])))
  }

  lemma {:induction false} LessTotal(a: Str, b: Str)
    ensures !(Less(a, b) && Less(b, a))
    ensures Less(a, b) || a == b || Less(b, a)
    ensures Less(a, b) ==> a != b
  {
    if a != [] && b != [] {
      LessTotal(a[1..], b[1..]);
      assert a == [a[0]] + a[1..] && b == [b[0]] + b[1..];
    }
  }

  lemma {:induction false} LessTrans(a: Str, b: Str, c: Str)
    requires Less(a, b) && Less(b, c)
    ensures Less(a, c)
  {
    if a != [] && a[0] == b[0] && b[0] == c[0] {
      LessTrans(a[1..], b[1..], c[1..]);
    }
  }

  /** At the first byte where the strings differ, a has the smaller one. */
  ghost predicate SmallerAt(a: Str, b: Str, i: nat) {
    i < |a| && i < |b| && a[..i] == b[..i] && a[i] < b[i]
  }

  /** a is smaller: it is a proper prefix, or has the smaller byte where they first differ. */
  lemma {:induction false} LessMeans(a: Str, b: Str)
    ensures Less(a, b) <==> (|a| < |b| && b[..|a|] == a) || exists i: nat :: SmallerAt(a, b, i)
  {
    if a == [] || b == [] || a[0] != b[0] {
      if Less(a, b) && a != [] {
        assert SmallerAt(a, b, 0);
      }
      forall i: nat | SmallerAt(a, b, i) ensures Less(a, b) {
        SmallerHead(a, b, i);
      }
    } else {
      LessMeans(a[1..], b[1..]);
      PrefixTail(a, b);
      if exists i: nat :: SmallerAt(a, b, i) {
        var i: nat :| SmallerAt(a, b, i);
        assert a[..i][1..] == a[1..][..i - 1] && b[..i][1..] == b[1..][..i - 1];
        assert SmallerAt(a[1..], b[1..], i - 1);
      }
      if exists i: nat :: SmallerAt(a[1..], b[1..], i) {
        var i: nat :| SmallerAt(a[1..], b[1..], i);
        assert a[..i + 1] == [a[0]] + a[1..][..i] && b[..i + 1] == [b[0]] + b[1..][..i];
        assert SmallerAt(a, b, i + 1);
      }
    }
  }

  lemma SmallerHead(a: Str, b: Str, i: nat)
    requires SmallerAt(a, b, i)
    ensures a != [] && b != [] && if i == 0 then a[0] < b[0] else a[0] == b[0]
  {
    if i > 0 {
      assert a[..i][0] == b[..i][0];
    }
  }

  lemma PrefixTail(a: Str, b: Str)
    requires a != [] && b != [] && a[0] == b[0]
    ensures (|a| < |b| && b[..|a|] == a) <==> (|a[1..]| < |b[1..]| && b[1..][..|a[1..]|] == a[1..])
  {
    if |a| < |b| {
      assert b[..|a|] == [b[0]] + b[1..][..|a| - 1];
      assert a == [a[0]] + a[1..];
    }
  }
}
