/** Sorting by a strict order: Go's sort package is modelled by a function whose
    result is the strictly ascending arrangement of distinct elements. */
module Sorting {
  import opened Bytes

  ghost predicate Distinct<T>(s: seq<T>) {
    forall i, j :: 0 <= i < j < |s| ==> s[i] != s[j]
  }

  /** less is a strict total order on the members of s. */
  ghost predicate OrdersAll<T(!new)>(less: (T, T) -> bool, s: set<T>) {
    && (forall x, y :: x in s && y in s ==> !(less(x, y) && less(y, x)))
    && (forall x, y :: x in s && y in s && x != y ==> less(x, y) || less(y, x))
    && (forall x, y, z :: x in s && y in s && z in s && less(x, y) && less(y, z) ==> less(x, z))
  }

  ghost predicate Ascending<T>(less: (T, T) -> bool, s: seq<T>) {
    forall i, j :: 0 <= i < j < |s| ==> less(s[i], s[j])
  }

  function Elements<T>(s: seq<T>): set<T> {
    set x | x in s
  }

  function Insert<T>(x: T, s: seq<T>, less: (T, T) -> bool): seq<T> {
    if s == [] || less(x, s[0]) then [x] + s else [s[0]] + Insert(x, s[1..], less)
  }

  function SortBy<T>(s: seq<T>, less: (T, T) -> bool): seq<T> {
    if s == [] then [] else Insert(s[0], SortBy(s[1..], less), less)
  }

  lemma {:induction false} InsertAscends<T(!new)>(x: T, s: seq<T>, less: (T, T) -> bool)
    requires OrdersAll(less, Elements(s) + {x}) && Ascending(less, s) && x !in s
    ensures Ascending(less, Insert(x, s, less))
    ensures Elements(Insert(x, s, less)) == Elements(s) + {x}
    ensures |Insert(x, s, less)| == |s| + 1
  {
    var r := Insert(x, s, less);
    if s != [] && !less(x, s[0]) {
      var t := s[1..];
      assert Elements(s) == Elements(t) + {s[0]} && s[0] in Elements(s);
      InsertAscends(x, t, less);
      var rest := Insert(x, t, less);
      forall i, j | 0 <= i < j < |r| ensures less(r[i], r[j]) {
        if i == 0 {
          assert rest[j - 1] in Elements(rest);
          if rest[j - 1] != x {
            var k :| 0 <= k < |t| && t[k] == rest[j - 1];
            assert s[k + 1] == rest[j - 1];
          }
        } else {
          assert r[i] == rest[i - 1] && r[j] == rest[j - 1];
        }
      }
      assert Elements(r) == Elements(rest) + {s[0]};
    } else {
      forall i, j | 0 <= i < j < |r| ensures less(r[i], r[j]) {
        if i == 0 {
          assert r[j] == s[j - 1] && s[j - 1] in Elements(s) && s[0] in Elements(s);
          assert j == 1 || less(s[0], s[j - 1]);
        } else {
          assert r[i] == s[i - 1] && r[j] == s[j - 1];
        }
      }
      assert Elements(r) == Elements(s) + {x};
    }
  }

  /** The result is strictly ascending and has the same elements. */
  lemma {:induction false} SortByAscends<T(!new)>(s: seq<T>, less: (T, T) -> bool)
    requires OrdersAll(less, Elements(s)) && Distinct(s)
    ensures Ascending(less, SortBy(s, less))
    ensures Elements(SortBy(s, less)) == Elements(s) && |SortBy(s, less)| == |s|
  {
    if s != [] {
      assert Elements(s) == Elements(s[1..]) + {s[0]};
      SortByAscends(s[1..], less);
      assert s[0] !in Elements(s[1..]);
      assert forall y :: y in SortBy(s[1..], less) <==> y in Elements(SortBy(s[1..], less));
      InsertAscends(s[0], SortBy(s[1..], less), less);
    }
  }

  /** There is only one ascending arrangement of a set. */
  lemma {:induction false} AscendingUnique<T(!new)>(a: seq<T>, b: seq<T>, less: (T, T) -> bool)
    requires OrdersAll(less, Elements(a)) && Elements(a) == Elements(b)
    requires Ascending(less, a) && Ascending(less, b)
    ensures a == b
  {
    assert b != [] ==> b[0] in Elements(b);
    if a != [] {
      assert a[0] in Elements(a);
      assert b != [] && b[0] in Elements(b);
      FirstIsLeast(a, b, less);
      assert Elements(a[1..]) == Elements(a) - {a[0]} by { TailElements(a, less); }
      assert Elements(b[1..]) == Elements(b) - {b[0]} by { TailElements(b, less); }
      AscendingUnique(a[1..], b[1..], less);
      assert a == [a[0]] + a[1..] && b == [b[0]] + b[1..];
    }
  }

  lemma FirstIsLeast<T(!new)>(a: seq<T>, b: seq<T>, less: (T, T) -> bool)
    requires OrdersAll(less, Elements(a)) && Elements(a) == Elements(b)
    requires Ascending(less, a) && Ascending(less, b) && a != [] && b != []
    ensures a[0] == b[0]
  {
    assert a[0] in Elements(b) && b[0] in Elements(a);
    var i :| 0 <= i < |b| && b[i] == a[0];
    var j :| 0 <= j < |a| && a[j] == b[0];
  }

  lemma TailElements<T(!new)>(a: seq<T>, less: (T, T) -> bool)
    requires OrdersAll(less, Elements(a)) && Ascending(less, a) && a != []
    ensures Elements(a[1..]) == Elements(a) - {a[0]}
  {
    forall x | x in Elements(a) - {a[0]} ensures x in a[1..] {
      var i :| 0 <= i < |a| && a[i] == x;
      assert a[1..][i - 1] == x;
    }
    forall x | x in a[1..] ensures x != a[0] && x in Elements(a) {
      var i :| 0 <= i < |a[1..]| && a[1..][i] == x;
      assert less(a[0], a[i + 1]) && a[0] in Elements(a) && a[i + 1] in Elements(a);
    }
  }

  lemma AscendingDistinct<T(!new)>(s: seq<T>, less: (T, T) -> bool)
    requires OrdersAll(less, Elements(s)) && Ascending(less, s)
    ensures Distinct(s)
  {
    forall i, j | 0 <= i < j < |s| ensures s[i] != s[j] {
      assert s[i] in Elements(s) && s[j] in Elements(s);
    }
  }

  /** Ranging over a Go map or set: some sequence of its members, each once. */
  method Enumerate<T>(s: set<T>) returns (r: seq<T>)
    ensures Elements(r) == s && Distinct(r)
  {
    r := [];
    var left := s;
    while left != {}
      invariant Elements(r) == s - left && left <= s && Distinct(r)
      decreases |left|
    {
      var x :| x in left;
      assert x !in Elements(r);
      assert Elements(r + [x]) == Elements(r) + {x};
      r := r + [x];
      left := left - {x};
    }
  }

  /** Go's string order as a function value. */
  function LessStr(): (Str, Str) -> bool {
    (a: Str, b: Str) => Less(a, b)
  }

  lemma LessStrOrders(s: set<Str>)
    ensures OrdersAll<Str>(LessStr(), s)
  {
    forall x: Str, y: Str | x in s && y in s
      ensures !(Less(x, y) && Less(y, x)) && (x != y ==> Less(x, y) || Less(y, x))
    {
      LessTotal(x, y);
    }
    forall x: Str, y: Str, z: Str | x in s && y in s && z in s && Less(x, y) && Less(y, z) ensures Less(x, z) {
      LessTrans(x, y, z);
    }
  }
}
