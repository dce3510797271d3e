/** Canonical keys of anchor sets (canonicalAnchorKey of parser.go): when they tell
    anchor sets apart. */
module AnchorKey {
  import opened Bytes
  import opened Tokens
  import opened Sorting

  const NUL: Byte := 0 as char
  const UNIT: Byte := 31 as char

  // ------------------------------------------------------------------- order

  /** By kind, then by slice. */
  predicate TokenLess(a: Token, b: Token) {
    KindCode(a.kind) < KindCode(b.kind) || (a.kind == b.kind && Less(a.slice, b.slice))
  }

  function LessToken(): (Token, Token) -> bool {
    (a: Token, b: Token) => TokenLess(a, b)
  }

  lemma KindCodeInjective(a: TokenKind, b: TokenKind)
    requires KindCode(a) == KindCode(b)
    ensures a == b
  {
  }

  lemma LessTokenOrders(s: set<Token>)
    ensures OrdersAll<Token>(LessToken(), s)
  {
    hide KindCode;
    forall x: Token, y: Token | x in s && y in s
      ensures !(TokenLess(x, y) && TokenLess(y, x)) && (x != y ==> TokenLess(x, y) || TokenLess(y, x))
    {
      LessTotal(x.slice, y.slice);
      if KindCode(x.kind) == KindCode(y.kind) { KindCodeInjective(x.kind, y.kind); }
    }
    forall x: Token, y: Token, z: Token | x in s && y in s && z in s && TokenLess(x, y) && TokenLess(y, z)
      ensures TokenLess(x, z)
    {
      if x.kind == y.kind && y.kind == z.kind { LessTrans(x.slice, y.slice, z.slice); }
    }
  }

  /** The anchors in canonical order. */
  ghost predicate Canonical(ordered: seq<Token>, anchors: set<Token>) {
    Ascending<Token>(LessToken(), ordered) && Elements(ordered) == anchors
  }

  lemma {:induction false} CanonicalExists(anchors: set<Token>)
    ensures exists ordered :: Canonical(ordered, anchors)
    decreases |anchors|
  {
    if anchors == {} {
      assert Canonical([], anchors);
    } else {
      var x :| x in anchors;
      CanonicalExists(anchors - {x});
      var rest :| Canonical(rest, anchors - {x});
      assert x !in Elements(rest);
      LessTokenOrders(Elements(rest) + {x});
      InsertAscends<Token>(x, rest, LessToken());
      assert Canonical(Insert(x, rest, LessToken()), anchors);
    }
  }

  lemma CanonicalUnique(a: seq<Token>, b: seq<Token>, anchors: set<Token>)
    requires Canonical(a, anchors) && Canonical(b, anchors)
    ensures a == b
  {
    LessTokenOrders(anchors);
    AscendingUnique<Token>(a, b, LessToken());
  }

  ghost function OrderedOf(anchors: set<Token>): (ordered: seq<Token>)
    ensures Canonical(ordered, anchors)
  {
    CanonicalExists(anchors);
    var ordered :| Canonical(ordered, anchors);
    ordered
  }

  /** Anchors are listed by kind, in the order of their codes, and by slice within a kind. */
  lemma CanonicalOrder(anchors: set<Token>)
    ensures Elements(OrderedOf(anchors)) == anchors
    ensures forall i, j :: 0 <= i < j < |OrderedOf(anchors)| ==>
      var a, b := OrderedOf(anchors)[i], OrderedOf(anchors)[j];
      KindCode(a.kind) < KindCode(b.kind) || (a.kind == b.kind && Less(a.slice, b.slice))
  {
    var ordered := OrderedOf(anchors);
    forall i, j | 0 <= i < j < |ordered| ensures TokenLess(ordered[i], ordered[j]) {
      assert LessToken()(ordered[i], ordered[j]);
    }
  }

  lemma NoneOrdered()
    ensures OrderedOf({}) == []
  {
    CanonicalUnique([], OrderedOf({}), {});
  }

  lemma SortedIsCanonical(keys: seq<Token>, anchors: set<Token>)
    requires Elements(keys) == anchors && Distinct(keys)
    ensures SortBy(keys, LessToken()) == OrderedOf(anchors)
  {
    LessTokenOrders(anchors);
    SortByAscends<Token>(keys, LessToken());
    hide *;
    AscendsCanonically(SortBy(keys, LessToken()), anchors);
  }

  lemma AscendsCanonically(ordered: seq<Token>, anchors: set<Token>)
    requires Ascending<Token>(LessToken(), ordered) && Elements(ordered) == anchors
    ensures ordered == OrderedOf(anchors)
  {
    hide Ascending, Elements;
    CanonicalUnique(ordered, OrderedOf(anchors), anchors);
  }

  // -------------------------------------------------------------------- keys

  function KindByte(kind: TokenKind): Byte {
    KindCode(kind) as char
  }

  function KeyEntry(tok: Token): Str {
    [KindByte(tok.kind), UNIT] + tok.slice + [NUL]
  }

  function KeyOf(ordered: seq<Token>): Str {
    if ordered == [] then [] else KeyEntry(ordered[0]) + KeyOf(ordered[1..])
  }

  ghost function KeyOfSet(anchors: set<Token>): Str {
    KeyOf(OrderedOf(anchors))
  }

  /** canonicalAnchorKey: the key depends on the set only, not on the order in which the map is ranged over. */
  method CanonicalAnchorKey(anchors: set<Token>) returns (key: Str, ordered: seq<Token>)
    ensures ordered == OrderedOf(anchors) && key == KeyOfSet(anchors)
    ensures Elements(ordered) == anchors
    ensures forall i, j :: 0 <= i < j < |ordered| ==>
      var a, b := ordered[i], ordered[j];
      KindCode(a.kind) < KindCode(b.kind) || (a.kind == b.kind && Less(a.slice, b.slice))
  {
    hide Less, KindCode, OrderedOf, Elements, Distinct, SortBy;
    CanonicalOrder(anchors);
    if anchors == {} {
      NoneOrdered();
      return [], [];
    }
    var keys := Enumerate(anchors);
    SortedIsCanonical(keys, anchors);
    ordered := SortBy(keys, LessToken());
    key := [];
    for i := 0 to |ordered|
      invariant key == KeyOf(ordered[..i])
    {
      KeySnoc(ordered[..i], ordered[i]);
      assert ordered[..i + 1] == ordered[..i] + [ordered[i]];
      key := key + [KindByte(ordered[i].kind), UNIT];
      key := key + ordered[i].slice;
      key := key + [NUL];
    }
    assert ordered[..|ordered|] == ordered;
  }

  lemma {:induction false} KeySnoc(toks: seq<Token>, tok: Token)
    ensures KeyOf(toks + [tok]) == KeyOf(toks) + [KindByte(tok.kind), UNIT] + tok.slice + [NUL]
  {
    if toks == [] {
      assert (toks + [tok])[1..] == [] && KeyOf([]) == [];
    } else {
      assert (toks + [tok])[1..] == toks[1..] + [tok];
      KeySnoc(toks[1..], tok);
    }
  }

  // -------------------------------------------------------------- order of keys

  /** Lexicographic order of token lists: by kind, then by slice, token after token. */
  predicate ListLess(a: seq<Token>, b: seq<Token>) {
    |b| > 0 && (|a| == 0 || TokenLess(a[0], b[0]) || (a[0] == b[0] && ListLess(a[1..], b[1..])))
  }

  lemma {:induction false} LessBehind(p: Str, x: Str, y: Str)
    ensures Less(p + x, p + y) <==> Less(x, y)
  {
    if p == [] {
      assert p + x == x && p + y == y;
    } else {
      assert (p + x)[1..] == p[1..] + x && (p + y)[1..] == p[1..] + y;
      LessBehind(p[1..], x, y);
    }
  }

  /** Strings without NUL bytes compare like their NUL-terminated forms, whatever follows. */
  lemma {:induction false} LessTerminated(s: Str, t: Str, x: Str, y: Str)
    requires NUL !in s && NUL !in t && s != t
    ensures Less(s + ([NUL] + x), t + ([NUL] + y)) <==> Less(s, t)
  {
    var a, b := s + ([NUL] + x), t + ([NUL] + y);
    if s == [] {
      assert a[0] == NUL && b[0] == t[0] && t[0] in t;
    } else if t == [] {
      assert b[0] == NUL && a[0] == s[0] && s[0] in s;
    } else {
      assert a[0] == s[0] && b[0] == t[0];
      assert a[1..] == s[1..] + ([NUL] + x) && b[1..] == t[1..] + ([NUL] + y);
      if s[0] == t[0] {
        assert s == [s[0]] + s[1..] && t == [t[0]] + t[1..];
        LessTerminated(s[1..], t[1..], x, y);
      }
    }
  }

  ghost predicate NulFreeTokens(toks: seq<Token>) {
    forall i :: 0 <= i < |toks| ==> NUL !in toks[i].slice
  }

  lemma KeyHead(toks: seq<Token>)
    requires toks != []
    ensures KeyOf(toks) == [KindByte(toks[0].kind)] + ([UNIT] + (toks[0].slice + ([NUL] + KeyOf(toks[1..]))))
  {
  }

  /** Keys of lists without NUL bytes are ordered like the lists. */
  lemma {:induction false} KeyOrder(a: seq<Token>, b: seq<Token>)
    requires NulFreeTokens(a) && NulFreeTokens(b)
    ensures Less(KeyOf(a), KeyOf(b)) <==> ListLess(a, b)
  {
    if a != [] && b != [] {
      KeyHead(a);
      KeyHead(b);
      var x, y := a[0].slice + ([NUL] + KeyOf(a[1..])), b[0].slice + ([NUL] + KeyOf(b[1..]));
      if a[0].kind != b[0].kind {
        KindsDiffer(a[0].kind, b[0].kind, [UNIT] + x, [UNIT] + y);
      } else {
        LessBehind([KindByte(a[0].kind)], [UNIT] + x, [UNIT] + y);
        LessBehind([UNIT], x, y);
        if a[0].slice != b[0].slice {
          LessTerminated(a[0].slice, b[0].slice, KeyOf(a[1..]), KeyOf(b[1..]));
        } else {
          SameHead(a, b);
          KeyOrder(a[1..], b[1..]);
        }
      }
    } else if b != [] {
      KeyHead(b);
    }
  }

  lemma KindsDiffer(j: TokenKind, k: TokenKind, x: Str, y: Str)
    requires j != k
    ensures Less([KindByte(j)] + x, [KindByte(k)] + y) <==> KindCode(j) < KindCode(k)
  {
  }

  lemma SameHead(a: seq<Token>, b: seq<Token>)
    requires a != [] && b != [] && a[0] == b[0]
    ensures Less(a[0].slice + ([NUL] + KeyOf(a[1..])), b[0].slice + ([NUL] + KeyOf(b[1..])))
       <==> Less(KeyOf(a[1..]), KeyOf(b[1..]))
    ensures !TokenLess(a[0], b[0])
  {
    LessBehind(a[0].slice, [NUL] + KeyOf(a[1..]), [NUL] + KeyOf(b[1..]));
    LessBehind([NUL], KeyOf(a[1..]), KeyOf(b[1..]));
    LessTotal(a[0].slice, b[0].slice);
  }

  // ------------------------------------------------------------- decodability

  /** What an entry's end and the next entry's head look like. */
  predicate MarkerAt(s: Str, p: int) {
    0 <= p && p + 2 < |s| && s[p] == NUL && s[p + 1] as int < 7 && s[p + 2] == UNIT
  }

  /** The slice cannot be mistaken for two entries. */
  ghost predicate MarkerFree(s: Str) {
    forall p :: !MarkerAt(s, p)
  }

  ghost predicate MarkersFree(anchors: set<Token>) {
    forall tok :: tok in anchors ==> MarkerFree(tok.slice)
  }

  ghost predicate AllMarkerFree(toks: seq<Token>) {
    forall i :: 0 <= i < |toks| ==> MarkerFree(toks[i].slice)
  }

  /** A slice without NUL bytes is marker-free. */
  lemma NulFree(s: Str)
    requires NUL !in s
    ensures MarkerFree(s)
  {
  }

  /** An entry may end at p: it is the last byte, or a new entry's head follows. */
  predicate EntryEndsAt(key: Str, p: int) {
    2 <= p < |key| && key[p] == NUL && (p + 1 == |key| || MarkerAt(key, p))
  }

  /** The first possible end of the first entry is its actual end. */
  lemma FirstEnd(toks: seq<Token>, p: int)
    requires toks != [] && MarkerFree(toks[0].slice) && p <= 2 + |toks[0].slice|
    ensures EntryEndsAt(KeyOf(toks), p) <==> p == 2 + |toks[0].slice|
  {
    var rest := KeyOf(toks[1..]);
    assert rest != [] ==> |rest| > 1 && rest[0] as int < 7 && rest[1] == UNIT;
    assert KeyOf(toks) == [KindByte(toks[0].kind), UNIT] + toks[0].slice + [NUL] + rest;
    hide KeyOf;
    EndOfEntry(KindByte(toks[0].kind), toks[0].slice, rest, p);
  }

  lemma EndOfEntry(k: Byte, s: Str, rest: Str, p: int)
    requires MarkerFree(s) && p <= 2 + |s|
    requires rest != [] ==> |rest| > 1 && rest[0] as int < 7 && rest[1] == UNIT
    ensures EntryEndsAt([k, UNIT] + s + [NUL] + rest, p) <==> p == 2 + |s|
  {
    var key, e := [k, UNIT] + s + [NUL] + rest, 2 + |s|;
    assert key[e] == NUL && (rest != [] ==> key[e + 1] == rest[0] && key[e + 2] == rest[1] == UNIT);
    if 2 <= p < e {
      assert key[p] == s[p - 2];
      if p + 2 < e {
        assert key[p + 1] == s[p - 1] && key[p + 2] == s[p];
        assert !MarkerAt(s, p - 2);
      }
    }
  }

  /** Keys of marker-free lists are uniquely decodable. */
  lemma {:induction false} KeyInjective(a: seq<Token>, b: seq<Token>)
    requires AllMarkerFree(a) && AllMarkerFree(b) && KeyOf(a) == KeyOf(b)
    ensures a == b
  {
    if a != [] && b != [] {
      var key := KeyOf(a);
      var m, n := 2 + |a[0].slice|, 2 + |b[0].slice|;
      FirstEnd(a, m);
      FirstEnd(b, n);
      FirstEnd(a, if m <= n then m else n);
      FirstEnd(b, if m <= n then m else n);
      assert m == n;
      assert key[0] == KindByte(a[0].kind) == KindByte(b[0].kind);
      KindCodeInjective(a[0].kind, b[0].kind);
      assert a[0].slice == key[2..m] && b[0].slice == key[2..m];
      assert KeyOf(a[1..]) == key[m + 1..] && KeyOf(b[1..]) == key[m + 1..];
      KeyInjective(a[1..], b[1..]);
      assert a == [a[0]] + a[1..] && b == [b[0]] + b[1..];
    }
  }

  // ------------------------------------------------- what a key can be read as

  /** The first marker at or after p, or -1. */
  function FirstMarker(s: Str, p: nat): (r: int)
    requires p <= |s|
    ensures r == -1 || (p <= r && MarkerAt(s, r))
    ensures forall q :: p <= q && (r < 0 || q < r) ==> !MarkerAt(s, q)
    decreases |s| - p
  {
    if p == |s| then -1 else if MarkerAt(s, p) then p else FirstMarker(s, p + 1)
  }

  /** The kind with a given iota value. */
  function KindOfCode(c: nat): (kind: TokenKind)
    requires c < 7
    ensures KindCode(kind) == c
  {
    if c == 0 then Alphabetic
    else if c == 1 then Numeric
    else if c == 2 then Symbolic
    else if c == 3 then Whitespace
    else if c == 4 then Impure
    else if c == 5 then SpecialWhite
    else SpecialBlack
  }

  /** The tokens that a token's key entry spells: its slice is cut at the markers. */
  function Spelled(tok: Token): (toks: seq<Token>)
    ensures toks != []
    decreases |tok.slice|
  {
    var s := tok.slice;
    var p := FirstMarker(s, 0);
    if p < 0 then [tok]
    else [Token(tok.kind, s[..p])] + Spelled(Token(KindOfCode(s[p + 1] as int), s[p + 3..]))
  }

  function SpelledAll(toks: seq<Token>): seq<Token> {
    if toks == [] then [] else Spelled(toks[0]) + SpelledAll(toks[1..])
  }

  lemma {:induction false} KeyAppend(a: seq<Token>, b: seq<Token>)
    ensures KeyOf(a + b) == KeyOf(a) + KeyOf(b)
  {
    if a == [] {
      assert a + b == b;
    } else {
      assert (a + b)[1..] == a[1..] + b;
      KeyAppend(a[1..], b);
    }
  }

  /** Cutting at a marker keeps the entry. */
  lemma EntryAtMarker(kind: TokenKind, s: Str, p: nat)
    requires MarkerAt(s, p)
    ensures KeyEntry(Token(kind, s))
         == KeyEntry(Token(kind, s[..p])) + KeyEntry(Token(KindOfCode(s[p + 1] as int), s[p + 3..]))
  {
    assert s == s[..p] + [NUL, s[p + 1], UNIT] + s[p + 3..];
  }

  /** No marker reaches across the place where a slice is cut. */
  lemma FrontIsFree(s: Str, p: nat)
    requires p <= |s| && forall q :: 0 <= q < p ==> !MarkerAt(s, q)
    ensures MarkerFree(s[..p])
  {
    forall q ensures !MarkerAt(s[..p], q) {
      if 0 <= q && q + 2 < p {
        assert !MarkerAt(s, q);
      }
    }
  }

  /** What a token spells has no markers, and the token's own key entry. */
  lemma {:induction false} SpelledKey(tok: Token)
    ensures AllMarkerFree(Spelled(tok)) && KeyOf(Spelled(tok)) == KeyEntry(tok)
    decreases |tok.slice|
  {
    var s := tok.slice;
    var p := FirstMarker(s, 0);
    if p < 0 {
      assert KeyOf([tok]) == KeyEntry(tok) + KeyOf([]);
    } else {
      var rest := Token(KindOfCode(s[p + 1] as int), s[p + 3..]);
      SpelledKey(rest);
      EntryAtMarker(tok.kind, s, p);
      FrontIsFree(s, p);
      hide KeyEntry, MarkerFree;
      assert Spelled(tok)[1..] == Spelled(rest);
    }
  }

  lemma {:induction false} SpelledAllKey(toks: seq<Token>)
    ensures AllMarkerFree(SpelledAll(toks)) && KeyOf(SpelledAll(toks)) == KeyOf(toks)
  {
    hide Spelled, KeyEntry, MarkerFree;
    if toks != [] {
      SpelledKey(toks[0]);
      SpelledAllKey(toks[1..]);
      KeyAppend(Spelled(toks[0]), SpelledAll(toks[1..]));
    }
  }

  /** Two lists have the same key exactly when they spell the same tokens. */
  lemma KeysEqualIff(a: seq<Token>, b: seq<Token>)
    ensures KeyOf(a) == KeyOf(b) <==> SpelledAll(a) == SpelledAll(b)
  {
    SpelledAllKey(a);
    SpelledAllKey(b);
    if KeyOf(a) == KeyOf(b) {
      KeyInjective(SpelledAll(a), SpelledAll(b));
    }
  }

  /** Tokens without markers spell themselves. */
  lemma {:induction false} FreeSpelling(toks: seq<Token>)
    requires AllMarkerFree(toks)
    ensures SpelledAll(toks) == toks
  {
    if toks != [] {
      FreeSpelling(toks[1..]);
      assert MarkerFree(toks[0].slice);
      assert Spelled(toks[0]) == [toks[0]];
    }
  }

  /** The tokens spelled by an anchor set in canonical order. */
  ghost function SpellingOf(anchors: set<Token>): seq<Token> {
    SpelledAll(OrderedOf(anchors))
  }

  /** Any two anchor sets: they share a key exactly when, in canonical order, they spell the
      same tokens. */
  lemma SetKeysEqualIff(a: set<Token>, b: set<Token>)
    ensures KeyOfSet(a) == KeyOfSet(b) <==> SpellingOf(a) == SpellingOf(b)
  {
    KeysEqualIff(OrderedOf(a), OrderedOf(b));
  }

  lemma FreeSetSpelling(anchors: set<Token>)
    requires MarkersFree(anchors)
    ensures SpellingOf(anchors) == OrderedOf(anchors)
  {
    var ordered := OrderedOf(anchors);
    assert forall i :: 0 <= i < |ordered| ==> ordered[i] in Elements(ordered);
    FreeSpelling(ordered);
  }

  lemma EmptySpelling(anchors: set<Token>)
    ensures SpellingOf(anchors) == [] <==> anchors == {}
  {
    var ordered := OrderedOf(anchors);
    if tok :| tok in anchors {
      assert tok in Elements(ordered);
    }
    if ordered != [] {
      assert ordered[0] in Elements(ordered);
    }
  }

  /** Two anchor sets without markers have the same key iff they are equal. */
  lemma SetKeysTellSets(a: set<Token>, b: set<Token>)
    requires MarkersFree(a) && MarkersFree(b)
    ensures KeyOfSet(a) == KeyOfSet(b) <==> a == b
  {
    SetKeysEqualIff(a, b);
    FreeSetSpelling(a);
    FreeSetSpelling(b);
  }

  /** Any anchors: the key is empty iff the set is. */
  lemma EmptyKey(anchors: set<Token>)
    ensures KeyOfSet(anchors) == [] <==> anchors == {}
  {
    var ordered := OrderedOf(anchors);
    if anchors == {} {
      CanonicalUnique([], ordered, anchors);
    }
    if tok :| tok in anchors {
      assert tok in Elements(ordered);
    }
  }

  lemma JoinedEntry(kind: TokenKind, a: Str, next: TokenKind, b: Str)
    ensures KeyEntry(Token(kind, a + [NUL, KindByte(next), UNIT] + b))
         == KeyEntry(Token(kind, a)) + KeyEntry(Token(next, b))
  {
    var s := a + [NUL, KindByte(next), UNIT] + b;
    assert s[..|a|] == a && s[|a| + 3..] == b && s[|a| + 1] == KindByte(next);
    EntryAtMarker(kind, s, |a|);
    KindCodeInjective(KindOfCode(s[|a| + 1] as int), next);
  }

  lemma KeyOfFew(x: Token, y: Token)
    ensures KeyOf([x]) == KeyEntry(x) && KeyOf([x, y]) == KeyEntry(x) + KeyEntry(y)
  {
    assert [x][1..] == [] && [x, y][1..] == [y] && [y][1..] == [];
    assert KeyOf([x]) == KeyEntry(x) + KeyOf([]) && KeyOf([y]) == KeyEntry(y) + KeyOf([]);
  }

  lemma OrderedFew(x: Token, y: Token)
    ensures OrderedOf({x}) == [x]
    ensures TokenLess(x, y) ==> OrderedOf({x, y}) == [x, y]
  {
    CanonicalUnique([x], OrderedOf({x}), {x});
    if TokenLess(x, y) {
      assert Elements([x, y]) == {x, y};
      CanonicalUnique([x, y], OrderedOf({x, y}), {x, y});
    }
  }

  /** A slice with a marker has the key of the two tokens it spells. If those two stand in
      canonical order, two different anchor sets share a key. */
  lemma MarkerCollides(kind: TokenKind, a: Str, next: TokenKind, b: Str)
    ensures var joined, first, second := Token(kind, a + [NUL, KindByte(next), UNIT] + b), Token(kind, a), Token(next, b);
      && KeyOf([joined]) == KeyOf([first, second])
      && (TokenLess(first, second) ==> KeyOfSet({joined}) == KeyOfSet({first, second}) && {joined} != {first, second})
  {
    var joined, first, second := Token(kind, a + [NUL, KindByte(next), UNIT] + b), Token(kind, a), Token(next, b);
    assert |joined.slice| > |first.slice| && first in {first, second};
    hide KeyEntry, KeyOf, TokenLess, OrderedOf;
    JoinedEntry(kind, a, next, b);
    KeyOfFew(joined, second);
    KeyOfFew(first, second);
    OrderedFew(joined, second);
    OrderedFew(first, second);
  }

  /** Without the restriction, two different anchor sets can share a key. */
  lemma KeysCollide()
    ensures var one := {Token(Impure, "a1" + [NUL, KindByte(Impure), UNIT] + "b1")};
            var two := {Token(Impure, "a1"), Token(Impure, "b1")};
      one != two && KeyOfSet(one) == KeyOfSet(two)
  {
    assert Less("a1", "b1");
    MarkerCollides(Impure, "a1", Impure, "b1");
  }
}
