/** The precomputed symbol table of tokenizer.go: a byte-class array for ASCII, a
    set for the rest, and the nibble encoding read by the vector kernel. */
module SymbolTable {
  import opened Unicode
  import opened Sorting

  datatype Class = Other | Space | Symbol

  datatype Table = Table(classes: seq<Class>, symLo: seq<bv8>, nonASCII: set<nat>)

  /** 1 << k for k < 8 */
  function Bit(k: nat): bv8
    requires k < 8
  {
    if k == 0 then 1 else if k == 1 then 2 else if k == 2 then 4 else if k == 3 then 8
    else if k == 4 then 16 else if k == 5 then 32 else if k == 6 then 64 else 128
  }

  lemma BitsDisjoint(x: bv8, j: nat, k: nat)
    requires j < 8 && k < 8
    ensures (x | Bit(j)) & Bit(k) != 0 <==> j == k || x & Bit(k) != 0
  {
    assert Bit(j) & Bit(k) != 0 <==> j == k;
    OrAnd(x, Bit(j), Bit(k));
  }

  lemma OrAnd(x: bv8, b: bv8, c: bv8)
    ensures (x | b) & c == (x & c) | (b & c)
    ensures (x | b) & c != 0 <==> x & c != 0 || b & c != 0
  {
  }

  function ClassOf(symbols: set<nat>, c: nat): Class {
    if AsciiSpace(c) then Space else if c in symbols then Symbol else Other
  }

  /** Bit c/16 of symLo[c%16] says whether the ASCII byte c is a symbol. */
  predicate NibbleHas(symLo: seq<bv8>, c: nat)
    requires |symLo| == 16 && c < 128
  {
    symLo[c % 16] & Bit(c / 16) != 0
  }

  /** The table answers exactly for this symbol set. */
  ghost predicate Represents(t: Table, symbols: set<nat>) {
    && |t.classes| == 128 && |t.symLo| == 16
    && (forall c :: 0 <= c < 128 ==> t.classes[c] == ClassOf(symbols, c))
    && (forall c: nat :: c < 128 ==> (NibbleHas(t.symLo, c) <==> c in symbols))
    && (forall r :: r in t.nonASCII <==> r >= 128 && r in symbols)
  }

  predicate IsSymbolRune(t: Table, r: nat)
    requires |t.classes| == 128
  {
    if r < 128 then t.classes[r] == Symbol else r in t.nonASCII
  }

  /** Membership queries agree with the symbol set, except that ASCII white space
      is never a symbol. */
  lemma SymbolRuneIs(t: Table, symbols: set<nat>, r: nat)
    requires Represents(t, symbols)
    ensures IsSymbolRune(t, r) <==> r in symbols && !(r < 128 && AsciiSpace(r))
  {
  }

  lemma NibblesIdentify(r: nat, c: nat)
    requires r % 16 == c % 16
    ensures r / 16 == c / 16 <==> r == c
  {
  }

  /** Setting the bit of one symbol changes the answer for that symbol only. */
  lemma NibbleSet(symLo: seq<bv8>, r: nat, c: nat)
    requires |symLo| == 16 && r < 128 && c < 128
    ensures var lo := r % 16;
      NibbleHas(symLo[lo := symLo[lo] | Bit(r / 16)], c) <==> c == r || NibbleHas(symLo, c)
  {
    hide Bit;
    var lo := r % 16;
    if c % 16 == lo {
      NibblesIdentify(r, c);
      BitsDisjoint(symLo[lo], r / 16, c / 16);
    }
  }

  method NewSymbolTable(symbols: set<nat>) returns (t: Table)
    ensures Represents(t, symbols)
  {
    var classes: seq<Class> := [];
    for b := 0 to 128
      invariant |classes| == b && forall c :: 0 <= c < b ==> classes[c] == ClassOf({}, c)
    {
      classes := classes + [if AsciiSpace(b) then Space else Other];
    }
    var symLo: seq<bv8> := seq(16, _ => 0);
    var nonASCII: set<nat> := {};
    assert forall c: nat :: c < 128 ==> !NibbleHas(symLo, c);
    var members := Enumerate(symbols);
    for k := 0 to |members|
      invariant Represents(Table(classes, symLo, nonASCII), Elements(members[..k]))
    {
      var r := members[k];
      ghost var before := Elements(members[..k]);
      assert members[..k + 1] == members[..k] + [r];
      assert Elements(members[..k + 1]) == before + {r};
      if r < 128 {
        if classes[r] == Other {
          classes := classes[r := Symbol];
        }
        var lo := r % 16;
        forall c: nat | c < 128 ensures NibbleHas(symLo[lo := symLo[lo] | Bit(r / 16)], c) <==> c in before + {r} {
          NibbleSet(symLo, r, c);
        }
        symLo := symLo[lo := symLo[lo] | Bit(r / 16)];
        continue;
      }
      nonASCII := nonASCII + {r};
    }
    assert members[..|members|] == members;
    t := Table(classes, symLo, nonASCII);
  }
}
