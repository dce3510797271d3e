/** Runes of a Go string: UTF-8 decoding with the replacement rune for invalid
    bytes, and the character classes the tokenizer asks for. */
module Unicode {
  import opened Bytes

  /** A decoded rune together with the bytes it was read from. */
  datatype Rune = Rune(code: nat, text: Str)

  const RUNE_ERROR: nat := 0xFFFD

  function At(s: Str, i: nat): int
    requires i < |s|
  {
    s[i] as int
  }

  predicate Continues(s: Str, i: nat) {
    i < |s| && 0x80 <= At(s, i) <= 0xBF
  }

  /** The length of the valid encoding at the start of s, or 0. */
  function ValidSize(s: Str): nat
    requires s != []
  {
    var b := At(s, 0);
    if b < 0x80 then 1
    else if 0xC2 <= b <= 0xDF then (if Continues(s, 1) then 2 else 0)
    else if 0xE0 <= b <= 0xEF then
      var lo := if b == 0xE0 then 0xA0 else 0x80;
      var hi := if b == 0xED then 0x9F else 0xBF;
      if |s| >= 3 && lo <= At(s, 1) <= hi && Continues(s, 2) then 3 else 0
    else if 0xF0 <= b <= 0xF4 then
      var lo := if b == 0xF0 then 0x90 else 0x80;
      var hi := if b == 0xF4 then 0x8F else 0xBF;
      if |s| >= 4 && lo <= At(s, 1) <= hi && Continues(s, 2) && Continues(s, 3) then 4 else 0
    else 0
  }

  function CodePoint(s: Str): nat
    requires s != [] && ValidSize(s) > 0
  {
    var b := At(s, 0);
    match ValidSize(s)
    case 1 => b
    case 2 => (b - 0xC0) * 64 + (At(s, 1) - 0x80)
    case 3 => (b - 0xE0) * 4096 + (At(s, 1) - 0x80) * 64 + (At(s, 2) - 0x80)
    case _ => (b - 0xF0) * 262144 + (At(s, 1) - 0x80) * 4096 + (At(s, 2) - 0x80) * 64 + (At(s, 3) - 0x80)
  }

  /** utf8.DecodeRuneInString */
  function DecodeRune(s: Str): (r: Rune)
    requires s != []
    ensures 1 <= |r.text| <= |s| && r.text == s[..|r.text|]
  {
    var n := ValidSize(s);
    if n == 0 then Rune(RUNE_ERROR, s[..1]) else Rune(CodePoint(s), s[..n])
  }

  /** Decoding looks only at the bytes of the rune it returns. */
  lemma DecodeIsLocal(s: Str, k: nat)
    requires s != [] && |DecodeRune(s).text| <= k <= |s|
    ensures DecodeRune(s[..k]) == DecodeRune(s)
  {
    var t := s[..k];
    assert forall i :: 0 <= i < k ==> t[i] == s[i];
    assert t[..|DecodeRune(s).text|] == s[..|DecodeRune(s).text|];
  }

  lemma AsciiRune(s: Str)
    requires s != [] && At(s, 0) < 0x80
    ensures DecodeRune(s) == Rune(At(s, 0), s[..1])
  {
  }

  /** for range over a string */
  function Runes(s: Str): (rs: seq<Rune>)
    decreases |s|
  {
    if s == [] then []
    else
      var r := DecodeRune(s);
      [r] + Runes(s[|r.text|..])
  }

  function Flat(rs: seq<Rune>): Str {
    if rs == [] then [] else rs[0].text + Flat(rs[1..])
  }

  lemma {:induction false} FlatRunes(s: Str)
    ensures Flat(Runes(s)) == s
    decreases |s|
  {
    if s != [] {
      var r := DecodeRune(s);
      FlatRunes(s[|r.text|..]);
      assert Runes(s)[1..] == Runes(s[|r.text|..]);
    }
  }

  lemma {:induction false} FlatAppend(a: seq<Rune>, b: seq<Rune>)
    ensures Flat(a + b) == Flat(a) + Flat(b)
  {
    if a == [] {
      assert a + b == b;
    } else {
      assert (a + b)[1..] == a[1..] + b;
      FlatAppend(a[1..], b);
    }
  }

  /** A string can be cut at any rune boundary. */
  lemma {:induction false} RunesCut(s: Str, k: nat)
    requires k <= |Runes(s)|
    ensures var n := |Flat(Runes(s)[..k])|;
      && n <= |s| && s[..n] == Flat(Runes(s)[..k])
      && Runes(s[..n]) == Runes(s)[..k]
      && Runes(s[n..]) == Runes(s)[k..]
    decreases |s|
  {
    hide DecodeRune;
    var rs := Runes(s);
    if k == 0 {
      assert s[0..] == s && rs[..0] == [] && rs[0..] == rs;
    } else {
      var r := DecodeRune(s);
      var m := |r.text|;
      var t := s[m..];
      RunesCut(t, k - 1);
      var front := Runes(t)[..k - 1];
      var n := m + |Flat(front)|;
      ConsSlices(r, Runes(t), k);
      assert rs == [r] + Runes(t);
      assert Flat(rs[..k]) == r.text + Flat(front);
      SliceCons(s, m, n);
      DecodeIsLocal(s, n);
      assert Runes(s[..n]) == [r] + Runes(t[..n - m]);
    }
  }

  lemma ConsSlices(r: Rune, rest: seq<Rune>, k: nat)
    requires 0 < k <= |rest| + 1
    ensures ([r] + rest)[..k] == [r] + rest[..k - 1] && ([r] + rest)[..k][1..] == rest[..k - 1]
    ensures ([r] + rest)[k..] == rest[k - 1..]
  {
  }

  lemma SliceCons(s: Str, m: nat, n: nat)
    requires m <= n <= |s|
    ensures s[..n] == s[..m] + s[m..][..n - m] && s[n..] == s[m..][n - m..] && s[..n][m..] == s[m..][..n - m]
  {
  }

  /** The middle of a string between two rune boundaries. */
  lemma RunesSlice(s: Str, j: nat, k: nat)
    requires j <= k <= |Runes(s)|
    ensures var a, b := |Flat(Runes(s)[..j])|, |Flat(Runes(s)[..k])|;
      a <= b <= |s| && s[a..b] == Flat(Runes(s)[j..k]) && Runes(s[a..b]) == Runes(s)[j..k]
      && (j < k ==> a < b)
  {
    var rs := Runes(s);
    var a, b := |Flat(rs[..j])|, |Flat(rs[..k])|;
    RunesCut(s, k);
    RunesCut(s[..b], j);
    assert rs[..k][..j] == rs[..j] && rs[..k][j..] == rs[j..k];
    assert s[..b][a..] == s[a..b];
    FlatRunes(s[a..b]);
  }

  lemma {:induction false} RunesNonEmpty(s: Str, k: nat)
    requires k < |Runes(s)|
    ensures Runes(s)[k].text != []
    decreases |s|
  {
    if k > 0 {
      RunesNonEmpty(s[|DecodeRune(s).text|..], k - 1);
    }
  }

  // ------------------------------------------------------ character classes

  predicate AsciiSpace(c: int) {
    c == 32 || 9 <= c <= 13
  }

  predicate AsciiLetter(c: int) {
    65 <= c <= 90 || 97 <= c <= 122
  }

  predicate AsciiDigit(c: int) {
    48 <= c <= 57
  }

  /** The three classes below 128: tab to carriage return and the space, letters and digits. */
  lemma AsciiClasses(c: Byte)
    ensures AsciiSpace(c as int) <==> c == '\t' || c == '\n' || c == '\U{0B}' || c == '\U{0C}' || c == '\r' || c == ' '
    ensures AsciiLetter(c as int) <==> 'a' <= c <= 'z' || 'A' <= c <= 'Z'
    ensures AsciiDigit(c as int) <==> '0' <= c <= '9'
  {
  }

  /** The Unicode tables beyond ASCII are parameters. */
  datatype Tables = Tables(space: int -> bool, letter: int -> bool, digit: int -> bool) {
    predicate IsSpace(c: int) {
      if c < 128 then AsciiSpace(c) else space(c)
    }

    predicate IsLetter(c: int) {
      if c < 128 then AsciiLetter(c) else letter(c)
    }

    predicate IsDigit(c: int) {
      if c < 128 then AsciiDigit(c) else digit(c)
    }
  }
}
