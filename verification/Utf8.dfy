/** Decoding inverts UTF-8 encoding: section 3 of RFC 3629. */
module Utf8 {
  import opened Bytes
  import opened Unicode

  /** A Unicode scalar value: a code point that is no surrogate. */
  predicate Scalar(c: nat) {
    c < 0xD800 || 0xE000 <= c < 0x11_0000
  }

  function Continuation(bits: nat): Byte
    requires bits < 64
  {
    (0x80 + bits) as char
  }

  function Encode(c: nat): (s: Str)
    requires Scalar(c)
    ensures 1 <= |s| <= 4
  {
    if c < 0x80 then [c as char]
    else if c < 0x800 then [(0xC0 + c / 0x40) as char, Continuation(c % 0x40)]
    else if c < 0x1_0000 then
      [(0xE0 + c / 0x1000) as char, Continuation(c / 0x40 % 0x40), Continuation(c % 0x40)]
    else
      [(0xF0 + c / 0x4_0000) as char, Continuation(c / 0x1000 % 0x40), Continuation(c / 0x40 % 0x40),
       Continuation(c % 0x40)]
  }

  /** Six bits at a time. */
  lemma Digits(hi: nat, y: nat, z: nat)
    requires y < 0x40 && z < 0x40
    ensures var c := hi * 0x1000 + y * 0x40 + z;
      c / 0x40 == hi * 0x40 + y && c / 0x1000 == hi && c / 0x40 % 0x40 == y && c % 0x40 == z
  {
    var c := hi * 0x1000 + y * 0x40 + z;
    assert c == (hi * 0x40 + y) * 0x40 + z;
  }

  lemma Recompose(c: nat)
    ensures c == c / 0x1000 * 0x1000 + c / 0x40 % 0x40 * 0x40 + c % 0x40
    ensures c == c / 0x40 * 0x40 + c % 0x40
    ensures c / 0x4_0000 == c / 0x1000 / 0x40
  {
  }

  lemma TwoBytes(c: nat, s: Str)
    requires 0x80 <= c < 0x800 && HasPrefix(s, Encode(c))
    ensures ValidSize(s) == 2 && CodePoint(s) == c
  {
    assert s[..2][0] == s[0] && s[..2][1] == s[1];
  }

  lemma ThreeBytes(c: nat, s: Str)
    requires 0x800 <= c < 0x1_0000 && Scalar(c) && HasPrefix(s, Encode(c))
    ensures ValidSize(s) == 3 && CodePoint(s) == c
  {
    Recompose(c);
    assert s[..3][0] == s[0] && s[..3][1] == s[1] && s[..3][2] == s[2];
  }

  lemma FourBytes(c: nat, s: Str)
    requires 0x1_0000 <= c < 0x11_0000 && HasPrefix(s, Encode(c))
    ensures ValidSize(s) == 4 && CodePoint(s) == c
  {
    var h, x, y, z := c / 0x4_0000, c / 0x1000 % 0x40, c / 0x40 % 0x40, c % 0x40;
    Recompose(c);
    assert c == h * 0x4_0000 + x * 0x1000 + y * 0x40 + z && h <= 4;
    assert (h == 0 ==> x >= 0x10) && (h == 4 ==> x < 0x10);
    assert Encode(c) == [(0xF0 + h) as char, Continuation(x), Continuation(y), Continuation(z)];
    hide Encode;
    assert s[..4][0] == s[0] && s[..4][1] == s[1] && s[..4][2] == s[2] && s[..4][3] == s[3];
  }

  /** A string that starts with the encoding of a scalar value decodes to that value. */
  lemma DecodesEncoding(c: nat, s: Str)
    requires Scalar(c) && HasPrefix(s, Encode(c))
    ensures DecodeRune(s) == Rune(c, Encode(c))
  {
    if c < 0x80 {
      assert s[..1][0] == s[0];
    } else if c < 0x800 {
      TwoBytes(c, s);
    } else if c < 0x1_0000 {
      ThreeBytes(c, s);
    } else {
      FourBytes(c, s);
    }
  }

  lemma ValidThree(s: Str)
    requires s != [] && ValidSize(s) == 3
    ensures Scalar(CodePoint(s)) && s[..3] == Encode(CodePoint(s))
  {
    Digits(At(s, 0) - 0xE0, At(s, 1) - 0x80, At(s, 2) - 0x80);
    assert s[..3] == [s[0], s[1], s[2]];
  }

  lemma ValidFour(s: Str)
    requires s != [] && ValidSize(s) == 4
    ensures Scalar(CodePoint(s)) && s[..4] == Encode(CodePoint(s))
  {
    var h, x, y, z := At(s, 0) - 0xF0, At(s, 1) - 0x80, At(s, 2) - 0x80, At(s, 3) - 0x80;
    var c := CodePoint(s);
    assert c == (h * 0x40 + x) * 0x1000 + y * 0x40 + z;
    Digits(h * 0x40 + x, y, z);
    Recompose(c);
    assert 0x1_0000 <= c < 0x11_0000;
    assert c / 0x4_0000 == h && c / 0x1000 % 0x40 == x;
    assert s[..4] == [s[0], s[1], s[2], s[3]];
    hide ValidSize, CodePoint;
  }

  /** What decodes without error is the encoding of its code. */
  lemma ValidIsEncoding(s: Str)
    requires s != [] && ValidSize(s) > 0
    ensures Scalar(CodePoint(s)) && HasPrefix(s, Encode(CodePoint(s)))
  {
    match ValidSize(s)
    case 1 => assert s[..1] == [s[0]] == Encode(CodePoint(s));
    case 2 => assert s[..2] == [s[0], s[1]] == Encode(CodePoint(s));
    case 3 => ValidThree(s);
    case _ => ValidFour(s);
  }

  /** Decoding is determined by the encodings: at a string that starts with none of them it gives
      the replacement rune for one byte. */
  lemma DecodeRuneIs(s: Str)
    requires s != []
    ensures forall c: nat :: Scalar(c) && HasPrefix(s, Encode(c)) ==> DecodeRune(s) == Rune(c, Encode(c))
    ensures (forall c: nat :: Scalar(c) ==> !HasPrefix(s, Encode(c))) ==> DecodeRune(s) == Rune(0xFFFD, s[..1])
  {
    forall c: nat | Scalar(c) && HasPrefix(s, Encode(c)) ensures DecodeRune(s) == Rune(c, Encode(c)) {
      DecodesEncoding(c, s);
    }
    if ValidSize(s) > 0 {
      ValidIsEncoding(s);
    }
  }

  /** The encoding of a text. */
  function EncodeAll(cs: seq<nat>): Str
    requires forall i :: 0 <= i < |cs| ==> Scalar(cs[i])
  {
    if cs == [] then [] else Encode(cs[0]) + EncodeAll(cs[1..])
  }

  /** Ranging over an encoded text gives its scalar values, one after the other. */
  lemma {:induction false} RunesOfText(cs: seq<nat>)
    requires forall i :: 0 <= i < |cs| ==> Scalar(cs[i])
    ensures |Runes(EncodeAll(cs))| == |cs|
    ensures forall i :: 0 <= i < |cs| ==> Runes(EncodeAll(cs))[i] == Rune(cs[i], Encode(cs[i]))
  {
    if cs != [] {
      var s, first := EncodeAll(cs), Encode(cs[0]);
      hide Encode;
      assert s == first + EncodeAll(cs[1..]);
      assert s[..|first|] == first && s[|first|..] == EncodeAll(cs[1..]);
      DecodesEncoding(cs[0], s);
      RunesOfText(cs[1..]);
    }
  }
}
