/** UTF-8: the decoder by its table, and what it accepts in terms of code points. */
module Utf8 {
  import opened Replace

  predicate Continues(b: Byte) {
    0x80 <= b <= 0xbf
  }

  /** How long the well-formed multi-byte sequence at the front of s is (table 3-7 of the Unicode standard), or 1 if
      there is none: the size that utf8.DecodeRune answers. */
  function RuneSize(s: seq<Byte>): (n: nat)
    requires s != [] && s[0] >= 0x80
    ensures 1 <= n <= 4 && n <= |s|
  {
    var b := s[0];
    if |s| >= 2 && 0xc2 <= b <= 0xdf && Continues(s[1]) then 2
    else if |s| >= 3 && ThreeBytes(b, s[1]) && Continues(s[2]) then 3
    else if |s| >= 4 && FourBytes(b, s[1]) && Continues(s[2]) && Continues(s[3]) then 4
    else 1
  }

  predicate ThreeBytes(b: Byte, c: Byte) {
    || (b == 0xe0 && 0xa0 <= c <= 0xbf)
    || (b == 0xed && 0x80 <= c <= 0x9f)
    || (0xe1 <= b <= 0xef && b != 0xed && Continues(c))
  }

  predicate FourBytes(b: Byte, c: Byte) {
    || (b == 0xf0 && 0x90 <= c <= 0xbf)
    || (b == 0xf4 && 0x80 <= c <= 0x8f)
    || (0xf1 <= b <= 0xf3 && Continues(c))
  }

  predicate ValidUtf8(s: seq<Byte>)
    decreases |s|
  {
    || s == []
    || (s[0] < 0x80 && ValidUtf8(s[1..]))
    || (s[0] >= 0x80 && RuneSize(s) > 1 && ValidUtf8(s[RuneSize(s)..]))
  }

  // ---------------------------------------------------------------- code points

  function Num(b: Byte): (n: int)
    ensures 0 <= n < 0x100
  {
    b as int
  }

  /** Every code point but the surrogates. */
  predicate IsScalar(c: int) {
    0 <= c < 0x11_0000 && !(0xd800 <= c < 0xe000)
  }

  /** Six bits of a code point, in a continuing byte. */
  predicate Carries(b: Byte, c: int) {
    Num(b) == 0x80 + c % 0x40
  }

  /** The shortest form of c, as numbers: six bits in each byte after the first, and what is left in the first. */
  function Form(c: int): seq<int> {
    var (c1, c2, c3) := (c / 0x40, c / 0x40 / 0x40, c / 0x40 / 0x40 / 0x40);
    if c < 0x80 then [c]
    else if c < 0x800 then [0xc0 + c1, 0x80 + c % 0x40]
    else if c < 0x1_0000 then [0xe0 + c2, 0x80 + c1 % 0x40, 0x80 + c % 0x40]
    else [0xf0 + c3, 0x80 + c2 % 0x40, 0x80 + c1 % 0x40, 0x80 + c % 0x40]
  }

  predicate IsForm(r: seq<Byte>, c: int) {
    |r| == |Form(c)| && forall i :: 0 <= i < |r| ==> Num(r[i]) == Form(c)[i]
  }

  /** A continuing byte adds six bits. */
  function More(c: int, b: Byte): int {
    c * 0x40 + (Num(b) - 0x80)
  }

  /** The code point that a sequence of this length stands for. */
  function Point(r: seq<Byte>): int {
    if |r| == 1 then Num(r[0])
    else if |r| == 2 then More(Num(r[0]) - 0xc0, r[1])
    else if |r| == 3 then More(More(Num(r[0]) - 0xe0, r[1]), r[2])
    else if |r| == 4 then More(More(More(Num(r[0]) - 0xf0, r[1]), r[2]), r[3])
    else -1
  }

  /** One character in a well-formed sequence of bytes. */
  predicate IsRune(r: seq<Byte>) {
    r != [] && if r[0] < 0x80 then |r| == 1 else |r| == RuneSize(r) > 1
  }

  lemma {:induction false} ByteOrder(b: Byte, k: Byte)
    ensures b <= k <==> Num(b) <= Num(k)
  {
  }

  lemma {:induction false} Continuing(b: Byte)
    ensures Continues(b) <==> 0x80 <= Num(b) <= 0xbf
    ensures b < 0x80 <==> Num(b) < 0x80
  {
    ByteOrder(b, 0xbf);
    ByteOrder(0x80, b);
  }

  lemma {:induction false} MoreCarries(x: int, b: Byte)
    requires Continues(b)
    ensures More(x, b) / 0x40 == x && Carries(b, More(x, b))
  {
    Continuing(b);
  }

  lemma {:induction false} CarriesMore(b: Byte, c: int)
    requires Carries(b, c)
    ensures Continues(b) && More(c / 0x40, b) == c
  {
    Continuing(b);
  }

  /** The leading bytes as numbers. */
  lemma {:induction false} Leading(a: Byte, b: Byte)
    ensures 0xc2 <= a <= 0xdf <==> 0xc2 <= Num(a) <= 0xdf
    ensures ThreeBytes(a, b) <==> InThree(Num(a), Num(b))
    ensures FourBytes(a, b) <==> InFour(Num(a), Num(b))
  {
    ByteOrder(0xc2, a);
    ByteOrder(a, 0xdf);
  }

  lemma {:induction false} PointOfThree(r: seq<Byte>, c: int)
    requires 0x800 <= c < 0x1_0000 && IsForm(r, c)
    ensures Point(r) == c
  {
    assert |r| == 3 && Num(r[0]) - 0xe0 == c / 0x40 / 0x40 && Carries(r[1], c / 0x40) && Carries(r[2], c);
    hide IsForm, Carries, More, Num;
    CarriesMore(r[1], c / 0x40);
    CarriesMore(r[2], c);
  }

  lemma {:induction false} PointOfFour(r: seq<Byte>, c: int)
    requires 0x1_0000 <= c && IsForm(r, c)
    ensures Point(r) == c
  {
    assert |r| == 4 && Num(r[0]) - 0xf0 == c / 0x40 / 0x40 / 0x40;
    assert Carries(r[1], c / 0x40 / 0x40) && Carries(r[2], c / 0x40) && Carries(r[3], c);
    hide IsForm, Carries, More, Num;
    CarriesMore(r[1], c / 0x40 / 0x40);
    CarriesMore(r[2], c / 0x40);
    CarriesMore(r[3], c);
  }

  lemma {:induction false} PointOfForm(r: seq<Byte>, c: int)
    requires IsForm(r, c)
    ensures Point(r) == c
  {
    if c >= 0x1_0000 {
      PointOfFour(r, c);
    } else if c >= 0x800 {
      PointOfThree(r, c);
    } else if c >= 0x80 {
      CarriesMore(r[1], c);
    }
  }

  // The ranges of the first two bytes, by what they leave out: forms that are too long, surrogates, and what is above
  // 10ffff.

  predicate InThree(x: int, y: int) {
    0xe0 <= x <= 0xef && 0x80 <= y <= 0xbf && (x == 0xe0 ==> y >= 0xa0) && (x == 0xed ==> y <= 0x9f)
  }

  predicate InFour(x: int, y: int) {
    0xf0 <= x <= 0xf4 && 0x80 <= y <= 0xbf && (x == 0xf0 ==> y >= 0x90) && (x == 0xf4 ==> y <= 0x8f)
  }

  lemma {:induction false} TopOfThree(t: int)
    requires 0 <= t < 0x400
    ensures InThree(0xe0 + t / 0x40, 0x80 + t % 0x40) <==> t >= 0x20 && !(0x360 <= t < 0x380)
  {
  }

  lemma {:induction false} TopOfFour(t: int)
    requires 0 <= t
    ensures InFour(0xf0 + t / 0x40, 0x80 + t % 0x40) <==> 0x10 <= t < 0x110
  {
  }

  lemma {:induction false} TwoIsRune(r: seq<Byte>, c: int)
    requires 0x80 <= c < 0x800 && IsForm(r, c)
    ensures IsRune(r)
  {
    Continuing(r[0]);
    Leading(r[0], r[1]);
    CarriesMore(r[1], c);
  }

  lemma {:induction false} ThreeAccepted(r: seq<Byte>)
    requires |r| == 3 && InThree(Num(r[0]), Num(r[1])) && Continues(r[2])
    ensures IsRune(r)
  {
    Continuing(r[0]);
    Leading(r[0], r[1]);
  }

  lemma {:induction false} FourAccepted(r: seq<Byte>)
    requires |r| == 4 && InFour(Num(r[0]), Num(r[1])) && Continues(r[2]) && Continues(r[3])
    ensures IsRune(r)
  {
    Continuing(r[0]);
    Leading(r[0], r[1]);
  }

  lemma {:induction false} ThreeIsRune(r: seq<Byte>, c: int)
    requires 0x800 <= c < 0x1_0000 && IsScalar(c) && IsForm(r, c)
    ensures IsRune(r)
  {
    hide InThree, IsRune, More, Continues;
    CarriesMore(r[2], c);
    TopOfThree(c / 0x40);
    ThreeAccepted(r);
  }

  lemma {:induction false} FourIsRune(r: seq<Byte>, c: int)
    requires 0x1_0000 <= c < 0x11_0000 && IsForm(r, c)
    ensures IsRune(r)
  {
    hide InFour, IsRune, More, Continues;
    CarriesMore(r[3], c);
    CarriesMore(r[2], c / 0x40);
    TopOfFour(c / 0x40 / 0x40);
    FourAccepted(r);
  }

  /** The decoder accepts the shortest forms of the scalar values, */
  lemma {:induction false} FormIsRune(r: seq<Byte>, c: int)
    requires IsScalar(c) && IsForm(r, c)
    ensures IsRune(r)
  {
    if c < 0x80 {
      Continuing(r[0]);
    } else if c < 0x800 {
      TwoIsRune(r, c);
    } else if c < 0x1_0000 {
      ThreeIsRune(r, c);
    } else {
      FourIsRune(r, c);
    }
  }

  lemma {:induction false} RuneOfTwo(r: seq<Byte>)
    requires |r| == 2 && IsRune(r)
    ensures IsScalar(Point(r)) && IsForm(r, Point(r))
  {
    Continuing(r[0]);
    Leading(r[0], r[1]);
    MoreCarries(Num(r[0]) - 0xc0, r[1]);
  }

  lemma {:induction false} ThreeFacts(r: seq<Byte>)
    requires |r| == 3 && IsRune(r)
    ensures InThree(Num(r[0]), Num(r[1])) && Continues(r[1]) && Continues(r[2])
  {
    Leading(r[0], r[1]);
    Continuing(r[1]);
    hide InThree, InFour;
  }

  lemma {:induction false} FourFacts(r: seq<Byte>)
    requires |r| == 4 && IsRune(r)
    ensures InFour(Num(r[0]), Num(r[1])) && Continues(r[1]) && Continues(r[2]) && Continues(r[3])
  {
    Leading(r[0], r[1]);
    Continuing(r[1]);
    hide InThree, InFour;
  }

  lemma {:induction false} RuneOfThree(r: seq<Byte>)
    requires |r| == 3 && IsRune(r)
    ensures IsScalar(Point(r)) && IsForm(r, Point(r))
  {
    hide IsRune, Continues, More, Num;
    ThreeFacts(r);
    var top := More(Num(r[0]) - 0xe0, r[1]);
    Tops(Num(r[0]) - 0xe0, r[1]);
    Tops(top, r[2]);
    TopOfThree(top);
  }

  lemma {:induction false} RuneOfFour(r: seq<Byte>)
    requires |r| == 4 && IsRune(r)
    ensures IsScalar(Point(r)) && IsForm(r, Point(r))
  {
    hide IsRune, Continues, More, Num;
    FourFacts(r);
    var top := More(Num(r[0]) - 0xf0, r[1]);
    Tops(Num(r[0]) - 0xf0, r[1]);
    Tops(top, r[2]);
    Tops(More(top, r[2]), r[3]);
    TopOfFour(top);
  }

  lemma {:induction false} Tops(x: int, b: Byte)
    requires Continues(b)
    ensures More(x, b) / 0x40 == x && Num(b) == 0x80 + More(x, b) % 0x40
  {
    MoreCarries(x, b);
  }

  /** and nothing else. */
  lemma {:induction false} RuneIsForm(r: seq<Byte>)
    requires IsRune(r)
    ensures IsScalar(Point(r)) && IsForm(r, Point(r))
  {
    hide IsForm, IsScalar, Point;
    if |r| == 1 {
      RuneOfOne(r);
    } else if |r| == 2 {
      RuneOfTwo(r);
    } else if |r| == 3 {
      RuneOfThree(r);
    } else {
      RuneOfFour(r);
    }
  }

  lemma {:induction false} RuneOfOne(r: seq<Byte>)
    requires |r| == 1 && IsRune(r)
    ensures IsScalar(Point(r)) && IsForm(r, Point(r))
  {
    Continuing(r[0]);
  }

  // ---------------------------------------------------------------- texts

  function Decode(s: seq<Byte>): seq<int>
    requires ValidUtf8(s)
    decreases |s|
  {
    if s == [] then []
    else
      var n := if s[0] < 0x80 then 1 else RuneSize(s);
      [Point(s[..n])] + Decode(s[n..])
  }

  /** The bytes are the shortest forms of these code points, one after another. */
  ghost predicate Encodes(s: seq<Byte>, cs: seq<int>)
    decreases |cs|
  {
    if cs == [] then s == []
    else exists n :: 0 <= n <= |s| && IsForm(s[..n], cs[0]) && Encodes(s[n..], cs[1..])
  }

  /** A character in front. */
  lemma {:induction false} RuneThen(r: seq<Byte>, t: seq<Byte>)
    requires IsRune(r)
    ensures ValidUtf8(r + t) <==> ValidUtf8(t)
    ensures ValidUtf8(t) ==> Decode(r + t) == [Point(r)] + Decode(t)
  {
    hide Point;
    var s := r + t;
    assert s[..|r|] == r && s[|r|..] == t;
    RuneSizeThen(r, t);
    hide RuneSize;
  }

  lemma {:induction false} RuneSizeThen(r: seq<Byte>, t: seq<Byte>)
    requires IsRune(r)
    ensures (r + t)[0] == r[0] && (r[0] >= 0x80 ==> RuneSize(r + t) == |r|)
  {
    hide ThreeBytes, FourBytes, Continues;
  }

  lemma {:induction false} FrontIsRune(s: seq<Byte>)
    requires s != [] && ValidUtf8(s)
    ensures var n := if s[0] < 0x80 then 1 else RuneSize(s); IsRune(s[..n]) && ValidUtf8(s[n..]) && s == s[..n] + s[n..]
  {
    hide ThreeBytes, FourBytes, Continues;
  }

  /** Valid text is the encoding of a sequence of scalar values, the one that Decode answers, and of no other. */
  lemma {:induction false} ValidIsEncoded(s: seq<Byte>)
    requires ValidUtf8(s)
    ensures Encodes(s, Decode(s)) && forall i :: 0 <= i < |Decode(s)| ==> IsScalar(Decode(s)[i])
    decreases |s|
  {
    if s != [] {
      var n := if s[0] < 0x80 then 1 else RuneSize(s);
      FrontIsRune(s);
      RuneIsForm(s[..n]);
      hide RuneSize, IsForm, IsScalar, Point;
      ValidIsEncoded(s[n..]);
      assert Decode(s) == [Point(s[..n])] + Decode(s[n..]);
      assert Decode(s)[1..] == Decode(s[n..]);
    }
  }

  lemma {:induction false} EncodedIsValid(s: seq<Byte>, cs: seq<int>)
    requires Encodes(s, cs) && forall i :: 0 <= i < |cs| ==> IsScalar(cs[i])
    ensures ValidUtf8(s) && Decode(s) == cs
    decreases |cs|
  {
    if cs != [] {
      hide IsForm, IsRune, Point, ValidUtf8, Decode, Encodes, IsScalar;
      var n := FirstForm(s, cs);
      EncodedIsValid(s[n..], cs[1..]);
      FormIsRune(s[..n], cs[0]);
      PointOfForm(s[..n], cs[0]);
      RuneThen(s[..n], s[n..]);
      assert s == s[..n] + s[n..] && cs == [cs[0]] + cs[1..];
    } else {
      NoneEncoded(s);
    }
  }

  lemma {:induction false} FirstForm(s: seq<Byte>, cs: seq<int>) returns (n: nat)
    requires cs != [] && Encodes(s, cs)
    ensures n <= |s| && IsForm(s[..n], cs[0]) && Encodes(s[n..], cs[1..])
  {
    hide IsForm;
    n :| 0 <= n <= |s| && IsForm(s[..n], cs[0]) && Encodes(s[n..], cs[1..]);
  }

  lemma {:induction false} NoneEncoded(s: seq<Byte>)
    requires Encodes(s, [])
    ensures ValidUtf8(s) && Decode(s) == []
  {
  }
}
