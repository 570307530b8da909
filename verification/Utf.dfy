/**
 * UTF-8 as section 3 and section 4 of RFC 3629 define it, UTF-16 as sections 2.1 and 2.2 of
 * RFC 2781 define it, and what ties them together.
 */
module Utf {

  type byte = x: int | 0 <= x < 0x100
  type unit = x: int | 0 <= x < 0x1_0000

  /** A character number that may be encoded: not a surrogate, not above U+10FFFF. */
  predicate Scalar(cp: int) {
    0 <= cp < 0xD800 || 0xE000 <= cp <= 0x10_FFFF
  }

  ghost predicate Scalars(cps: seq<int>) {
    forall i | 0 <= i < |cps| :: Scalar(cps[i])
  }

  // ---- UTF-8 ----

  /** The table of section 3 of RFC 3629. */
  function Encode(cp: int): (c: seq<byte>)
    requires Scalar(cp)
    ensures 1 <= |c| <= 4
  {
    if cp < 0x80 then [cp]
    else if cp < 0x800 then [0xC0 + cp / 0x40, 0x80 + cp % 0x40]
    else if cp < 0x1_0000 then [0xE0 + cp / 0x1000, 0x80 + cp / 0x40 % 0x40, 0x80 + cp % 0x40]
    else [0xF0 + cp / 0x4_0000, 0x80 + cp / 0x1000 % 0x40, 0x80 + cp / 0x40 % 0x40, 0x80 + cp % 0x40]
  }

  predicate Tail(b: byte) {
    0x80 <= b <= 0xBF
  }

  /** UTF8-char of the grammar in section 4 of RFC 3629. */
  predicate Utf8Char(c: seq<byte>) {
    match |c|
    case 1 => c[0] <= 0x7F
    case 2 => 0xC2 <= c[0] <= 0xDF && Tail(c[1])
    case 3 =>
      || (c[0] == 0xE0 && 0xA0 <= c[1] <= 0xBF && Tail(c[2]))
      || (0xE1 <= c[0] <= 0xEC && Tail(c[1]) && Tail(c[2]))
      || (c[0] == 0xED && 0x80 <= c[1] <= 0x9F && Tail(c[2]))
      || (0xEE <= c[0] <= 0xEF && Tail(c[1]) && Tail(c[2]))
    case 4 =>
      || (c[0] == 0xF0 && 0x90 <= c[1] <= 0xBF && Tail(c[2]) && Tail(c[3]))
      || (0xF1 <= c[0] <= 0xF3 && Tail(c[1]) && Tail(c[2]) && Tail(c[3]))
      || (c[0] == 0xF4 && 0x80 <= c[1] <= 0x8F && Tail(c[2]) && Tail(c[3]))
    case _ => false
  }

  function Join(cs: seq<seq<byte>>): seq<byte> {
    if cs == [] then [] else cs[0] + Join(cs[1..])
  }

  /** UTF8-octets of the grammar: any number of UTF8-char. */
  ghost predicate Utf8Octets(s: seq<byte>) {
    exists cs: seq<seq<byte>> :: (forall i | 0 <= i < |cs| :: Utf8Char(cs[i])) && Join(cs) == s
  }

  /** The payload bits of one UTF8-char. */
  function Value(c: seq<byte>): int
    requires Utf8Char(c)
  {
    var lead: int := c[0];
    match |c|
    case 1 => lead
    case 2 => lead % 0x20 * 0x40 + Six(c[1])
    case 3 => (lead % 0x10 * 0x40 + Six(c[1])) * 0x40 + Six(c[2])
    case _ => ((lead % 8 * 0x40 + Six(c[1])) * 0x40 + Six(c[2])) * 0x40 + Six(c[3])
  }

  /** The six low bits of a continuation byte. */
  function Six(b: byte): int {
    b as int % 0x40
  }

  lemma Six80(x: int)
    requires 0 <= x < 0x40
    ensures Six(0x80 + x) == x && Tail(0x80 + x)
  {
  }

  /** The base-64 digits of a character number. */
  lemma Digits(cp: int)
    requires 0 <= cp <= 0x10_FFFF
    ensures cp == cp / 0x40 * 0x40 + cp % 0x40
    ensures cp / 0x40 == cp / 0x1000 * 0x40 + cp / 0x40 % 0x40
    ensures cp / 0x1000 == cp / 0x4_0000 * 0x40 + cp / 0x1000 % 0x40
  {
  }

  lemma EncodeTwo(cp: int)
    requires 0x80 <= cp < 0x800
    ensures Utf8Char(Encode(cp)) && Value(Encode(cp)) == cp
  {
    hide Six, Tail;
    Digits(cp);
    Six80(cp % 0x40);
    LeadBits(cp / 0x40, 0xC0, 0x20);
  }

  lemma EncodeThree(cp: int)
    requires 0x800 <= cp < 0x1_0000 && Scalar(cp)
    ensures Utf8Char(Encode(cp)) && Value(Encode(cp)) == cp
  {
    hide Six, Tail;
    Digits(cp);
    Six80(cp / 0x40 % 0x40);
    Six80(cp % 0x40);
    LeadBits(cp / 0x1000, 0xE0, 0x10);
  }

  lemma EncodeFour(cp: int)
    requires 0x1_0000 <= cp <= 0x10_FFFF
    ensures Utf8Char(Encode(cp)) && Value(Encode(cp)) == cp
  {
    hide Six, Tail;
    Digits(cp);
    Six80(cp / 0x1000 % 0x40);
    Six80(cp / 0x40 % 0x40);
    Six80(cp % 0x40);
    LeadBits(cp / 0x4_0000, 0xF0, 8);
  }

  /** The payload of a first byte. */
  lemma LeadBits(a: int, mark: int, n: int)
    requires (mark == 0xC0 && n == 0x20) || (mark == 0xE0 && n == 0x10) || (mark == 0xF0 && n == 8)
    requires 0 <= a < n
    ensures (mark + a) % n == a
  {
  }

  /** Every encoded character is a UTF8-char with that payload. */
  lemma EncodeIsChar(cp: int)
    requires Scalar(cp)
    ensures Utf8Char(Encode(cp)) && Value(Encode(cp)) == cp
  {
    if 0x80 <= cp < 0x800 {
      EncodeTwo(cp);
    } else if 0x800 <= cp < 0x1_0000 {
      EncodeThree(cp);
    } else if 0x1_0000 <= cp {
      EncodeFour(cp);
    }
  }

  lemma SixTail(b: byte)
    requires Tail(b)
    ensures 0 <= Six(b) < 0x40 && b == 0x80 + Six(b)
  {
  }

  lemma TwoBytes(c: seq<byte>)
    requires Utf8Char(c) && |c| == 2
    ensures Scalar(Value(c)) && Encode(Value(c)) == c
  {
  }

  lemma ThreeBytes(c: seq<byte>)
    requires Utf8Char(c) && |c| == 3
    ensures Scalar(Value(c)) && Encode(Value(c)) == c
  {
    hide Six;
    SixTail(c[1]);
    SixTail(c[2]);
    var lead: int := c[0];
    assert lead % 0x10 == lead - 0xE0;
    Compose(0, lead - 0xE0, Six(c[1]), Six(c[2]));
    var v := Value(c);
    assert v == (lead - 0xE0) * 0x1000 + Six(c[1]) * 0x40 + Six(c[2]);
    assert v / 0x1000 == lead - 0xE0;
    assert Scalar(v) && 0x800 <= v < 0x1_0000;
  }

  lemma FourBytes(c: seq<byte>)
    requires Utf8Char(c) && |c| == 4
    ensures Scalar(Value(c)) && Encode(Value(c)) == c
  {
    hide Six;
    SixTail(c[1]);
    SixTail(c[2]);
    SixTail(c[3]);
    var lead: int := c[0];
    assert lead % 8 == lead - 0xF0;
    Compose(lead - 0xF0, Six(c[1]), Six(c[2]), Six(c[3]));
    var v := Value(c);
    assert v == (lead - 0xF0) * 0x4_0000 + Six(c[1]) * 0x1000 + Six(c[2]) * 0x40 + Six(c[3]);
    assert 0x1_0000 <= v <= 0x10_FFFF;
  }

  /** Every UTF8-char encodes its payload: the grammar leaves no overlong form and no surrogate. */
  lemma CharIsEncoded(c: seq<byte>)
    requires Utf8Char(c)
    ensures Scalar(Value(c)) && Encode(Value(c)) == c
  {
    if |c| == 2 {
      TwoBytes(c);
    } else if |c| == 3 {
      ThreeBytes(c);
    } else if |c| == 4 {
      FourBytes(c);
    }
  }

  lemma Compose(x: int, y: int, z: int, w: int)
    requires 0 <= x < 8 && 0 <= y < 0x40 && 0 <= z < 0x40 && 0 <= w < 0x40
    ensures var v := ((x * 0x40 + y) * 0x40 + z) * 0x40 + w;
            v / 0x4_0000 == x && v / 0x1000 == x * 0x40 + y && v / 0x1000 % 0x40 == y && v / 0x40 % 0x40 == z
                && v % 0x40 == w
  {
  }

  /** No UTF8-char is a proper prefix of another. */
  lemma CharsPrefixFree(s: seq<byte>, m: nat, n: nat)
    requires m <= |s| && n <= |s| && Utf8Char(s[..m]) && Utf8Char(s[..n])
    ensures m == n
  {
  }

  // ---- UTF-16 ----

  /** Section 2.1 of RFC 2781. */
  function Utf16(cp: int): (u: seq<unit>)
    requires Scalar(cp)
    ensures |u| == if cp < 0x1_0000 then 1 else 2
  {
    if cp < 0x1_0000 then [cp]
    else [0xD800 + (cp - 0x1_0000) / 0x400, 0xDC00 + (cp - 0x1_0000) % 0x400]
  }

  /** Section 2.2 of RFC 2781; an unpaired surrogate ends the text. */
  function Utf16Decode(u: seq<unit>): seq<int> {
    if u == [] then []
    else if u[0] < 0xD800 || u[0] > 0xDFFF then [u[0]] + Utf16Decode(u[1..])
    else if u[0] <= 0xDBFF && |u| > 1 && 0xDC00 <= u[1] <= 0xDFFF
    then [(u[0] - 0xD800) * 0x400 + (u[1] - 0xDC00) + 0x1_0000] + Utf16Decode(u[2..])
    else []
  }

  // ---- Texts ----

  function EncodeAll(cps: seq<int>): seq<byte>
    requires Scalars(cps)
  {
    if cps == [] then [] else Encode(cps[0]) + EncodeAll(cps[1..])
  }

  function Utf16All(cps: seq<int>): seq<unit>
    requires Scalars(cps)
  {
    if cps == [] then [] else Utf16(cps[0]) + Utf16All(cps[1..])
  }

  lemma {:induction false} AppendOne(cps: seq<int>, cp: int)
    requires Scalars(cps) && Scalar(cp)
    ensures Scalars(cps + [cp])
    ensures EncodeAll(cps + [cp]) == EncodeAll(cps) + Encode(cp)
    ensures Utf16All(cps + [cp]) == Utf16All(cps) + Utf16(cp)
  {
    hide Encode, Utf16;
    if cps == [] {
      assert cps + [cp] == [cp];
    } else {
      AppendOne(cps[1..], cp);
      assert (cps + [cp])[1..] == cps[1..] + [cp];
    }
  }

  /** Two texts, one's bytes a prefix of the other's, begin with the same character. */
  lemma SameHead(a: seq<int>, b: seq<int>)
    requires Scalars(a) && Scalars(b) && a != [] && EncodeAll(a) <= EncodeAll(b)
    ensures b != [] && a[0] == b[0]
    ensures EncodeAll(a[1..]) <= EncodeAll(b[1..])
  {
    hide Encode, Utf8Char;
    var s, p := EncodeAll(b), EncodeAll(a);
    var x, y := Encode(a[0]), Encode(b[0]);
    assert p[..|x|] == x;
    assert s[..|x|] == x && s[..|y|] == y;
    EncodeIsChar(a[0]);
    EncodeIsChar(b[0]);
    CharsPrefixFree(s, |x|, |y|);
    assert s[|x|..] == EncodeAll(b[1..]) && p[|x|..] == EncodeAll(a[1..]);
  }

  /** The text that a byte string encodes is unique, also as far as a prefix goes. */
  lemma {:induction false} PrefixCode(a: seq<int>, b: seq<int>)
    requires Scalars(a) && Scalars(b) && EncodeAll(a) <= EncodeAll(b)
    ensures a <= b
  {
    hide Encode, EncodeAll;
    if a != [] {
      SameHead(a, b);
      PrefixCode(a[1..], b[1..]);
      assert b == [b[0]] + b[1..];
      assert a == [a[0]] + a[1..];
    }
  }

  lemma {:induction false} EncodeJoined(a: seq<int>, c: seq<int>)
    requires Scalars(a) && Scalars(c)
    ensures Scalars(a + c) && EncodeAll(a + c) == EncodeAll(a) + EncodeAll(c)
  {
    hide Encode;
    if a == [] {
      assert a + c == c;
    } else {
      EncodeJoined(a[1..], c);
      assert (a + c)[1..] == a[1..] + c;
    }
  }

  lemma UniqueText(a: seq<int>, b: seq<int>)
    requires Scalars(a) && Scalars(b) && EncodeAll(a) == EncodeAll(b)
    ensures a == b
  {
    PrefixCode(a, b);
    PrefixCode(b, a);
  }

  /** The well-formed strings of the grammar are exactly the encoded texts. */
  lemma WellFormedIsEncoded(s: seq<byte>)
    ensures Utf8Octets(s) <==> exists cps: seq<int> :: Scalars(cps) && EncodeAll(cps) == s
  {
    if Utf8Octets(s) {
      var cs: seq<seq<byte>> :| (forall i | 0 <= i < |cs| :: Utf8Char(cs[i])) && Join(cs) == s;
      var cps := TextOf(cs);
    }
    if exists cps: seq<int> :: Scalars(cps) && EncodeAll(cps) == s {
      var cps: seq<int> :| Scalars(cps) && EncodeAll(cps) == s;
      var cs := CharsOf(cps);
    }
  }

  lemma {:induction false} TextOf(cs: seq<seq<byte>>) returns (cps: seq<int>)
    requires forall i | 0 <= i < |cs| :: Utf8Char(cs[i])
    ensures Scalars(cps) && EncodeAll(cps) == Join(cs)
  {
    if cs == [] {
      cps := [];
    } else {
      CharIsEncoded(cs[0]);
      var rest := TextOf(cs[1..]);
      cps := [Value(cs[0])] + rest;
      assert cps[1..] == rest;
    }
  }

  lemma {:induction false} CharsOf(cps: seq<int>) returns (cs: seq<seq<byte>>)
    requires Scalars(cps)
    ensures (forall i | 0 <= i < |cs| :: Utf8Char(cs[i])) && Join(cs) == EncodeAll(cps)
  {
    if cps == [] {
      cs := [];
    } else {
      EncodeIsChar(cps[0]);
      var rest := CharsOf(cps[1..]);
      cs := [Encode(cps[0])] + rest;
      assert cs[1..] == rest;
    }
  }

  /** UTF-16 gives the text back, and so the UTF-8 bytes. */
  lemma {:induction false} Utf16RoundTrip(cps: seq<int>)
    requires Scalars(cps)
    ensures Utf16Decode(Utf16All(cps)) == cps
  {
    if cps != [] {
      Utf16RoundTrip(cps[1..]);
      var u, rest := Utf16(cps[0]), Utf16All(cps[1..]);
      assert Utf16All(cps)[|u|..] == rest;
      if cps[0] >= 0x1_0000 {
        var v := cps[0] - 0x1_0000;
        assert v == v / 0x400 * 0x400 + v % 0x400;
      }
    }
  }

  /** UTF-16 never has more units than UTF-8 has bytes. */
  lemma {:induction false} UnitsWithinBytes(cps: seq<int>)
    requires Scalars(cps)
    ensures |Utf16All(cps)| <= |EncodeAll(cps)|
  {
    if cps != [] {
      UnitsWithinBytes(cps[1..]);
    }
  }

  /** Bytes that start with no UTF8-char cannot continue a text: the whole string is not well formed. */
  lemma StuckIsIllFormed(s: seq<byte>, cps: seq<int>)
    requires Scalars(cps) && EncodeAll(cps) <= s && |EncodeAll(cps)| < |s|
    requires forall n | 0 <= n <= |s| - |EncodeAll(cps)| :: !Utf8Char(s[|EncodeAll(cps)|..][..n])
    ensures !Utf8Octets(s)
  {
    hide Encode, Utf8Char;
    if Utf8Octets(s) {
      WellFormedIsEncoded(s);
      var ds: seq<int> :| Scalars(ds) && EncodeAll(ds) == s;
      PrefixCode(cps, ds);
      var rest := ds[|cps|..];
      EncodeJoined(cps, rest);
      assert cps + rest == ds;
      assert rest != [];
      var x := Encode(rest[0]);
      assert s[|EncodeAll(cps)|..] == EncodeAll(rest);
      assert EncodeAll(rest)[..|x|] == x;
      EncodeIsChar(rest[0]);
    }
  }

  /** Code points of one to four bytes, as section 7 of RFC 3629 and section 3 of RFC 2781 write such. */
  lemma KnownEncodings()
    ensures Encode(0x41) == [0x41] && Encode(0x391) == [0xCE, 0x91] && Encode(0x2262) == [0xE2, 0x89, 0xA2]
    ensures Encode(0x2_33B4) == [0xF0, 0xA3, 0x8E, 0xB4]
    ensures Utf16(0x2262) == [0x2262] && Utf16(0x1_2345) == [0xD808, 0xDF45]
    ensures Utf16(0x10_FFFF) == [0xDBFF, 0xDFFF]
  {
  }
}
