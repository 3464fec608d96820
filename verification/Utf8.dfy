/** What IsStructurallyValidUTF8 accepts, against the definition of UTF-8 (section 3 of RFC 3629): exactly the
    encodings of sequences of Unicode scalar values. */
module Utf8 {
  import opened Wire
  import opened Messages

  /** A code point that is no surrogate. */
  predicate IsScalar(c: nat) { c < 0xD800 || 0xE000 <= c < 0x110000 }

  function EncodeScalar(c: nat): (s: seq<byte>)
    requires IsScalar(c)
    ensures |s| >= 1
  {
    if c < 0x80 then [c]
    else if c < 0x800 then [0xC0 + c / 64, 0x80 + c % 64]
    else if c < 0x1_0000 then [0xE0 + c / 4096, 0x80 + c / 64 % 64, 0x80 + c % 64]
    else [0xF0 + c / 262144, 0x80 + c / 4096 % 64, 0x80 + c / 64 % 64, 0x80 + c % 64]
  }

  function EncodeAll(cs: seq<nat>): seq<byte>
    requires forall c :: c in cs ==> IsScalar(c)
  {
    if cs == [] then [] else EncodeScalar(cs[0]) + EncodeAll(cs[1..])
  }

  /** The shape of a first character: as many bytes as its first one says, none of them out of range. */
  lemma ScalarIsValid(c: nat, rest: seq<byte>)
    requires IsScalar(c)
    ensures ValidUtf8(EncodeScalar(c) + rest) <==> ValidUtf8(rest)
  {
    var head := EncodeScalar(c);
    assert (head + rest)[|head|..] == rest;
    if 0x800 <= c < 0x1_0000 {
      ThreeBytes(c);
    } else if c >= 0x1_0000 {
      FourBytes(c);
    }
  }

  lemma ThreeBytes(c: nat)
    requires 0x800 <= c < 0x1_0000 && IsScalar(c)
    ensures c / 4096 == 0 ==> c / 64 % 64 >= 0x20
    ensures c / 4096 == 0xD ==> c / 64 % 64 <= 0x1F
  {
  }

  lemma FourBytes(c: nat)
    requires 0x1_0000 <= c < 0x110000
    ensures c / 262144 <= 4
    ensures c / 262144 == 0 ==> c / 4096 % 64 >= 0x10
    ensures c / 262144 == 4 ==> c / 4096 % 64 <= 0xF
  {
  }

  lemma {:induction false} EncodedIsValid(cs: seq<nat>)
    requires forall c :: c in cs ==> IsScalar(c)
    ensures ValidUtf8(EncodeAll(cs))
  {
    if cs != [] {
      EncodedIsValid(cs[1..]);
      ScalarIsValid(cs[0], EncodeAll(cs[1..]));
    }
  }

  lemma TwoDigits(h: nat, x: nat)
    requires x < 64
    ensures (64 * h + x) / 64 == h && (64 * h + x) % 64 == x
  {
  }

  lemma ThreeDigits(h: nat, x: nat, y: nat)
    requires x < 64 && y < 64
    ensures var c := 64 * (64 * h + x) + y; c / 4096 == h && c / 64 % 64 == x && c % 64 == y
  {
    TwoDigits(64 * h + x, y);
    TwoDigits(h, x);
    assert (64 * (64 * h + x) + y) / 4096 == (64 * (64 * h + x) + y) / 64 / 64;
  }

  lemma FourDigits(h: nat, x: nat, y: nat, z: nat)
    requires x < 64 && y < 64 && z < 64
    ensures var c := 64 * (64 * (64 * h + x) + y) + z;
            c / 262144 == h && c / 4096 % 64 == x && c / 64 % 64 == y && c % 64 == z
  {
    var d := 64 * (64 * h + x) + y;
    TwoDigits(d, z);
    ThreeDigits(h, x, y);
    assert (64 * d + z) / 4096 == d / 64 && (64 * d + z) / 262144 == d / 4096;
    TwoDigits(64 * h + x, y);
  }

  lemma FirstOfTwo(a: byte, b: byte) returns (c: nat)
    requires 0xC2 <= a < 0xE0 && 0x80 <= b <= 0xBF
    ensures IsScalar(c) && EncodeScalar(c) == [a, b]
  {
    var h: int, x: int := a - 0xC0, b - 0x80;
    c := 64 * h + x;
    TwoDigits(h, x);
  }

  lemma FirstOfThree(a: byte, b: byte, d: byte) returns (c: nat)
    requires 0xE0 <= a < 0xF0 && 0x80 <= b <= 0xBF && 0x80 <= d <= 0xBF
    requires (a == 0xE0 ==> b >= 0xA0) && (a == 0xED ==> b <= 0x9F)
    ensures IsScalar(c) && EncodeScalar(c) == [a, b, d]
  {
    var h: int, x: int, y: int := a - 0xE0, b - 0x80, d - 0x80;
    c := 64 * (64 * h + x) + y;
    ThreeDigits(h, x, y);
  }

  lemma FirstOfFour(a: byte, b: byte, d: byte, e: byte) returns (c: nat)
    requires 0xF0 <= a < 0xF5 && 0x80 <= b <= 0xBF && 0x80 <= d <= 0xBF && 0x80 <= e <= 0xBF
    requires (a == 0xF0 ==> b >= 0x90) && (a == 0xF4 ==> b <= 0x8F)
    ensures IsScalar(c) && EncodeScalar(c) == [a, b, d, e]
  {
    var h: int, x: int, y: int, z: int := a - 0xF0, b - 0x80, d - 0x80, e - 0x80;
    c := 64 * (64 * (64 * h + x) + y) + z;
    FourDigits(h, x, y, z);
  }

  /** The first character of valid bytes. */
  lemma FirstScalar(s: seq<byte>) returns (c: nat, n: nat)
    requires ValidUtf8(s) && s != []
    ensures IsScalar(c) && 1 <= n <= |s| && s[..n] == EncodeScalar(c) && ValidUtf8(s[n..])
  {
    if s[0] < 0x80 {
      c, n := s[0], 1;
    } else if s[0] < 0xE0 {
      c := FirstOfTwo(s[0], s[1]);
      n := 2;
    } else if s[0] < 0xF0 {
      c := FirstOfThree(s[0], s[1], s[2]);
      n := 3;
    } else {
      c := FirstOfFour(s[0], s[1], s[2], s[3]);
      n := 4;
    }
  }

  lemma {:induction false} Decode(s: seq<byte>) returns (cs: seq<nat>)
    requires ValidUtf8(s)
    ensures (forall c :: c in cs ==> IsScalar(c)) && EncodeAll(cs) == s
    decreases |s|
  {
    cs := [];
    if s != [] {
      var c, n := FirstScalar(s);
      var rest := Decode(s[n..]);
      cs := [c] + rest;
      assert s == s[..n] + s[n..];
    }
  }

  /** Exactly the encodings of sequences of scalar values are accepted: nothing overlong, no surrogates,
      nothing above U+10FFFF, nothing cut off. */
  lemma ValidExactly(s: seq<byte>)
    ensures ValidUtf8(s) <==> exists cs: seq<nat> :: (forall c :: c in cs ==> IsScalar(c)) && EncodeAll(cs) == s
  {
    if ValidUtf8(s) {
      var cs := Decode(s);
    }
    if cs: seq<nat> :| (forall c :: c in cs ==> IsScalar(c)) && EncodeAll(cs) == s {
      EncodedIsValid(cs);
    }
  }
}
