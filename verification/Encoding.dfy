/** Text encoding: which byte sequences are UTF-8. */
module Encoding {
  import opened Basics

  predicate Continues(c: byte) {
    0x80 <= c <= 0xbf
  }

  /** Well-formed UTF-8, table 3-7 of the Unicode standard. */
  predicate Utf8(s: bytes) {
    || s == []
    || (s[0] < 0x80 && Utf8(s[1..]))
    || (|s| >= 2 && 0xc2 <= s[0] <= 0xdf && Continues(s[1]) && Utf8(s[2..]))
    || (|s| >= 3 && Utf8Three(s[0], s[1]) && Continues(s[2]) && Utf8(s[3..]))
    || (|s| >= 4 && Utf8Four(s[0], s[1]) && Continues(s[2]) && Continues(s[3]) && Utf8(s[4..]))
  }

  predicate Utf8Three(a: byte, b: byte) {
    || (a == 0xe0 && 0xa0 <= b <= 0xbf)
    || (a == 0xed && 0x80 <= b <= 0x9f)
    || (0xe1 <= a <= 0xef && a != 0xed && Continues(b))
  }

  predicate Utf8Four(a: byte, b: byte) {
    || (a == 0xf0 && 0x90 <= b <= 0xbf)
    || (a == 0xf4 && 0x80 <= b <= 0x8f)
    || (0xf1 <= a <= 0xf3 && Continues(b))
  }

  lemma {:induction false} AsciiIsUtf8(s: bytes)
    requires forall i :: 0 <= i < |s| ==> s[i] < 0x80
    ensures Utf8(s)
  {
    if s != [] { AsciiIsUtf8(s[1..]); }
  }

  // ---------------------------------------------------------------- encoded characters

  /** A Unicode scalar value: no surrogate. */
  predicate Scalar(c: nat) {
    c < 0xd800 || 0xe000 <= c < 0x11_0000
  }

  /** The bytes of one character. */
  function EncodeChar(c: nat): bytes
    requires Scalar(c)
  {
    if c < 0x80 then [c]
    else if c < 0x800 then [0xc0 + c / 64, 0x80 + c % 64]
    else if c < 0x1_0000 then [0xe0 + c / 4096, 0x80 + c / 64 % 64, 0x80 + c % 64]
    else [0xf0 + c / 262144, 0x80 + c / 4096 % 64, 0x80 + c / 64 % 64, 0x80 + c % 64]
  }

  ghost predicate Scalars(text: seq<nat>) {
    forall i :: 0 <= i < |text| ==> Scalar(text[i])
  }

  function EncodeText(text: seq<nat>): bytes
    requires Scalars(text)
  {
    if text == [] then [] else EncodeChar(text[0]) + EncodeText(text[1..])
  }

  lemma {:induction false} EncodedIsUtf8(text: seq<nat>)
    requires Scalars(text)
    ensures Utf8(EncodeText(text))
  {
    if text != [] {
      EncodedIsUtf8(text[1..]);
      CharIsUtf8(text[0], EncodeText(text[1..]));
    }
  }

  lemma CharIsUtf8(c: nat, rest: bytes)
    requires Scalar(c) && Utf8(rest)
    ensures Utf8(EncodeChar(c) + rest)
  {
    var s := EncodeChar(c) + rest;
    var n := |EncodeChar(c)|;
    assert s[n..] == rest;
    hide Utf8;
    CharLead(c);
    Utf8From(s, n);
  }

  /** A well-formed character of `n` bytes in front of UTF-8. */
  ghost predicate Leads(s: bytes, n: nat) {
    && n <= |s|
    && match n
       case 1 => s[0] < 0x80
       case 2 => 0xc2 <= s[0] <= 0xdf && Continues(s[1])
       case 3 => Utf8Three(s[0], s[1]) && Continues(s[2])
       case 4 => Utf8Four(s[0], s[1]) && Continues(s[2]) && Continues(s[3])
       case _ => false
  }

  lemma Utf8From(s: bytes, n: nat)
    requires Leads(s, n) && Utf8(s[n..])
    ensures Utf8(s)
  {
  }

  lemma CharLead(c: nat)
    requires Scalar(c)
    ensures Leads(EncodeChar(c), |EncodeChar(c)|) && forall rest: bytes :: Leads(EncodeChar(c) + rest, |EncodeChar(c)|)
  {
  }

  lemma TwoBytes(a: int, b: int) returns (c: nat)
    requires 0xc2 <= a <= 0xdf && 0x80 <= b <= 0xbf
    ensures Scalar(c) && EncodeChar(c) == [a, b]
  {
    c := 64 * (a - 0xc0) + (b - 0x80);
    assert c / 64 == a - 0xc0 && c % 64 == b - 0x80;
  }

  lemma ThreeBytes(a: int, b: int, d: int) returns (c: nat)
    requires 0xe0 <= a <= 0xef && 0x80 <= b <= 0xbf && 0x80 <= d <= 0xbf && (a == 0xe0 ==> b >= 0xa0) && (a == 0xed ==> b <= 0x9f)
    ensures Scalar(c) && EncodeChar(c) == [a, b, d]
  {
    var high: int := 64 * (a - 0xe0) + (b - 0x80);
    c := 64 * high + (d - 0x80);
    assert c / 64 == high && c % 64 == d - 0x80;
    assert c / 4096 == a - 0xe0 && high % 64 == b - 0x80;
  }

  lemma FourBytes(a: int, b: int, d: int, e: int) returns (c: nat)
    requires 0xf0 <= a <= 0xf4 && 0x80 <= b <= 0xbf && 0x80 <= d <= 0xbf && 0x80 <= e <= 0xbf
    requires (a == 0xf0 ==> b >= 0x90) && (a == 0xf4 ==> b <= 0x8f)
    ensures Scalar(c) && EncodeChar(c) == [a, b, d, e]
  {
    var top: int := 64 * (a - 0xf0) + (b - 0x80);
    var high: int := 64 * top + (d - 0x80);
    c := 64 * high + (e - 0x80);
    assert c / 64 == high && c % 64 == e - 0x80;
    assert c / 4096 == top && high % 64 == d - 0x80;
    assert c / 262144 == a - 0xf0 && top % 64 == b - 0x80;
  }

  /** The character a well-formed group of bytes stands for. */
  lemma LeadChar(s: bytes, n: nat) returns (c: nat)
    requires Leads(s, n)
    ensures Scalar(c) && EncodeChar(c) == s[..n]
  {
    if n == 1 {
      c := s[0];
    } else {
      hide EncodeChar, Scalar;
      if n == 2 {
        c := TwoBytes(s[0], s[1]);
      } else if n == 3 {
        c := ThreeBytes(s[0], s[1], s[2]);
      } else {
        c := FourBytes(s[0], s[1], s[2], s[3]);
      }
    }
  }

  /** Bytes are UTF-8 exactly when they encode a sequence of Unicode scalar values. */
  lemma {:induction false} Utf8IsEncoded(s: bytes) returns (text: seq<nat>)
    requires Utf8(s)
    ensures Scalars(text) && EncodeText(text) == s
    decreases |s|
  {
    if s == [] { return []; }
    var n := if s[0] < 0x80 then 1 else if s[0] <= 0xdf then 2 else if s[0] <= 0xef then 3 else 4;
    assert Leads(s, n) && Utf8(s[n..]);
    hide Utf8;
    var c := LeadChar(s, n);
    var more := Utf8IsEncoded(s[n..]);
    text := [c] + more;
    assert text[1..] == more && s == s[..n] + s[n..];
  }
}
