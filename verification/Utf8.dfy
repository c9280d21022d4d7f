/**
 UTF-8 text as bytes, by the syntax in section 4 of RFC 3629, and the byte-limited
 truncation of a node body.
 */
module Utf8 {
  import opened Basics

  predicate Tail(b: byte) {
    0x80 <= b <= 0xBF
  }

  predicate Tails(s: seq<byte>, n: nat) {
    |s| >= n && forall i :: 0 <= i < n ==> Tail(s[i])
  }

  /** The length of the well-formed character at the start of `s`, or 0 if there is none. */
  function CharLen(s: seq<byte>): (n: nat)
    ensures n <= |s|
  {
    if s == [] then 0
    else
      var b := s[0];
      if b <= 0x7F then 1
      else if 0xC2 <= b <= 0xDF then if Tails(s[1..], 1) then 2 else 0
      else if 0xE0 <= b <= 0xEF then
        if Tails(s[1..], 2) && (b == 0xE0 ==> s[1] >= 0xA0) && (b == 0xED ==> s[1] <= 0x9F) then 3 else 0
      else if 0xF0 <= b <= 0xF4 then
        if Tails(s[1..], 3) && (b == 0xF0 ==> s[1] >= 0x90) && (b == 0xF4 ==> s[1] <= 0x8F) then 4 else 0
      else 0
  }

  /** `s` is a sequence of well-formed characters. */
  predicate Valid(s: seq<byte>) {
    s == [] || (CharLen(s) > 0 && Valid(s[CharLen(s)..]))
  }

  // ---- The syntax is that of encoded scalar values ----

  /** A Unicode code point that is not a surrogate. */
  type Scalar = c: nat | c <= 0x10FFFF && !(0xD800 <= c <= 0xDFFF)

  /** The shortest encoding of `c`, by the bit layout in section 3 of RFC 3629. */
  function Encode(c: Scalar): seq<byte> {
    if c < 0x80 then [c]
    else if c < 0x800 then [0xC0 + c / 0x40, 0x80 + c % 0x40]
    else if c < 0x10000 then [0xE0 + c / 0x1000, 0x80 + c / 0x40 % 0x40, 0x80 + c % 0x40]
    else [0xF0 + c / 0x40000, 0x80 + c / 0x1000 % 0x40, 0x80 + c / 0x40 % 0x40, 0x80 + c % 0x40]
  }

  function EncodeAll(text: seq<Scalar>): seq<byte> {
    if text == [] then [] else Encode(text[0]) + EncodeAll(text[1..])
  }

  /** Text that starts with an encoded scalar value starts with a character of that length. */
  lemma EncodedIsChar(c: Scalar, rest: seq<byte>)
    ensures CharLen(Encode(c) + rest) == |Encode(c)| > 0
  {
    var s := Encode(c) + rest;
    assert forall i :: 0 <= i < |Encode(c)| ==> s[i] == Encode(c)[i];
    assert forall i :: 0 < i < |Encode(c)| ==> s[1..][i - 1] == Encode(c)[i];
    if 0x800 <= c < 0x10000 {
      assert c / 0x1000 == 0 ==> c / 0x40 % 0x40 >= 0x20;
      assert c / 0x1000 == 0xD ==> c / 0x40 % 0x40 <= 0x1F;
    } else if c >= 0x10000 {
      assert c / 0x40000 == 0 ==> c / 0x1000 % 0x40 >= 0x10;
      assert c / 0x40000 == 4 ==> c / 0x1000 % 0x40 <= 0xF;
    }
  }

  /** The six-bit groups of a number. */
  lemma Groups(a: nat, b: nat, d: nat, e: nat)
    requires b < 0x40 && d < 0x40 && e < 0x40
    ensures var c := a * 0x40000 + b * 0x1000 + d * 0x40 + e;
            c / 0x40000 == a && c / 0x1000 % 0x40 == b && c / 0x40 % 0x40 == d && c % 0x40 == e
  {
    var c := a * 0x40000 + b * 0x1000 + d * 0x40 + e;
    assert c / 0x40 == a * 0x1000 + b * 0x40 + d;
    assert c / 0x1000 == a * 0x40 + b;
  }

  lemma ThreeByteChar(s: seq<byte>) returns (c: Scalar)
    requires |s| >= 3 && CharLen(s) == 3 && Tail(s[1]) && Tail(s[2])
    ensures s[..3] == Encode(c)
  {
    var b0: int, b1: int, b2: int := s[0], s[1], s[2];
    var x := (b0 - 0xE0) * 0x1000 + (b1 - 0x80) * 0x40 + (b2 - 0x80);
    assert 0xE0 <= b0 <= 0xEF && (b0 == 0xE0 ==> b1 >= 0xA0) && (b0 == 0xED ==> b1 <= 0x9F);
    hide CharLen;
    Groups(0, b0 - 0xE0, b1 - 0x80, b2 - 0x80);
    assert x / 0x1000 == b0 - 0xE0;
    assert 0x800 <= x < 0x10000;
    c := x;
  }

  lemma FourByteChar(s: seq<byte>) returns (c: Scalar)
    requires |s| >= 4 && CharLen(s) == 4 && Tail(s[1]) && Tail(s[2]) && Tail(s[3])
    ensures s[..4] == Encode(c)
  {
    var b0: int, b1: int, b2: int, b3: int := s[0], s[1], s[2], s[3];
    var x := (b0 - 0xF0) * 0x40000 + (b1 - 0x80) * 0x1000 + (b2 - 0x80) * 0x40 + (b3 - 0x80);
    assert 0xF0 <= b0 <= 0xF4 && (b0 == 0xF0 ==> b1 >= 0x90) && (b0 == 0xF4 ==> b1 <= 0x8F);
    hide CharLen;
    Groups(b0 - 0xF0, b1 - 0x80, b2 - 0x80, b3 - 0x80);
    assert 0x10000 <= x <= 0x10FFFF;
    c := x;
  }

  /** Every well-formed character is the encoding of a scalar value. */
  lemma CharIsEncoded(s: seq<byte>) returns (c: Scalar)
    requires CharLen(s) > 0
    ensures s[..CharLen(s)] == Encode(c)
  {
    CharShape(s);
    var n := CharLen(s);
    if n == 1 {
      c := s[0];
    } else if n == 2 {
      var b0: int, b1: int := s[0], s[1];
      c := (b0 - 0xC0) * 0x40 + (b1 - 0x80);
    } else if n == 3 {
      c := ThreeByteChar(s);
    } else {
      c := FourByteChar(s);
    }
  }

  lemma {:induction false} EncodedIsValid(text: seq<Scalar>)
    ensures Valid(EncodeAll(text))
  {
    hide CharLen, Encode;
    if text != [] {
      var rest := EncodeAll(text[1..]);
      EncodedIsChar(text[0], rest);
      EncodedIsValid(text[1..]);
      assert (Encode(text[0]) + rest)[|Encode(text[0])|..] == rest;
    }
  }

  lemma {:induction false} ValidIsEncoded(s: seq<byte>) returns (text: seq<Scalar>)
    requires Valid(s)
    ensures EncodeAll(text) == s
    decreases |s|
  {
    hide CharLen, Encode;
    text := [];
    if s != [] {
      var n := CharLen(s);
      var c := CharIsEncoded(s);
      var rest := ValidIsEncoded(s[n..]);
      text := [c] + rest;
      assert text[1..] == rest;
      assert s == s[..n] + s[n..];
    }
  }

  /** Bytes are valid text exactly when they encode some sequence of scalar values. */
  lemma ValidExactly(s: seq<byte>)
    ensures Valid(s) <==> exists text :: EncodeAll(text) == s
  {
    hide Valid, EncodeAll;
    if Valid(s) {
      var text := ValidIsEncoded(s);
    }
    if text :| EncodeAll(text) == s {
      EncodedIsValid(text);
    }
  }

  predicate IsCharBoundary(s: seq<byte>, i: nat) {
    i == 0 || i == |s| || (i < |s| && !Tail(s[i]))
  }

  lemma CharShape(s: seq<byte>)
    requires CharLen(s) > 0
    ensures CharLen(s) <= 4 && !Tail(s[0])
    ensures forall i :: 0 < i < CharLen(s) ==> Tail(s[i])
  {
    forall i | 0 < i < CharLen(s) ensures Tail(s[i]) {
      assert s[i] == s[1..][i - 1];
    }
  }

  /** A prefix starts with the same character if it reaches that far, and with none if not. */
  lemma CharOfPrefix(s: seq<byte>, i: nat)
    requires CharLen(s) > 0 && 0 < i <= |s|
    ensures CharLen(s[..i]) == if i < CharLen(s) then 0 else CharLen(s)
  {
    assert s[..i][1..] == s[1..][..i - 1];
    assert forall k :: 0 <= k < i - 1 ==> s[..i][1..][k] == s[1..][k];
  }

  /** In valid text a position is a character boundary exactly when the text before it is valid. */
  lemma {:induction false} BoundaryIsValidPrefix(s: seq<byte>, i: nat)
    requires Valid(s) && i <= |s|
    ensures IsCharBoundary(s, i) <==> Valid(s[..i])
    decreases |s|
  {
    if 0 < i {
      hide CharLen;
      var n := CharLen(s);
      CharShape(s);
      CharOfPrefix(s, i);
      if i >= n {
        BoundaryIsValidPrefix(s[n..], i - n);
        assert s[..i][n..] == s[n..][..i - n];
        if n < |s| {
          CharShape(s[n..]);
          assert s[n] == s[n..][0];
        }
        if i < |s| {
          assert s[i] == s[n..][i - n];
        }
      }
    }
  }

  /** Valid text never has four continuation bytes in a row. */
  lemma {:induction false} NoFourTails(s: seq<byte>, i: nat)
    requires Valid(s) && i + 3 < |s|
    ensures exists k :: i <= k < i + 4 && !Tail(s[k])
    decreases |s|
  {
    hide CharLen;
    var n := CharLen(s);
    CharShape(s);
    if i >= n {
      NoFourTails(s[n..], i - n);
      var k :| i - n <= k < i - n + 4 && !Tail(s[n..][k]);
      assert s[n..][k] == s[n + k];
    } else if i == 0 {
      assert !Tail(s[0]);
    } else {
      CharShape(s[n..]);
      assert s[n] == s[n..][0];
    }
  }

  /**
   Truncate text to at most `maxBytes` bytes without splitting a character: the longest
   valid prefix within the limit, at most three bytes short of it.
   */
  method TruncateToByteBoundary(s: seq<byte>, maxBytes: nat) returns (r: seq<byte>)
    requires Valid(s)
    ensures r <= s && Valid(r) && |r| <= maxBytes
    ensures forall k :: |r| < k <= |s| && k <= maxBytes ==> !Valid(s[..k])
    ensures |s| <= maxBytes ==> r == s
    ensures |s| > maxBytes ==> maxBytes - 3 <= |r|
  {
    if |s| <= maxBytes {
      return s;
    }
    var end := maxBytes;
    while end > 0 && !IsCharBoundary(s, end)
      invariant 0 <= end <= maxBytes
      invariant forall k :: end < k <= maxBytes ==> !IsCharBoundary(s, k)
    {
      end := end - 1;
    }
    BoundaryIsValidPrefix(s, end);
    forall k | end < k <= maxBytes ensures !Valid(s[..k]) {
      BoundaryIsValidPrefix(s, k);
    }
    if end < maxBytes - 3 {
      NoFourTails(s, end + 1);
      var k :| end + 1 <= k < end + 5 && !Tail(s[k]);
      assert IsCharBoundary(s, k);
    }
    r := s[..end];
  }
}
