// Well-formed UTF-8, as the check on the text of a request sees it, and what it is: the
// encodings of sequences of Unicode scalar values (section 3 of RFC 3629).
module Utf8 {
  import opened Prelude

  predicate Continuation(b: byte) {
    0x80 <= b <= 0xBF
  }

  // Length of the well-formed UTF-8 sequence at the front of `s`; 0 when there is none.
  function ScalarLength(s: bytes): nat {
    if |s| >= 1 && s[0] < 0x80 then 1
    else if |s| >= 2 && 0xC2 <= s[0] <= 0xDF && Continuation(s[1]) then 2
    else if |s| >= 3 && 0xE0 <= s[0] <= 0xEF && Continuation(s[1]) && Continuation(s[2])
      && (s[0] == 0xE0 ==> s[1] >= 0xA0) && (s[0] == 0xED ==> s[1] < 0xA0) then 3
    else if |s| >= 4 && 0xF0 <= s[0] <= 0xF4 && Continuation(s[1]) && Continuation(s[2]) && Continuation(s[3])
      && (s[0] == 0xF0 ==> s[1] >= 0x90) && (s[0] == 0xF4 ==> s[1] < 0x90) then 4
    else 0
  }

  predicate ValidUtf8(s: bytes) {
    s == [] || (0 < ScalarLength(s) <= |s| && ValidUtf8(s[ScalarLength(s)..]))
  }

  // -- What well-formed UTF-8 is -------------------------------------------------------

  // A Unicode scalar value: a code point that is not a surrogate.
  predicate Scalar(c: int) {
    0 <= c < 0xD800 || 0xE000 <= c < 0x11_0000
  }

  // Its encoding in one to four bytes.
  function EncodeScalar(c: int): (r: bytes)
    requires Scalar(c)
    ensures r != []
  {
    if c < 0x80 then [c]
    else if c < 0x800 then [0xC0 + c / 0x40, 0x80 + c % 0x40]
    else if c < 0x1_0000 then [0xE0 + c / 0x1000, 0x80 + c / 0x40 % 0x40, 0x80 + c % 0x40]
    else [0xF0 + c / 0x4_0000, 0x80 + c / 0x1000 % 0x40, 0x80 + c / 0x40 % 0x40, 0x80 + c % 0x40]
  }

  predicate Scalars(cs: seq<int>) {
    forall i :: 0 <= i < |cs| ==> Scalar(cs[i])
  }

  function EncodeText(cs: seq<int>): bytes
    requires Scalars(cs)
  {
    if cs == [] then [] else EncodeScalar(cs[0]) + EncodeText(cs[1..])
  }

  lemma ScalarIsSeen(c: int, rest: bytes)
    requires Scalar(c)
    ensures ScalarLength(EncodeScalar(c) + rest) == |EncodeScalar(c)|
  {
  }

  lemma {:induction false} EncodedIsValid(cs: seq<int>)
    requires Scalars(cs)
    ensures ValidUtf8(EncodeText(cs))
  {
    hide ScalarLength, EncodeScalar;
    if cs != [] {
      var first, rest := EncodeScalar(cs[0]), EncodeText(cs[1..]);
      ScalarIsSeen(cs[0], rest);
      EncodedIsValid(cs[1..]);
      assert (first + rest)[|first|..] == rest;
    }
  }

  // The code point at the front of `s`.
  function ScalarAt(s: bytes): int
    requires 0 < ScalarLength(s) <= |s|
  {
    var n := ScalarLength(s);
    var a: int := s[0];
    if n == 1 then a
    else
      var b: int := s[1] as int - 0x80;
      if n == 2 then (a - 0xC0) * 0x40 + b
      else
        var c: int := s[2] as int - 0x80;
        if n == 3 then (a - 0xE0) * 0x1000 + b * 0x40 + c
        else (a - 0xF0) * 0x4_0000 + b * 0x1000 + c * 0x40 + (s[3] as int - 0x80)
  }

  lemma Digits64(x: int, y: int, z: int, w: int)
    requires 0 <= y < 64 && 0 <= z < 64 && 0 <= w < 64
    ensures (x * 64 + w) / 64 == x && (x * 64 + w) % 64 == w
    ensures (x * 0x1000 + z * 64 + w) / 0x1000 == x
    ensures (x * 0x1000 + z * 64 + w) / 64 == x * 64 + z && (x * 0x1000 + z * 64 + w) % 64 == w
    ensures (x * 0x4_0000 + y * 0x1000 + z * 64 + w) / 0x4_0000 == x
    ensures (x * 0x4_0000 + y * 0x1000 + z * 64 + w) / 0x1000 == x * 64 + y
    ensures (x * 0x4_0000 + y * 0x1000 + z * 64 + w) / 64 == x * 0x1000 + y * 64 + z
    ensures (x * 0x4_0000 + y * 0x1000 + z * 64 + w) % 64 == w
    ensures (x * 0x1000 + y * 64 + z) % 64 == z && (x * 64 + y) % 64 == y
  {
  }

  lemma SeenOne(s: bytes)
    requires ScalarLength(s) == 1 && |s| >= 1
    ensures Scalar(ScalarAt(s)) && EncodeScalar(ScalarAt(s)) == s[..1]
  {
  }

  lemma SeenTwo(s: bytes)
    requires ScalarLength(s) == 2 && |s| >= 2
    ensures Scalar(ScalarAt(s)) && EncodeScalar(ScalarAt(s)) == s[..2]
  {
    Digits64(s[0] as int - 0xC0, 0, 0, s[1] as int - 0x80);
  }

  lemma SeenThree(s: bytes)
    requires ScalarLength(s) == 3 && |s| >= 3
    ensures Scalar(ScalarAt(s)) && EncodeScalar(ScalarAt(s)) == s[..3]
  {
    Digits64(s[0] as int - 0xE0, s[1] as int - 0x80, s[1] as int - 0x80, s[2] as int - 0x80);
  }

  lemma SeenFour(s: bytes)
    requires ScalarLength(s) == 4 && |s| >= 4
    ensures Scalar(ScalarAt(s)) && EncodeScalar(ScalarAt(s)) == s[..4]
  {
    Digits64(s[0] as int - 0xF0, s[1] as int - 0x80, s[2] as int - 0x80, s[3] as int - 0x80);
  }

  lemma SeenIsScalar(s: bytes)
    requires 0 < ScalarLength(s) <= |s|
    ensures Scalar(ScalarAt(s)) && EncodeScalar(ScalarAt(s)) == s[..ScalarLength(s)]
  {
    hide EncodeScalar, ScalarAt, Scalar;
    match ScalarLength(s)
    case 1 => SeenOne(s);
    case 2 => SeenTwo(s);
    case 3 => SeenThree(s);
    case _ => SeenFour(s);
  }

  lemma {:induction false} ValidIsEncoded(s: bytes) returns (cs: seq<int>)
    requires ValidUtf8(s)
    ensures Scalars(cs) && EncodeText(cs) == s
    decreases |s|
  {
    hide ScalarLength, EncodeScalar, ScalarAt, Scalar;
    if s == [] {
      cs := [];
    } else {
      var n := ScalarLength(s);
      SeenIsScalar(s);
      var rest := ValidIsEncoded(s[n..]);
      cs := [ScalarAt(s)] + rest;
      assert cs[1..] == rest && s == s[..n] + s[n..];
    }
  }

  // Text is accepted exactly when it is the encoding of some Unicode scalar values.
  lemma ValidUtf8Exactly(s: bytes)
    ensures ValidUtf8(s) <==> exists cs :: Scalars(cs) && EncodeText(cs) == s
  {
    hide ValidUtf8, Scalars, EncodeText;
    if ValidUtf8(s) {
      var cs := ValidIsEncoded(s);
    }
    forall cs | Scalars(cs) && EncodeText(cs) == s ensures ValidUtf8(s) {
      EncodedIsValid(cs);
    }
  }
}
