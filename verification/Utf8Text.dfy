/** UTF-8: the byte patterns that are accepted are exactly the encodings of Unicode scalar values (RFC 3629, section 3). */
module Utf8Text {
  import opened Common
  import opened MessagePack

  /** A code point that is not a surrogate. */
  predicate Scalar(c: nat) {
    c < 0x11_0000 && !(0xd800 <= c < 0xe000)
  }

  function EncodeScalar(c: nat): (s: Bytes)
    requires Scalar(c)
    ensures s != []
  {
    if c < 0x80 then [c]
    else if c < 0x800 then [0xc0 + c / 64, 0x80 + c % 64]
    else if c < 0x1_0000 then [0xe0 + c / 4096, 0x80 + c / 64 % 64, 0x80 + c % 64]
    else [0xf0 + c / 262144, 0x80 + c / 4096 % 64, 0x80 + c / 64 % 64, 0x80 + c % 64]
  }

  predicate Scalars(cs: seq<nat>) {
    forall i :: 0 <= i < |cs| ==> Scalar(cs[i])
  }

  function EncodeText(cs: seq<nat>): Bytes
    requires Scalars(cs)
  {
    if cs == [] then [] else EncodeScalar(cs[0]) + EncodeText(cs[1..])
  }

  lemma ScalarIsFront(c: nat, rest: Bytes)
    requires Scalar(c)
    ensures var s := EncodeScalar(c) + rest; Utf8Front(s) == |EncodeScalar(c)| && s[|EncodeScalar(c)|..] == rest
  {
  }

  lemma FrontOfTwo(s: Bytes) returns (c: nat)
    requires s != [] && Utf8Front(s) == 2
    ensures Scalar(c) && EncodeScalar(c) == [s[0], s[1]]
  {
    c := (s[0] as int - 0xc0) * 64 + (s[1] as int - 0x80);
  }

  lemma FrontOfThree(s: Bytes) returns (c: nat)
    requires s != [] && Utf8Front(s) == 3
    ensures Scalar(c) && EncodeScalar(c) == [s[0], s[1], s[2]]
  {
    c := (s[0] as int - 0xe0) * 4096 + (s[1] as int - 0x80) * 64 + (s[2] as int - 0x80);
  }

  lemma FourDigits(a: nat, b: nat, c: nat, d: nat)
    requires b < 64 && c < 64 && d < 64
    ensures var n := a * 262144 + b * 4096 + c * 64 + d;
      n / 262144 == a && n / 4096 % 64 == b && n / 64 % 64 == c && n % 64 == d
  {
    var n := a * 262144 + b * 4096 + c * 64 + d;
    assert n / 64 == a * 4096 + b * 64 + c;
    assert n / 4096 == a * 64 + b;
  }

  lemma FrontOfFour(s: Bytes) returns (c: nat)
    requires s != [] && Utf8Front(s) == 4
    ensures Scalar(c) && EncodeScalar(c) == [s[0], s[1], s[2], s[3]]
  {
    var a, b, d, e := s[0] as int - 0xf0, s[1] as int - 0x80, s[2] as int - 0x80, s[3] as int - 0x80;
    c := a * 262144 + b * 4096 + d * 64 + e;
    FourDigits(a, b, d, e);
  }

  lemma FrontIsScalar(s: Bytes) returns (c: nat)
    requires s != [] && Utf8Front(s) > 0
    ensures Scalar(c) && EncodeScalar(c) == s[..Utf8Front(s)]
  {
    if Utf8Front(s) == 1 {
      c := s[0];
    } else if Utf8Front(s) == 2 {
      c := FrontOfTwo(s);
    } else if Utf8Front(s) == 3 {
      c := FrontOfThree(s);
    } else {
      c := FrontOfFour(s);
    }
  }

  lemma {:induction false} TextIsUtf8(cs: seq<nat>)
    requires Scalars(cs)
    ensures Utf8(EncodeText(cs))
  {
    if cs != [] {
      ScalarIsFront(cs[0], EncodeText(cs[1..]));
      TextIsUtf8(cs[1..]);
    }
  }

  lemma {:induction false} Utf8IsText(s: Bytes) returns (cs: seq<nat>)
    requires Utf8(s)
    ensures Scalars(cs) && EncodeText(cs) == s
  {
    if s == [] {
      cs := [];
    } else {
      var n := Utf8Front(s);
      var c := FrontIsScalar(s);
      var rest := Utf8IsText(s[n..]);
      cs := [c] + rest;
      assert cs[1..] == rest;
      assert s == s[..n] + s[n..];
    }
  }

  /** Bytes are accepted as a string if and only if they are the encoding of some sequence of scalar values. */
  lemma Utf8Exactly(s: Bytes)
    ensures Utf8(s) <==> exists cs :: Scalars(cs) && EncodeText(cs) == s
  {
    if Utf8(s) {
      var cs := Utf8IsText(s);
    }
    forall cs | Scalars(cs) && EncodeText(cs) == s
      ensures Utf8(s)
    {
      TextIsUtf8(cs);
    }
  }
}
