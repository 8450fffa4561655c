/** Base64url without padding: sections 4, 5 and 3.2 of RFC 4648. Characters are their ASCII codes. */
module Base64Url {
  import opened Common

  function Char(v: nat): byte
    requires v < 64
  {
    if v < 26 then 65 + v
    else if v < 52 then 97 + (v - 26)
    else if v < 62 then 48 + (v - 52)
    else if v == 62 then 45
    else 95
  }

  function Value(c: byte): (v: Option<nat>)
    ensures v.Some? ==> v.value < 64
  {
    if 65 <= c <= 90 then Some(c - 65)
    else if 97 <= c <= 122 then Some(c - 97 + 26)
    else if 48 <= c <= 57 then Some(c - 48 + 52)
    else if c == 45 then Some(62)
    else if c == 95 then Some(63)
    else None
  }

  lemma CharValue(v: nat, c: byte)
    requires v < 64
    ensures Value(c) == Some(v) <==> c == Char(v)
  {
  }

  function Encode(s: Bytes): (t: Bytes)
    ensures |t| == |s| / 3 * 4 + (if |s| % 3 == 0 then 0 else |s| % 3 + 1)
  {
    if s == [] then []
    else if |s| == 1 then [Char(s[0] / 4), Char(s[0] % 4 * 16)]
    else if |s| == 2 then [Char(s[0] / 4), Char(s[0] % 4 * 16 + s[1] / 16), Char(s[1] % 16 * 4)]
    else EncodeThree(s[0], s[1], s[2]) + Encode(s[3..])
  }

  function EncodeThree(a: byte, b: byte, c: byte): (t: Bytes)
    ensures |t| == 4
  {
    [Char(a / 4), Char(a % 4 * 16 + b / 16), Char(b % 16 * 4 + c / 64), Char(c % 64)]
  }

  function DecodeFour(a: byte, b: byte, c: byte, d: byte): (r: Option<Bytes>)
    ensures r.Some? ==> |r.value| == 3
  {
    match (Value(a), Value(b), Value(c), Value(d))
    case (Some(w), Some(x), Some(y), Some(z)) => Some([w * 4 + x / 16, x % 16 * 16 + y / 4, y % 4 * 64 + z])
    case _ => None
  }

  function DecodeThree(a: byte, b: byte, c: byte): Option<Bytes> {
    match (Value(a), Value(b), Value(c))
    case (Some(w), Some(x), Some(y)) => if y % 4 == 0 then Some([w * 4 + x / 16, x % 16 * 16 + y / 4]) else None
    case _ => None
  }

  function DecodeTwo(a: byte, b: byte): Option<Bytes> {
    match (Value(a), Value(b))
    case (Some(w), Some(x)) => if x % 16 == 0 then Some([w * 4 + x / 16]) else None
    case _ => None
  }

  /** Strict decoding: no padding, no other characters, no left-over bits, no single last character. */
  function Decode(t: Bytes): Option<Bytes> {
    if t == [] then Some([])
    else if |t| == 1 then None
    else if |t| == 2 then DecodeTwo(t[0], t[1])
    else if |t| == 3 then DecodeThree(t[0], t[1], t[2])
    else
      match (DecodeFour(t[0], t[1], t[2], t[3]), Decode(t[4..]))
      case (Some(a), Some(b)) => Some(a + b)
      case _ => None
  }

  /** Three bytes and four characters' values are the same 24 bits. */
  lemma FourBits(w: nat, v: nat, y: nat, z: nat, p: byte, q: byte, r: byte)
    requires w < 64 && v < 64 && y < 64 && z < 64
    ensures p == w * 4 + v / 16 && q == v % 16 * 16 + y / 4 && r == y % 4 * 64 + z
      <==> w == p / 4 && v == p % 4 * 16 + q / 16 && y == q % 16 * 4 + r / 64 && z == r % 64
  {
  }

  lemma FourValues(a: byte, b: byte, c: byte, d: byte, p: byte, q: byte, r: byte)
    ensures DecodeFour(a, b, c, d) == Some([p, q, r]) <==>
      Value(a) == Some(p / 4) && Value(b) == Some(p % 4 * 16 + q / 16) && Value(c) == Some(q % 16 * 4 + r / 64)
      && Value(d) == Some(r % 64)
  {
    match (Value(a), Value(b), Value(c), Value(d))
    case (Some(w), Some(v), Some(y), Some(z)) =>
      var three := [w * 4 + v / 16, v % 16 * 16 + y / 4, y % 4 * 64 + z];
      assert three == [p, q, r] <==> three[0] == p && three[1] == q && three[2] == r;
      FourBits(w, v, y, z, p, q, r);
    case _ =>
  }

  lemma FourExactly(a: byte, b: byte, c: byte, d: byte, p: byte, q: byte, r: byte)
    ensures DecodeFour(a, b, c, d) == Some([p, q, r]) <==>
      a == Char(p / 4) && b == Char(p % 4 * 16 + q / 16) && c == Char(q % 16 * 4 + r / 64) && d == Char(r % 64)
  {
    FourValues(a, b, c, d, p, q, r);
    CharValue(p / 4, a);
    CharValue(p % 4 * 16 + q / 16, b);
    CharValue(q % 16 * 4 + r / 64, c);
    CharValue(r % 64, d);
  }

  lemma ThreeValues(a: byte, b: byte, c: byte, p: byte, q: byte)
    ensures DecodeThree(a, b, c) == Some([p, q]) <==>
      Value(a) == Some(p / 4) && Value(b) == Some(p % 4 * 16 + q / 16) && Value(c) == Some(q % 16 * 4)
  {
    match (Value(a), Value(b), Value(c))
    case (Some(w), Some(v), Some(y)) =>
      var two := [w * 4 + v / 16, v % 16 * 16 + y / 4];
      assert two == [p, q] <==> two[0] == p && two[1] == q;
      FourBits(w, v, y, 0, p, q, y % 4 * 64);
    case _ =>
  }

  lemma ThreeExactly(a: byte, b: byte, c: byte, p: byte, q: byte)
    ensures DecodeThree(a, b, c) == Some([p, q]) <==>
      a == Char(p / 4) && b == Char(p % 4 * 16 + q / 16) && c == Char(q % 16 * 4)
  {
    ThreeValues(a, b, c, p, q);
    CharValue(p / 4, a);
    CharValue(p % 4 * 16 + q / 16, b);
    CharValue(q % 16 * 4, c);
  }

  lemma TwoExactly(a: byte, b: byte, p: byte)
    ensures DecodeTwo(a, b) == Some([p]) <==> a == Char(p / 4) && b == Char(p % 4 * 16)
  {
    CharValue(p / 4, a);
    CharValue(p % 4 * 16, b);
  }

  lemma FourTogether(t: Bytes, p: byte, q: byte, r: byte)
    requires |t| == 4
    ensures DecodeFour(t[0], t[1], t[2], t[3]) == Some([p, q, r]) <==> t == EncodeThree(p, q, r)
  {
    FourExactly(t[0], t[1], t[2], t[3], p, q, r);
    assert t == [t[0], t[1], t[2], t[3]];
    var e := EncodeThree(p, q, r);
    assert t == e <==> t[0] == e[0] && t[1] == e[1] && t[2] == e[2] && t[3] == e[3];
  }

  function Both(a: Option<Bytes>, b: Option<Bytes>): Option<Bytes> {
    if a.Some? && b.Some? then Some(a.value + b.value) else None
  }

  lemma Glue(t: Bytes, head: Option<Bytes>, tail: Option<Bytes>, s: Bytes, e: Bytes, f: Bytes)
    requires |t| >= 4 && |s| >= 3 && |e| == 4 && (head.Some? ==> |head.value| == 3)
    requires head == Some(s[..3]) <==> t[..4] == e
    requires tail == Some(s[3..]) <==> t[4..] == f
    ensures Both(head, tail) == Some(s) <==> t == e + f
  {
    assert t == t[..4] + t[4..] && s == s[..3] + s[3..];
    HeadsAndTails(t[..4], t[4..], e, f);
    if head.Some? && tail.Some? {
      HeadsAndTails(head.value, tail.value, s[..3], s[3..]);
    }
  }

  /** A text decodes to exactly the bytes of which it is the encoding. */
  lemma {:induction false} DecodesExactly(t: Bytes, s: Bytes)
    ensures Decode(t) == Some(s) <==> t == Encode(s)
    decreases |t|
  {
    if |t| >= 4 {
      ManyExactly(t, s);
    } else if |t| == 3 {
      assert t == [t[0], t[1], t[2]];
      if |s| == 2 {
        assert s == [s[0], s[1]];
        ThreeExactly(t[0], t[1], t[2], s[0], s[1]);
      }
    } else if |t| == 2 {
      assert t == [t[0], t[1]];
      if |s| == 1 {
        assert s == [s[0]];
        TwoExactly(t[0], t[1], s[0]);
      }
    }
  }

  lemma {:induction false} ManyExactly(t: Bytes, s: Bytes)
    requires |t| >= 4
    ensures Decode(t) == Some(s) <==> t == Encode(s)
    decreases |t|, 0
  {
    var head := DecodeFour(t[0], t[1], t[2], t[3]);
    assert Decode(t) == Both(head, Decode(t[4..]));
    if |s| >= 3 {
      assert s[..3] == [s[0], s[1], s[2]];
      FourTogether(t[..4], s[0], s[1], s[2]);
      DecodesExactly(t[4..], s[3..]);
      Glue(t, head, Decode(t[4..]), s, EncodeThree(s[0], s[1], s[2]), Encode(s[3..]));
    }
  }

  lemma HeadsAndTails<T>(a: seq<T>, b: seq<T>, c: seq<T>, d: seq<T>)
    requires |a| == |c|
    ensures a + b == c + d <==> a == c && b == d
  {
    assert (a + b)[..|a|] == a && (a + b)[|a|..] == b;
    assert (c + d)[..|a|] == c && (c + d)[|a|..] == d;
  }
}
