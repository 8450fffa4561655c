/** Unsigned integers as a fixed number of bytes, in both byte orders. */
module FixedWidth {
  import opened Common

  function Limit(width: nat): (n: nat)
    ensures n >= 1
  {
    if width == 0 then 1 else 256 * Limit(width - 1)
  }

  lemma Limits()
    ensures Limit(1) == 0x100 && Limit(2) == 0x1_0000 && Limit(4) == 0x1_0000_0000
    ensures Limit(8) == 0x1_0000_0000_0000_0000
  {
    assert Limit(3) == 0x100_0000;
    assert Limit(5) == 0x100_0000_0000;
    assert Limit(6) == 0x1_0000_0000_0000;
    assert Limit(7) == 0x100_0000_0000_0000;
  }

  /** `n.to_be_bytes()`, with `n` cut down to the width. */
  function BigEndian(n: nat, width: nat): (b: Bytes)
    ensures |b| == width
  {
    if width == 0 then [] else BigEndian(n / 256, width - 1) + [n % 256]
  }

  function FromBigEndian(b: Bytes): nat {
    if b == [] then 0 else (b[|b| - 1] as nat) + 256 * FromBigEndian(b[..|b| - 1])
  }

  function LittleEndian(n: nat, width: nat): (b: Bytes)
    ensures |b| == width
  {
    if width == 0 then [] else [n % 256] + LittleEndian(n / 256, width - 1)
  }

  function FromLittleEndian(b: Bytes): nat {
    if b == [] then 0 else (b[0] as nat) + 256 * FromLittleEndian(b[1..])
  }

  lemma Digit(n: nat, low: byte, high: nat)
    ensures n == low + 256 * high <==> low == n % 256 && high == n / 256
  {
  }

  /** Bytes read as `n` exactly when they are what `n` is written as. */
  lemma {:induction false} BigEndianExactly(b: Bytes, n: nat)
    requires n < Limit(|b|)
    ensures FromBigEndian(b) == n <==> b == BigEndian(n, |b|)
  {
    if b != [] {
      var init, last := b[..|b| - 1], b[|b| - 1];
      BigEndianExactly(init, n / 256);
      Digit(n, last, FromBigEndian(init));
      assert b == init + [last];
      var w := BigEndian(n, |b|);
      assert w[..|b| - 1] == BigEndian(n / 256, |b| - 1) && w[|b| - 1] == n % 256;
    }
  }

  lemma {:induction false} LittleEndianExactly(b: Bytes, n: nat)
    requires n < Limit(|b|)
    ensures FromLittleEndian(b) == n <==> b == LittleEndian(n, |b|)
  {
    if b != [] {
      LittleEndianExactly(b[1..], n / 256);
      Digit(n, b[0], FromLittleEndian(b[1..]));
      assert b == [b[0]] + b[1..];
      var w := LittleEndian(n, |b|);
      assert w[1..] == LittleEndian(n / 256, |b| - 1) && w[0] == n % 256;
    }
  }

  lemma {:induction false} FromLittleEndianFits(b: Bytes)
    ensures FromLittleEndian(b) < Limit(|b|)
  {
    if b != [] {
      FromLittleEndianFits(b[1..]);
    }
  }
}
