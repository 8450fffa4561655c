/** The probe sequence of the open-addressed table: triangular numbers modulo a power of two. */
module Probing {
  import Arith
  import opened FiniteSets

  function Pow2(m: nat): (p: nat)
    ensures p >= 1
  {
    if m == 0 then 1 else 2 * Pow2(m - 1)
  }

  predicate IsPow2(cap: nat) {
    cap == 1 || (cap > 1 && cap % 2 == 0 && IsPow2(cap / 2))
  }

  /** The j-th triangular number j(j+1)/2, as the running sum that the search loop builds. */
  function Tri(j: nat): nat {
    if j == 0 then 0 else Tri(j - 1) + j
  }

  /** Slot read in round `j` of a search that starts at hash `h`. */
  function ProbeAt(h: nat, j: nat, cap: nat): (i: nat)
    requires cap > 0
    ensures i < cap
  {
    (h + Tri(j)) % cap
  }

  lemma {:induction false} IsPow2Exponent(cap: nat) returns (m: nat)
    requires IsPow2(cap)
    ensures cap == Pow2(m)
  {
    if cap == 1 {
      m := 0;
    } else {
      var k := IsPow2Exponent(cap / 2);
      m := k + 1;
    }
  }

  lemma DoubledIsPow2(p: nat)
    requires IsPow2(p)
    ensures IsPow2(2 * p)
  {
    assert (2 * p) / 2 == p;
  }

  lemma {:induction false} TriClosedForm(j: nat)
    ensures 2 * Tri(j) == j * (j + 1)
  {
    if j > 0 {
      TriClosedForm(j - 1);
    }
  }

  /** One round of the loop: `index = (index + index_incr) % capacity`. */
  lemma ProbeStep(h: nat, j: nat, cap: nat)
    requires cap > 0
    ensures ProbeAt(h, j + 1, cap) == (ProbeAt(h, j, cap) + (j + 1)) % cap
  {
    var s := h + Tri(j);
    Arith.ModAdd(s, j + 1, cap);
  }

  lemma OddTimesOdd(x: nat, y: nat)
    ensures x % 2 == 1 && y % 2 == 1 ==> (x * y) % 2 == 1
  {
    if x % 2 == 1 && y % 2 == 1 {
      var a, b := x / 2, y / 2;
      assert x == 2 * a + 1 && y == 2 * b + 1;
      assert (2 * a + 1) * (2 * b + 1) == 2 * (2 * a * b + a + b) + 1;
    }
  }

  /** An odd factor carries no power of two. */
  lemma {:induction false} OddFactor(x: nat, y: nat, m: nat, q: nat) returns (w: nat)
    requires x % 2 == 1
    requires x * y == Pow2(m) * q
    ensures y == Pow2(m) * w
    decreases m
  {
    if m == 0 {
      w := y;
    } else {
      var p := Pow2(m - 1);
      Halve(x, y, p, q);
      w := OddFactor(x, y / 2, m - 1, q);
      DoubleProduct(p, w);
    }
  }

  lemma DoubleProduct(p: nat, w: nat)
    ensures 2 * (p * w) == (2 * p) * w
  {
  }

  lemma Halve(x: nat, y: nat, p: nat, q: nat)
    requires x % 2 == 1
    requires x * y == (2 * p) * q
    ensures y % 2 == 0 && x * (y / 2) == p * q
  {
    DoubleProduct(p, q);
    OddTimesOdd(x, y);
    assert (2 * (p * q)) % 2 == 0;
    assert y == 2 * (y / 2);
    assert x * y == 2 * (x * (y / 2));
  }

  /** Two different rounds below the table size never read the same slot. */
  lemma ProbeInjective(h: nat, a: nat, b: nat, m: nat)
    requires a < b < Pow2(m)
    ensures ProbeAt(h, a, Pow2(m)) != ProbeAt(h, b, Pow2(m))
  {
    if ProbeAt(h, a, Pow2(m)) == ProbeAt(h, b, Pow2(m)) {
      TriMonotone(a, b);
      var q := SameResidue(h + Tri(a), h + Tri(b), Pow2(m));
      TriDifference(a, b);
      DoubleProduct(Pow2(m), q);
      NotAMultiple(a, b, m, q);
      assert false;
    }
  }

  lemma SameResidue(u: nat, v: nat, n: nat) returns (q: nat)
    requires n > 0 && u <= v && u % n == v % n
    ensures v - u == n * q
  {
    var c, d := u / n, v / n;
    assert u == n * c + u % n && v == n * d + v % n;
    Arith.MulGap(n, d, c);
    q := d - c;
    assert n * (d - c) == n * d - n * c;
  }

  /** Twice the distance between two triangular numbers factors into numbers of opposite parity. */
  lemma TriDifference(a: nat, b: nat)
    requires a <= b
    ensures 2 * (Tri(b) - Tri(a)) == (b - a) * (a + b + 1)
  {
    TriClosedForm(a);
    TriClosedForm(b);
    assert (b - a) * (a + b + 1) == b * (b + 1) - a * (a + 1);
  }

  lemma TooSmall(x: nat, n: nat, w: nat)
    requires 0 < x < n
    ensures x != n * w
  {
    Arith.MulGap(n, 0, w);
  }

  lemma OddSmall(x: nat, y: nat, m: nat, q: nat)
    requires x % 2 == 1 && 0 < y < Pow2(m)
    ensures x * y != Pow2(m) * q
  {
    if x * y == Pow2(m) * q {
      var w := OddFactor(x, y, m, q);
      TooSmall(y, Pow2(m), w);
    }
  }

  lemma NotAMultiple(a: nat, b: nat, m: nat, q: nat)
    requires a < b < Pow2(m)
    ensures (b - a) * (a + b + 1) != Pow2(m + 1) * q
  {
    var d, s := b - a, a + b + 1;
    assert s == d + 2 * a + 1;
    if d % 2 == 1 {
      OddSmall(d, s, m + 1, q);
    } else {
      OddSmall(s, d, m + 1, q);
      Commute(d, s);
    }
  }

  lemma Commute(x: nat, y: nat)
    ensures x * y == y * x
  {
  }

  lemma {:induction false} TriMonotone(a: nat, b: nat)
    requires a < b
    ensures Tri(a) < Tri(b)
    decreases b
  {
    if a < b - 1 {
      TriMonotone(a, b - 1);
    }
  }

  /** The slots read in the first `k` rounds. */
  ghost function Visited(h: nat, k: nat, cap: nat): (s: set<nat>)
    requires cap > 0
  {
    set j | 0 <= j < k :: ProbeAt(h, j, cap)
  }

  lemma {:induction false} VisitedSize(h: nat, k: nat, m: nat)
    requires k <= Pow2(m)
    ensures |Visited(h, k, Pow2(m))| == k
  {
    var n := Pow2(m);
    if k > 0 {
      VisitedSize(h, k - 1, m);
      var before := Visited(h, k - 1, n);
      var last := ProbeAt(h, k - 1, n);
      assert Visited(h, k, n) == before + {last};
      forall j | 0 <= j < k - 1
        ensures ProbeAt(h, j, n) != last
      {
        ProbeInjective(h, j, k - 1, m);
      }
      assert last !in before;
    } else {
      assert Visited(h, 0, n) == {};
    }
  }

  /** A table of 2^m slots is read completely, each slot exactly once, in 2^m rounds. */
  lemma ProbeVisitsEverySlotOnce(h: nat, cap: nat, slot: nat)
    requires IsPow2(cap) && slot < cap
    ensures exists j :: 0 <= j < cap && ProbeAt(h, j, cap) == slot
    ensures forall a, b :: 0 <= a < cap && 0 <= b < cap && ProbeAt(h, a, cap) == slot && ProbeAt(h, b, cap) == slot ==> a == b
  {
    var m := IsPow2Exponent(cap);
    VisitedSize(h, cap, m);
    var all := UpTo(cap);
    var seen := Visited(h, cap, cap);
    assert seen <= all;
    SubsetSameSize(seen, all);
    assert slot in seen;
    forall a, b | 0 <= a < b < cap
      ensures ProbeAt(h, a, cap) != ProbeAt(h, b, cap)
    {
      ProbeInjective(h, a, b, m);
    }
  }
}
