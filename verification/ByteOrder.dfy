/** The order in which Rust compares strings: byte by byte, a proper prefix first. */
module ByteOrder {
  import opened Common
  import opened Entries

  predicate Less(a: Bytes, b: Bytes) {
    if b == [] then false
    else if a == [] then true
    else if a[0] != b[0] then a[0] < b[0]
    else Less(a[1..], b[1..])
  }

  lemma {:induction false} Irreflexive(a: Bytes)
    ensures !Less(a, a)
  {
    if a != [] {
      Irreflexive(a[1..]);
    }
  }

  lemma {:induction false} Transitive(a: Bytes, b: Bytes, c: Bytes)
    requires Less(a, b) && Less(b, c)
    ensures Less(a, c)
  {
    if a != [] && a[0] == b[0] == c[0] {
      Transitive(a[1..], b[1..], c[1..]);
    }
  }

  lemma {:induction false} Total(a: Bytes, b: Bytes)
    ensures Less(a, b) || a == b || Less(b, a)
  {
    if a != [] && b != [] && a[0] == b[0] {
      Total(a[1..], b[1..]);
      assert a == [a[0]] + a[1..] && b == [b[0]] + b[1..];
    }
  }

  /** So every result about claims, which is stated for any strict total order, holds for string keys. */
  lemma StringOrder()
    ensures StrictOrder(Less)
  {
    forall a: Bytes
      ensures !Less(a, a)
    {
      Irreflexive(a);
    }
    forall a: Bytes, b: Bytes, c: Bytes | Less(a, b) && Less(b, c)
      ensures Less(a, c)
    {
      Transitive(a, b, c);
    }
    forall a: Bytes, b: Bytes
      ensures Less(a, b) || a == b || Less(b, a)
    {
      Total(a, b);
    }
  }
}
