/** Sorted key-value entries: the specification side of the claims operations. */
module Entries {
  import opened Common

  /** `lt` is a strict total order; Rust's order on `str` is one. */
  ghost predicate StrictOrder<K(!new)>(lt: (K, K) -> bool) {
    && (forall a :: !lt(a, a))
    && (forall a, b, c {:trigger lt(a, b), lt(b, c)} :: lt(a, b) && lt(b, c) ==> lt(a, c))
    && (forall a, b :: lt(a, b) || a == b || lt(b, a))
  }

  ghost predicate Increasing<K>(lt: (K, K) -> bool, keys: seq<K>) {
    forall i, j :: 0 <= i < j < |keys| ==> lt(keys[i], keys[j])
  }

  ghost predicate Sorted<K, V>(lt: (K, K) -> bool, es: seq<(K, V)>) {
    forall i, j :: 0 <= i < j < |es| ==> lt(es[i].0, es[j].0)
  }

  predicate HasKey<K(==), V>(es: seq<(K, V)>, k: K) {
    exists i :: 0 <= i < |es| && es[i].0 == k
  }

  lemma HasKeyTail<K, V>(es: seq<(K, V)>, k: K)
    requires es != []
    ensures HasKey(es, k) <==> es[0].0 == k || HasKey(es[1..], k)
  {
    var t := es[1..];
    if HasKey(es, k) && es[0].0 != k {
      var i :| 0 <= i < |es| && es[i].0 == k;
      assert t[i - 1] == es[i];
    }
    if HasKey(t, k) {
      var i :| 0 <= i < |t| && t[i].0 == k;
      assert es[i + 1] == t[i];
    }
  }

  /** The plain filter: entries whose key is wanted, in order. */
  ghost function Select<K, V>(es: seq<(K, V)>, want: set<K>): seq<(K, V)> {
    if es == [] then []
    else (if es[0].0 in want then [es[0]] else []) + Select(es[1..], want)
  }

  ghost function Without<K, V>(es: seq<(K, V)>, drop: set<K>): seq<(K, V)> {
    if es == [] then []
    else (if es[0].0 in drop then [] else [es[0]]) + Without(es[1..], drop)
  }

  ghost function KeySet<K>(keys: seq<K>): set<K> {
    set k | k in keys
  }

  /** Number of leading keys that are present. */
  ghost function FirstAbsent<K, V>(es: seq<(K, V)>, keys: seq<K>): (p: nat)
    ensures p <= |keys|
    ensures forall i :: 0 <= i < p ==> HasKey(es, keys[i])
    ensures p < |keys| ==> !HasKey(es, keys[p])
  {
    if keys == [] || !HasKey(es, keys[0]) then 0 else 1 + FirstAbsent(es, keys[1..])
  }

  ghost predicate AllPresent<K, V>(es: seq<(K, V)>, keys: seq<K>) {
    forall i :: 0 <= i < |keys| ==> HasKey(es, keys[i])
  }

  /** No present key comes after an absent one: something a caller can check. */
  ghost predicate PresentFirst<K, V>(es: seq<(K, V)>, keys: seq<K>) {
    forall i, j :: 0 <= i < j < |keys| && HasKey(es, keys[j]) ==> HasKey(es, keys[i])
  }

  lemma {:induction false} SelectCong<K, V>(es: seq<(K, V)>, a: set<K>, b: set<K>)
    requires forall i :: 0 <= i < |es| ==> (es[i].0 in a <==> es[i].0 in b)
    ensures Select(es, a) == Select(es, b)
  {
    if es != [] {
      SelectCong(es[1..], a, b);
    }
  }

  lemma {:induction false} WithoutCong<K, V>(es: seq<(K, V)>, a: set<K>, b: set<K>)
    requires forall i :: 0 <= i < |es| ==> (es[i].0 in a <==> es[i].0 in b)
    ensures Without(es, a) == Without(es, b)
  {
    if es != [] {
      WithoutCong(es[1..], a, b);
    }
  }

  lemma {:induction false} SelectConcat<K, V>(a: seq<(K, V)>, b: seq<(K, V)>, want: set<K>)
    ensures Select(a + b, want) == Select(a, want) + Select(b, want)
  {
    if a == [] {
      assert a + b == b;
    } else {
      ConcatTail(a, b);
      SelectConcat(a[1..], b, want);
      Associate(if a[0].0 in want then [a[0]] else [], Select(a[1..], want), Select(b, want));
    }
  }

  lemma ConcatTail<T>(a: seq<T>, b: seq<T>)
    requires a != []
    ensures (a + b)[0] == a[0] && (a + b)[1..] == a[1..] + b
  {
  }

  lemma {:induction false} SelectSize<K, V>(es: seq<(K, V)>, a: set<K>, b: set<K>, i: nat)
    requires a <= b && i < |es| && es[i].0 in b && es[i].0 !in a
    ensures Select(es, a) != Select(es, b) && Without(es, a) != Without(es, b)
  {
    SelectGrows(es, a, b);
    SelectGrowsAt(es, a, b, i);
  }

  lemma {:induction false} SelectGrows<K, V>(es: seq<(K, V)>, a: set<K>, b: set<K>)
    requires a <= b
    ensures |Select(es, a)| <= |Select(es, b)| && |Without(es, b)| <= |Without(es, a)|
  {
    if es != [] {
      SelectGrows(es[1..], a, b);
    }
  }

  lemma {:induction false} SelectGrowsAt<K, V>(es: seq<(K, V)>, a: set<K>, b: set<K>, i: nat)
    requires a <= b && i < |es| && es[i].0 in b && es[i].0 !in a
    ensures |Select(es, a)| < |Select(es, b)| && |Without(es, b)| < |Without(es, a)|
  {
    if i == 0 {
      SelectGrows(es[1..], a, b);
    } else {
      SelectGrowsAt(es[1..], a, b, i - 1);
    }
  }

  /** Taking only the keys before the first absent one is right exactly when no present key follows it. */
  lemma PrefixIsEnoughExactly<K, V>(es: seq<(K, V)>, keys: seq<K>)
    requires forall i, j :: 0 <= i < j < |keys| ==> keys[i] != keys[j]
    ensures var p := FirstAbsent(es, keys);
      && (Select(es, KeySet(keys[..p])) == Select(es, KeySet(keys)) <==> PresentFirst(es, keys))
      && (Without(es, KeySet(keys[..p])) == Without(es, KeySet(keys)) <==> PresentFirst(es, keys))
  {
    var p := FirstAbsent(es, keys);
    var a, b := KeySet(keys[..p]), KeySet(keys);
    assert a <= b;
    if PresentFirst(es, keys) {
      forall i | 0 <= i < |es|
        ensures es[i].0 in a <==> es[i].0 in b
      {
        if es[i].0 in b {
          var j :| 0 <= j < |keys| && keys[j] == es[i].0;
          assert HasKey(es, keys[j]);
          assert j < p;
          assert keys[..p][j] == keys[j];
        }
      }
      SelectCong(es, a, b);
      WithoutCong(es, a, b);
    } else {
      var i, j :| 0 <= i < j < |keys| && HasKey(es, keys[j]) && !HasKey(es, keys[i]);
      var n :| 0 <= n < |es| && es[n].0 == keys[j];
      assert es[n].0 !in a;
      SelectSize(es, a, b, n);
    }
  }
}
