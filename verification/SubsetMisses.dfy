/** What the two selection algorithms report, and give up, when wanted keys are not held. */
module SubsetMisses {
  import opened Common
  import opened Entries
  import opened Subset
  import opened SubsetOrder

  // ---- the binary split ----

  /** The middle wanted key is looked up among all the entries, and if it is there both halves of the wanted keys follow. */
  ghost function Lookups<K, V>(es: seq<(K, V)>, keys: seq<K>): seq<FindResult<K, V>>
    decreases |keys|
  {
    if keys == [] then []
    else
      var mid := |keys| / 2;
      if HasKey(es, keys[mid]) then
        [Found(keys[mid], es[IndexOf(es, keys[mid])].1)] + Lookups(es, keys[mid + 1..]) + Lookups(es, keys[..mid])
      else [NotFound(keys[mid])]
  }

  /** The two sequences hold the same value for every one of the keys, or none. */
  ghost predicate SameFor<K, V>(a: seq<(K, V)>, b: seq<(K, V)>, keys: seq<K>) {
    forall i :: 0 <= i < |keys| ==>
      && (HasKey(a, keys[i]) <==> HasKey(b, keys[i]))
      && (HasKey(a, keys[i]) ==> a[IndexOf(a, keys[i])].1 == b[IndexOf(b, keys[i])].1)
  }

  lemma {:induction false} LookupsCong<K, V>(a: seq<(K, V)>, b: seq<(K, V)>, keys: seq<K>)
    requires SameFor(a, b, keys)
    ensures Lookups(a, keys) == Lookups(b, keys)
    decreases |keys|
  {
    if keys != [] {
      var mid := |keys| / 2;
      if HasKey(a, keys[mid]) {
        SamePart(a, b, keys, mid);
        LookupsCong(a, b, keys[..mid]);
        LookupsCong(a, b, keys[mid + 1..]);
      }
    }
  }

  lemma SamePart<K, V>(a: seq<(K, V)>, b: seq<(K, V)>, keys: seq<K>, mid: nat)
    requires SameFor(a, b, keys) && mid < |keys|
    ensures SameFor(a, b, keys[..mid]) && SameFor(a, b, keys[mid + 1..])
  {
    var right := keys[mid + 1..];
    assert forall i :: 0 <= i < |right| ==> right[i] == keys[mid + 1 + i];
  }

  /** In sorted entries a key is found at one place only. */
  lemma ValueAt<K(!new), V>(lt: (K, K) -> bool, es: seq<(K, V)>, i: nat)
    requires StrictOrder(lt) && Sorted(lt, es) && i < |es|
    ensures HasKey(es, es[i].0) && es[IndexOf(es, es[i].0)] == es[i]
  {
    assert HasKey(es, es[i].0);
    var j := IndexOf(es, es[i].0);
    assert es[j].0 == es[i].0;
  }

  lemma ValueWithin<K(!new), V>(lt: (K, K) -> bool, es: seq<(K, V)>, lo: nat, hi: nat, k: K)
    requires StrictOrder(lt) && Sorted(lt, es) && lo <= hi <= |es| && HasKey(es[lo..hi], k)
    ensures HasKey(es, k) && es[lo..hi][IndexOf(es[lo..hi], k)] == es[IndexOf(es, k)]
  {
    var part := es[lo..hi];
    var i := IndexOf(part, k);
    assert part[i] == es[lo + i];
    ValueAt(lt, es, lo + i);
  }

  lemma HalvesSame<K(!new), V>(lt: (K, K) -> bool, es: seq<(K, V)>, subset: seq<K>, mid: nat, left: seq<(K, V)>,
                               right: seq<(K, V)>)
    requires StrictOrder(lt) && Sorted(lt, es) && Increasing(lt, subset) && mid < |subset| && HasKey(es, subset[mid])
    requires left == es[..IndexOf(es, subset[mid])] && right == es[IndexOf(es, subset[mid]) + 1..]
    ensures SameFor(left, es, subset[..mid]) && SameFor(right, es, subset[mid + 1..])
  {
    var k := IndexOf(es, subset[mid]);
    PivotSplits(lt, es, subset, mid);
    assert left == es[0..k] && right == es[k + 1..|es|];
    forall i | 0 <= i < mid && HasKey(left, subset[i])
      ensures left[IndexOf(left, subset[i])].1 == es[IndexOf(es, subset[i])].1
    {
      ValueWithin(lt, es, 0, k, subset[i]);
    }
    forall i | mid < i < |subset| && HasKey(right, subset[i])
      ensures right[IndexOf(right, subset[i])].1 == es[IndexOf(es, subset[i])].1
    {
      ValueWithin(lt, es, k + 1, |es|, subset[i]);
    }
    var keys := subset[mid + 1..];
    assert forall i :: 0 <= i < |keys| ==> keys[i] == subset[mid + 1 + i];
  }

  /** The shrinking ranges lose nothing: every wanted key that is looked at is looked up as if among all the entries. */
  lemma {:induction false} SplitIsLookups<K(!new), V>(lt: (K, K) -> bool, es: seq<(K, V)>, subset: seq<K>)
    requires StrictOrder(lt) && Sorted(lt, es) && Increasing(lt, subset)
    ensures Split(es, subset) == Lookups(es, subset)
    decreases |subset|
  {
    if subset != [] {
      var mid := |subset| / 2;
      if HasKey(es, subset[mid]) {
        var k := IndexOf(es, subset[mid]);
        var left, right := es[..k], es[k + 1..];
        SplitOnce(es, subset);
        PivotSplits(lt, es, subset, mid);
        HalvesSame(lt, es, subset, mid, left, right);
        SplitIsLookups(lt, right, subset[mid + 1..]);
        SplitIsLookups(lt, left, subset[..mid]);
        LookupsCong(right, es, subset[mid + 1..]);
        LookupsCong(left, es, subset[..mid]);
      }
    }
  }

  lemma {:induction false} MissesConcat<K, V>(a: seq<FindResult<K, V>>, b: seq<FindResult<K, V>>)
    ensures Misses(a + b) == Misses(a) + Misses(b)
  {
    if a == [] {
      assert a + b == b;
    } else {
      ConcatTail(a, b);
      MissesConcat(a[1..], b);
      Associate(if a[0].NotFound? then [a[0].wanted] else [], Misses(a[1..]), Misses(b));
    }
  }

  lemma {:induction false} MissesAround<K, V>(k: K, v: V, r: seq<FindResult<K, V>>, l: seq<FindResult<K, V>>)
    ensures Misses([Found(k, v)] + r + l) == Misses(r) + Misses(l)
  {
    MissesConcat([Found(k, v)] + r, l);
    MissesConcat([Found(k, v)], r);
    assert Misses([Found(k, v)]) == [];
  }

  lemma {:induction false} LookupMisses<K, V>(es: seq<(K, V)>, keys: seq<K>, mid: nat)
    returns (right: seq<K>, left: seq<K>)
    requires keys != [] && mid == |keys| / 2 && HasKey(es, keys[mid])
    ensures right == Misses(Lookups(es, keys[mid + 1..])) && left == Misses(Lookups(es, keys[..mid]))
    ensures Misses(Lookups(es, keys)) == right + left
  {
    right, left := Misses(Lookups(es, keys[mid + 1..])), Misses(Lookups(es, keys[..mid]));
    MissesAround(keys[mid], es[IndexOf(es, keys[mid])].1, Lookups(es, keys[mid + 1..]), Lookups(es, keys[..mid]));
  }

  lemma {:induction false} LookupMiss<K, V>(es: seq<(K, V)>, keys: seq<K>, mid: nat)
    requires keys != [] && mid == |keys| / 2 && !HasKey(es, keys[mid])
    ensures Misses(Lookups(es, keys)) == [keys[mid]]
  {
  }

  lemma {:induction false} MissIsAbsent<K, V>(es: seq<(K, V)>, keys: seq<K>, k: K)
    requires k in Misses(Lookups(es, keys))
    ensures k in keys && !HasKey(es, k)
    decreases |keys|
  {
    var mid := |keys| / 2;
    if HasKey(es, keys[mid]) {
      var right, left := LookupMisses(es, keys, mid);
      assert k in right || k in left;
      if k in right {
        MissIsAbsent(es, keys[mid + 1..], k);
      } else {
        MissIsAbsent(es, keys[..mid], k);
      }
    } else {
      LookupMiss(es, keys, mid);
    }
  }

  lemma {:induction false} NoMissesExactly<K, V>(es: seq<(K, V)>, keys: seq<K>)
    ensures Misses(Lookups(es, keys)) == [] <==> AllPresent(es, keys)
    decreases |keys|
  {
    if keys != [] {
      var mid := |keys| / 2;
      if HasKey(es, keys[mid]) {
        var right, left := LookupMisses(es, keys, mid);
        NoMissesExactly(es, keys[..mid]);
        NoMissesExactly(es, keys[mid + 1..]);
        PresentByParts(es, keys, mid);
      } else {
        LookupMiss(es, keys, mid);
      }
    }
  }

  /** What is reported missing is wanted and really not there, and something is unless every wanted key is there. */
  lemma MissesAreAbsent<K, V>(es: seq<(K, V)>, keys: seq<K>)
    ensures forall k :: k in Misses(Lookups(es, keys)) ==> k in keys && !HasKey(es, k)
    ensures Misses(Lookups(es, keys)) == [] <==> AllPresent(es, keys)
  {
    NoMissesExactly(es, keys);
    forall k | k in Misses(Lookups(es, keys))
      ensures k in keys && !HasKey(es, k)
    {
      MissIsAbsent(es, keys, k);
    }
  }

  lemma PresentByParts<K, V>(es: seq<(K, V)>, keys: seq<K>, mid: nat)
    requires mid < |keys| && HasKey(es, keys[mid])
    ensures AllPresent(es, keys) <==> AllPresent(es, keys[..mid]) && AllPresent(es, keys[mid + 1..])
  {
    var left, right := keys[..mid], keys[mid + 1..];
    assert forall i :: 0 <= i < mid ==> left[i] == keys[i];
    assert forall i :: mid < i < |keys| ==> keys[i] == right[i - mid - 1];
  }

  // ---- the linear merge ----

  /** Number of entries above a key. */
  ghost function Above<K, V>(lt: (K, K) -> bool, es: seq<(K, V)>, k: K): nat {
    if es == [] then 0 else (if lt(k, es[0].0) then 1 else 0) + Above(lt, es[1..], k)
  }

  ghost function Repeat<K>(k: K, n: nat): seq<K> {
    if n == 0 then [] else [k] + Repeat(k, n - 1)
  }

  /** The merge reports the first absent key, once for every entry above it, and no other key. */
  lemma {:induction false} LinearMisses<K(!new), V>(lt: (K, K) -> bool, es: seq<(K, V)>, subset: seq<K>)
    requires StrictOrder(lt) && Sorted(lt, es) && Increasing(lt, subset) && subset != []
    ensures var p := FirstAbsent(es, subset);
      Misses(Linear(lt, es, subset)) == if p == |subset| then [] else Repeat(subset[p], Above(lt, es, subset[p]))
    decreases |es|
  {
    if es != [] {
      TailFacts(lt, es, subset);
      var p := FirstAbsent(es, subset);
      var t := es[1..];
      if subset[0] == es[0].0 {
        if |subset| > 1 {
          LinearMisses(lt, t, subset[1..]);
          MissesConcat([Found(es[0].0, es[0].1)], Linear(lt, t, subset[1..]));
          assert p < |subset| ==> lt(subset[0], subset[p]);
        } else {
          assert Linear(lt, es, subset) == [Found(es[0].0, es[0].1)];
        }
      } else {
        LinearMisses(lt, t, subset);
        if lt(subset[0], es[0].0) {
          BelowAllAbsent(lt, es, subset[0]);
          MissesConcat([NotFound(subset[0])], Linear(lt, t, subset));
        } else {
          assert [] + Linear(lt, t, subset) == Linear(lt, t, subset);
          assert p < |subset| ==> lt(es[0].0, subset[p]);
        }
      }
    }
  }

  lemma BelowAllAbsent<K(!new), V>(lt: (K, K) -> bool, es: seq<(K, V)>, k: K)
    requires StrictOrder(lt) && Sorted(lt, es) && es != [] && lt(k, es[0].0)
    ensures !HasKey(es, k)
  {
    if HasKey(es, k) {
      FirstIsLeast(lt, es, k);
    }
  }
}
