/** The order in which the two selection algorithms emit, which is also the order of the claims they return. */
module SubsetOrder {
  import opened Entries
  import opened Subset

  /** The wanted keys that are reported missing, in order of emission. */
  ghost function Misses<K, V>(out: seq<FindResult<K, V>>): seq<K> {
    if out == [] then []
    else (if out[0].NotFound? then [out[0].wanted] else []) + Misses(out[1..])
  }

  lemma {:induction false} AllFound<K, V>(out: seq<FindResult<K, V>>)
    requires NothingMissed(out)
    ensures |Hits(out)| == |out| && Misses(out) == []
  {
    if out != [] {
      AllFound(out[1..]);
    }
  }

  lemma PresentExactly<K, V>(es: seq<(K, V)>, keys: seq<K>)
    ensures AllPresent(es, keys) <==> FirstAbsent(es, keys) == |keys|
  {
  }

  lemma {:induction false} LinearMissesNothing<K(!new), V>(lt: (K, K) -> bool, es: seq<(K, V)>, subset: seq<K>)
    requires StrictOrder(lt) && Sorted(lt, es) && Increasing(lt, subset) && subset != [] && AllPresent(es, subset)
    ensures NothingMissed(Linear(lt, es, subset)) && |Linear(lt, es, subset)| == |subset|
    decreases |es|
  {
    assert HasKey(es, subset[0]);
    TailFacts(lt, es, subset);
    PresentExactly(es, subset);
    if subset[0] == es[0].0 {
      if |subset| > 1 {
        PresentExactly(es[1..], subset[1..]);
        LinearMissesNothing(lt, es[1..], subset[1..]);
      }
    } else {
      FirstIsLeast(lt, es, subset[0]);
      PresentExactly(es[1..], subset);
      LinearMissesNothing(lt, es[1..], subset);
    }
  }

  lemma FirstIsLeast<K(!new), V>(lt: (K, K) -> bool, es: seq<(K, V)>, k: K)
    requires StrictOrder(lt) && Sorted(lt, es) && HasKey(es, k)
    ensures !lt(k, es[0].0)
  {
    var i :| 0 <= i < |es| && es[i].0 == k;
    assert i == 0 || lt(es[0].0, es[i].0);
  }

  lemma {:induction false} SelectKeepsOrder<K(!new), V>(lt: (K, K) -> bool, es: seq<(K, V)>, want: set<K>)
    requires StrictOrder(lt) && Sorted(lt, es)
    ensures Sorted(lt, Select(es, want)) && forall i :: 0 <= i < |Select(es, want)| ==> Select(es, want)[i] in es
  {
    if es != [] {
      var t := es[1..];
      SelectKeepsOrder(lt, t, want);
      var st := Select(t, want);
      forall i | 0 <= i < |st|
        ensures st[i] in es && lt(es[0].0, st[i].0)
      {
        var j :| 0 <= j < |t| && t[j] == st[i];
        assert es[j + 1] == st[i];
      }
    }
  }

  /** Everything the split finds is one of the entries. */
  lemma HitsAreEntries<K(!new), V>(lt: (K, K) -> bool, es: seq<(K, V)>, subset: seq<K>, i: nat)
    requires StrictOrder(lt) && Sorted(lt, es) && Increasing(lt, subset) && i < |Hits(Split(es, subset))|
    ensures Hits(Split(es, subset))[i] in es
  {
    SplitIsFilterExactly(lt, es, subset);
    SelectKeepsOrder(lt, es, KeySet(subset));
    var hits, sel := Hits(Split(es, subset)), Select(es, KeySet(subset));
    assert hits[i] in multiset(hits);
    assert hits[i] in multiset(sel);
    assert hits[i] in sel;
  }

  /**
   * No visited middle key comes after something found to its left: what a caller can check, from which keys are present,
   * to know that the split emits in key order.
   */
  ghost predicate InOrder<K, V>(es: seq<(K, V)>, subset: seq<K>)
    decreases |subset|
  {
    subset == [] ||
    var mid := |subset| / 2;
    HasKey(es, subset[mid]) ==> (mid == 0 || !HasKey(es, subset[mid / 2])) && InOrder(es, subset[mid + 1..])
  }

  lemma {:induction false} InOrderCong<K, V>(a: seq<(K, V)>, b: seq<(K, V)>, subset: seq<K>)
    requires forall i :: 0 <= i < |subset| ==> (HasKey(a, subset[i]) <==> HasKey(b, subset[i]))
    ensures InOrder(a, subset) <==> InOrder(b, subset)
    decreases |subset|
  {
    if subset != [] {
      InOrderCong(a, b, subset[|subset| / 2 + 1..]);
    }
  }

  /** Some entry comes after one with a higher key. */
  ghost predicate Descends<K, V>(lt: (K, K) -> bool, es: seq<(K, V)>) {
    exists i, j :: 0 <= i < j < |es| && lt(es[j].0, es[i].0)
  }

  lemma SortedOrDescends<K(!new), V>(lt: (K, K) -> bool, es: seq<(K, V)>)
    requires StrictOrder(lt)
    ensures !(Sorted(lt, es) && Descends(lt, es))
  {
  }

  lemma HitsWithin<K(!new), V>(lt: (K, K) -> bool, es: seq<(K, V)>, subset: seq<K>, hits: seq<(K, V)>)
    requires StrictOrder(lt) && Sorted(lt, es) && Increasing(lt, subset) && hits == Hits(Split(es, subset))
    ensures forall h :: h in hits ==> h in es
  {
    forall h | h in hits
      ensures h in es
    {
      var i :| 0 <= i < |hits| && hits[i] == h;
      HitsAreEntries(lt, es, subset, i);
    }
  }

  lemma PivotBounds<K, V>(lt: (K, K) -> bool, es: seq<(K, V)>, k: nat, left: seq<(K, V)>, right: seq<(K, V)>)
    requires Sorted(lt, es) && k < |es| && left == es[..k] && right == es[k + 1..]
    ensures forall h :: h in left ==> lt(h.0, es[k].0)
    ensures forall h :: h in right ==> lt(es[k].0, h.0)
  {
    forall h | h in right
      ensures lt(es[k].0, h.0)
    {
      var j :| 0 <= j < |right| && right[j] == h;
      assert es[k + 1 + j] == h;
    }
  }

  lemma FirstInOrder<K, V>(lt: (K, K) -> bool, e: (K, V), r: seq<(K, V)>)
    requires Sorted(lt, r) && forall h :: h in r ==> lt(e.0, h.0)
    ensures Sorted(lt, [e] + r)
  {
    var all := [e] + r;
    assert forall i :: 0 < i < |all| ==> all[i] == r[i - 1] && all[i] in r;
  }

  lemma DescendsLater<K, V>(lt: (K, K) -> bool, e: (K, V), r: seq<(K, V)>, l: seq<(K, V)>)
    requires Descends(lt, r)
    ensures Descends(lt, [e] + r + l)
  {
    var all := [e] + r + l;
    var i, j :| 0 <= i < j < |r| && lt(r[j].0, r[i].0);
    assert all[i + 1] == r[i] && all[j + 1] == r[j];
  }

  lemma DescendsToLast<K, V>(lt: (K, K) -> bool, e: (K, V), r: seq<(K, V)>, l: seq<(K, V)>)
    requires l != [] && forall h :: h in l ==> lt(h.0, e.0)
    ensures Descends(lt, [e] + r + l)
  {
    var all := [e] + r + l;
    assert all[|all| - 1] == l[|l| - 1] && all[0] == e;
    assert l[|l| - 1] in l;
  }

  /** An entry, then higher ones, then lower ones. */
  lemma EntryFirst<K(!new), V>(lt: (K, K) -> bool, e: (K, V), r: seq<(K, V)>, l: seq<(K, V)>)
    requires forall h :: h in r ==> lt(e.0, h.0)
    requires forall h :: h in l ==> lt(h.0, e.0)
    ensures l == [] && Sorted(lt, r) ==> Sorted(lt, [e] + r + l)
    ensures l != [] || Descends(lt, r) ==> Descends(lt, [e] + r + l)
  {
    if l != [] {
      DescendsToLast(lt, e, r, l);
    } else {
      assert [e] + r + l == [e] + r;
      if Descends(lt, r) {
        DescendsLater(lt, e, r, l);
      }
      if Sorted(lt, r) {
        FirstInOrder(lt, e, r);
      }
    }
  }

  lemma LeftHits<K(!new), V>(es: seq<(K, V)>, left: seq<(K, V)>, subset: seq<K>, keys: seq<K>, mid: nat)
    requires mid < |subset| && keys == subset[..mid]
    requires forall j :: 0 <= j < mid ==> (HasKey(left, subset[j]) <==> HasKey(es, subset[j]))
    ensures Hits(Split(left, keys)) == [] <==> mid == 0 || !HasKey(es, subset[mid / 2])
  {
    if mid > 0 {
      assert keys[mid / 2] == subset[mid / 2];
      SplitHits(left, keys);
    }
  }

  lemma RightInOrder<K, V>(es: seq<(K, V)>, right: seq<(K, V)>, subset: seq<K>, keys: seq<K>, mid: nat)
    requires mid < |subset| && keys == subset[mid + 1..]
    requires forall j :: mid < j < |subset| ==> (HasKey(right, subset[j]) <==> HasKey(es, subset[j]))
    ensures InOrder(right, keys) <==> InOrder(es, keys)
  {
    forall j | 0 <= j < |keys|
      ensures HasKey(right, keys[j]) <==> HasKey(es, keys[j])
    {
      assert keys[j] == subset[mid + 1 + j];
    }
    InOrderCong(right, es, keys);
  }

  /** The hits around a middle key that is there, by parts: the entry, then all higher ones, then all lower ones. */
  lemma {:induction false} Parts<K(!new), V>(lt: (K, K) -> bool, es: seq<(K, V)>, subset: seq<K>, mid: nat)
    returns (e: (K, V), right: seq<(K, V)>, rightKeys: seq<K>, left: seq<(K, V)>, leftKeys: seq<K>)
    requires StrictOrder(lt) && Sorted(lt, es) && Increasing(lt, subset)
    requires subset != [] && mid == |subset| / 2 && HasKey(es, subset[mid])
    ensures Hits(Split(es, subset)) == [e] + Hits(Split(right, rightKeys)) + Hits(Split(left, leftKeys))
    ensures Sorted(lt, right) && Increasing(lt, rightKeys) && Sorted(lt, left) && Increasing(lt, leftKeys)
    ensures leftKeys == subset[..mid] && rightKeys == subset[mid + 1..]
    ensures forall j :: 0 <= j < mid ==> (HasKey(left, subset[j]) <==> HasKey(es, subset[j]))
    ensures forall j :: mid < j < |subset| ==> (HasKey(right, subset[j]) <==> HasKey(es, subset[j]))
    ensures (forall h :: h in right ==> lt(e.0, h.0)) && (forall h :: h in left ==> lt(h.0, e.0))
  {
    var k := IndexOf(es, subset[mid]);
    e, right, left := es[k], es[k + 1..], es[..k];
    rightKeys, leftKeys := subset[mid + 1..], subset[..mid];
    SplitHits(es, subset);
    PivotSplits(lt, es, subset, mid);
    PivotBounds(lt, es, k, left, right);
  }

  ghost predicate SortedIff<K, V>(lt: (K, K) -> bool, hits: seq<(K, V)>, inOrder: bool) {
    if inOrder then Sorted(lt, hits) else Descends(lt, hits)
  }

  lemma {:induction false} HitsOfParts<K(!new), V>(lt: (K, K) -> bool, es: seq<(K, V)>, subset: seq<K>, mid: nat)
    returns (e: (K, V), r: seq<(K, V)>, l: seq<(K, V)>)
    requires StrictOrder(lt) && Sorted(lt, es) && Increasing(lt, subset)
    requires subset != [] && mid == |subset| / 2 && HasKey(es, subset[mid])
    ensures Hits(Split(es, subset)) == [e] + r + l
    ensures SortedIff(lt, r, InOrder(es, subset[mid + 1..]))
    ensures l == [] <==> mid == 0 || !HasKey(es, subset[mid / 2])
    ensures (forall h :: h in r ==> lt(e.0, h.0)) && (forall h :: h in l ==> lt(h.0, e.0))
    decreases |subset|, 0
  {
    var right, rightKeys, left, leftKeys;
    e, right, rightKeys, left, leftKeys := Parts(lt, es, subset, mid);
    r, l := Hits(Split(right, rightKeys)), Hits(Split(left, leftKeys));
    LeftHits(es, left, subset, leftKeys, mid);
    RightInOrder(es, right, subset, rightKeys, mid);
    HitsWithin(lt, right, rightKeys, r);
    HitsWithin(lt, left, leftKeys, l);
    SplitSortedIff(lt, right, rightKeys);
  }

  /** In order they are strictly sorted, and out of order they really descend somewhere. */
  lemma {:induction false} SplitSortedIff<K(!new), V>(lt: (K, K) -> bool, es: seq<(K, V)>, subset: seq<K>)
    requires StrictOrder(lt) && Sorted(lt, es) && Increasing(lt, subset)
    ensures SortedIff(lt, Hits(Split(es, subset)), InOrder(es, subset))
    decreases |subset|, 1
  {
    if subset != [] {
      var mid := |subset| / 2;
      if HasKey(es, subset[mid]) {
        var e, r, l := HitsOfParts(lt, es, subset, mid);
        EntryFirst(lt, e, r, l);
      } else {
        SplitHits(es, subset);
      }
    }
  }

  lemma InOrderWhenPresent<K, V>(es: seq<(K, V)>, subset: seq<K>)
    requires AllPresent(es, subset)
    ensures InOrder(es, subset) <==> |subset| <= 1
  {
  }

  /**
   * What the split returns is in key order if and only if no visited middle key has something found to its left. With every
   * wanted key present that is: if at most one key was wanted.
   */
  lemma SplitInOrderExactly<K(!new), V>(lt: (K, K) -> bool, es: seq<(K, V)>, subset: seq<K>)
    requires StrictOrder(lt) && Sorted(lt, es) && Increasing(lt, subset)
    ensures Sorted(lt, Hits(Split(es, subset))) <==> InOrder(es, subset)
    ensures AllPresent(es, subset) ==> (Sorted(lt, Hits(Split(es, subset))) <==> |subset| <= 1)
  {
    SplitSortedIff(lt, es, subset);
    SortedOrDescends(lt, Hits(Split(es, subset)));
    if AllPresent(es, subset) {
      InOrderWhenPresent(es, subset);
    }
  }

  /** What the linear merge returns is always in key order. */
  lemma LinearInOrder<K(!new), V>(lt: (K, K) -> bool, es: seq<(K, V)>, subset: seq<K>)
    requires StrictOrder(lt) && Sorted(lt, es) && Increasing(lt, subset) && subset != []
    ensures Sorted(lt, Hits(Linear(lt, es, subset)))
  {
    LinearFinds(lt, es, subset);
    SelectKeepsOrder(lt, es, KeySet(subset[..FirstAbsent(es, subset)]));
  }

  /**
   * When every wanted key is present, both algorithms report each wanted entry exactly once, and nothing else and nothing
   * as missing: they agree as sets with each other and with the plain filter. They agree as lists only for one key.
   */
  lemma AlgorithmsAgreeExactly<K(!new), V>(lt: (K, K) -> bool, es: seq<(K, V)>, subset: seq<K>)
    requires StrictOrder(lt) && Sorted(lt, es) && Increasing(lt, subset) && subset != [] && AllPresent(es, subset)
    ensures Hits(Linear(lt, es, subset)) == Select(es, KeySet(subset))
    ensures multiset(Hits(Split(es, subset))) == multiset(Hits(Linear(lt, es, subset)))
    ensures NothingMissed(Linear(lt, es, subset)) && NothingMissed(Split(es, subset))
    ensures |Linear(lt, es, subset)| == |Split(es, subset)| == |subset|
    ensures Hits(Split(es, subset)) == Hits(Linear(lt, es, subset)) <==> |subset| == 1
  {
    LinearIsFilterExactly(lt, es, subset);
    LinearMissesNothing(lt, es, subset);
    LinearInOrder(lt, es, subset);
    SplitIsFilterExactly(lt, es, subset);
    PresentIsIntact(es, subset);
    SplitMissesNothing(lt, es, subset);
    SplitInOrderExactly(lt, es, subset);
    if |subset| == 1 {
      AllFound(Linear(lt, es, subset));
      AllFound(Split(es, subset));
      SameSingletons(Hits(Split(es, subset)), Hits(Linear(lt, es, subset)));
    }
  }

  lemma SameSingletons<T>(a: seq<T>, b: seq<T>)
    requires |a| == |b| == 1 && multiset(a) == multiset(b)
    ensures a == b
  {
    assert a == [a[0]] && b == [b[0]];
    assert a[0] in multiset(b);
  }
}
