/** Sorted entries as maps, and removal by a sorted list of keys. */
module ClaimsMaps {
  import opened Common
  import opened Entries
  import opened Subset

  /** The map of a list of entries; of equal keys the last one counts. */
  ghost function MapOf<K, V>(es: seq<(K, V)>): map<K, V> {
    if es == [] then map[] else MapOf(es[..|es| - 1])[es[|es| - 1].0 := es[|es| - 1].1]
  }

  lemma {:induction false} MapOfKeys<K, V>(es: seq<(K, V)>, k: K)
    ensures k in MapOf(es) <==> HasKey(es, k)
  {
    if es != [] {
      var init := es[..|es| - 1];
      MapOfKeys(init, k);
      if HasKey(es, k) && es[|es| - 1].0 != k {
        var i :| 0 <= i < |es| && es[i].0 == k;
        assert init[i] == es[i];
      }
      if HasKey(init, k) {
        var i :| 0 <= i < |init| && init[i].0 == k;
        assert es[i] == init[i];
      }
    }
  }

  ghost predicate DistinctKeys<K, V>(es: seq<(K, V)>) {
    forall i, j :: 0 <= i < j < |es| ==> es[i].0 != es[j].0
  }

  lemma {:induction false} MapOfAt<K, V>(es: seq<(K, V)>, i: nat)
    requires DistinctKeys(es) && i < |es|
    ensures es[i].0 in MapOf(es) && MapOf(es)[es[i].0] == es[i].1
    decreases |es|
  {
    if i < |es| - 1 {
      MapOfAt(es[..|es| - 1], i);
    }
  }

  /** Two lists of entries with distinct keys and the same entries have the same map. */
  lemma SameEntriesSameMap<K(!new), V>(a: seq<(K, V)>, m: map<K, V>)
    requires DistinctKeys(a)
    requires forall i :: 0 <= i < |a| ==> a[i].0 in m && m[a[i].0] == a[i].1
    requires forall k :: k in m ==> HasKey(a, k)
    ensures MapOf(a) == m
  {
    var ma := MapOf(a);
    forall k
      ensures k in ma <==> k in m
      ensures k in ma ==> ma[k] == m[k]
    {
      MapOfKeys(a, k);
      if k in ma {
        var i :| 0 <= i < |a| && a[i].0 == k;
        MapOfAt(a, i);
      }
    }
    assert ma == m;
  }

  lemma SortedDistinct<K(!new), V>(lt: (K, K) -> bool, es: seq<(K, V)>)
    requires StrictOrder(lt) && Sorted(lt, es)
    ensures DistinctKeys(es)
  {
  }

  /** Strictly sorted entries are determined by their map. */
  lemma {:induction false} SortedDetermined<K(!new), V>(lt: (K, K) -> bool, a: seq<(K, V)>, b: seq<(K, V)>)
    requires StrictOrder(lt) && Sorted(lt, a) && Sorted(lt, b) && MapOf(a) == MapOf(b)
    ensures a == b
    decreases |a| + |b|
  {
    SortedDistinct(lt, a);
    SortedDistinct(lt, b);
    if a == [] || b == [] {
      if a != [] { MapOfAt(a, 0); }
      if b != [] { MapOfAt(b, 0); }
    } else {
      var x, y := a[|a| - 1], b[|b| - 1];
      MapOfAt(a, |a| - 1);
      MapOfAt(b, |b| - 1);
      MapOfKeys(a, y.0);
      MapOfKeys(b, x.0);
      assert !lt(x.0, y.0) && !lt(y.0, x.0) by {
        var i :| 0 <= i < |b| && b[i].0 == x.0;
        var j :| 0 <= j < |a| && a[j].0 == y.0;
        assert i == |b| - 1 || lt(x.0, y.0);
        assert j == |a| - 1 || lt(y.0, x.0);
      }
      assert x == y;
      var ai, bi := a[..|a| - 1], b[..|b| - 1];
      MapOfKeys(ai, x.0);
      MapOfKeys(bi, x.0);
      assert MapOf(ai) == MapOf(a) - {x.0};
      assert MapOf(bi) == MapOf(b) - {x.0};
      SortedDetermined(lt, ai, bi);
      assert a == ai + [x] && b == bi + [y];
    }
  }

  // ---- removal ----

  /** The loop of `remove_claims`; it waits for one key at a time and never gives one up. */
  ghost function RemoveFrom<K, V>(lt: (K, K) -> bool, es: seq<(K, V)>, keys: seq<K>): Result<seq<(K, V)>, ()>
    requires keys != []
    decreases |es|
  {
    if es == [] then Ok([])
    else if es[0].0 != keys[0] then Prepend(es[0], RemoveFrom(lt, es[1..], keys))
    else if |keys| == 1 then RemoveFrom(lt, es[1..], keys)
    else if lt(keys[1], keys[0]) then Err(())
    else RemoveFrom(lt, es[1..], keys[1..])
  }

  ghost function Prepend<T>(x: T, r: Result<seq<T>, ()>): Result<seq<T>, ()> {
    match r
    case Ok(s) => Ok([x] + s)
    case Err(e) => Err(e)
  }

  /** The first descent of the keys comes after keys that ascend and are all held. */
  ghost predicate FailsAt<K, V>(lt: (K, K) -> bool, es: seq<(K, V)>, keys: seq<K>, d: nat) {
    && 0 < d < |keys| && lt(keys[d], keys[d - 1]) && Increasing(lt, keys[..d])
    && forall i :: 0 <= i < d ==> HasKey(es, keys[i])
  }

  /** Passing an entry with another key than the first one changes nothing. */
  lemma FailsLater<K(!new), V>(lt: (K, K) -> bool, es: seq<(K, V)>, keys: seq<K>, d: nat)
    requires StrictOrder(lt) && Sorted(lt, es) && es != [] && keys != [] && es[0].0 != keys[0]
    ensures FailsAt(lt, es, keys, d) <==> FailsAt(lt, es[1..], keys, d)
  {
    var t := es[1..];
    if 0 < d < |keys| && Increasing(lt, keys[..d]) {
      forall i | 0 <= i < d
        ensures HasKey(t, keys[i]) ==> HasKey(es, keys[i])
        ensures HasKey(es, keys[i]) && HasKey(es, keys[0]) ==> HasKey(t, keys[i])
      {
        HasKeyTail(es, keys[i]);
        if HasKey(es, keys[0]) {
          var j :| 0 <= j < |es| && es[j].0 == keys[0];
          assert lt(es[0].0, keys[0]);
          assert i == 0 || lt(keys[..d][0], keys[..d][i]);
        }
      }
    }
  }

  /** After the first key has been found the second one is next. */
  lemma FailsNext<K(!new), V>(lt: (K, K) -> bool, es: seq<(K, V)>, keys: seq<K>, d: nat)
    requires StrictOrder(lt) && Sorted(lt, es) && es != [] && |keys| > 1 && es[0].0 == keys[0] && !lt(keys[1], keys[0])
    ensures FailsAt(lt, es, keys, d + 1) <==> FailsAt(lt, es[1..], keys[1..], d)
  {
    var t, rest := es[1..], keys[1..];
    assert !HasKey(t, keys[0]);
    if FailsAt(lt, es, keys, d + 1) {
      assert keys[..d + 1][1] == keys[1];
      assert forall i :: 0 <= i < d ==> rest[..d][i] == keys[..d + 1][i + 1];
      forall i | 0 <= i < d
        ensures HasKey(t, rest[i])
      {
        HasKeyTail(es, keys[i + 1]);
        assert lt(keys[..d + 1][0], keys[..d + 1][i + 1]);
      }
    }
    if FailsAt(lt, t, rest, d) {
      assert HasKey(t, rest[0]) && lt(keys[0], keys[1]);
      NextIncreasing(lt, keys, d);
      forall i | 0 <= i < d + 1
        ensures HasKey(es, keys[i])
      {
        HasKeyTail(es, keys[i]);
        assert i > 0 ==> HasKey(t, rest[i - 1]);
      }
    }
  }

  lemma NextIncreasing<K(!new)>(lt: (K, K) -> bool, keys: seq<K>, d: nat)
    requires StrictOrder(lt) && 0 < d < |keys| && lt(keys[0], keys[1]) && Increasing(lt, keys[1..][..d])
    ensures Increasing(lt, keys[..d + 1])
  {
    var a, b := keys[..d + 1], keys[1..][..d];
    assert forall i :: 0 < i < |a| ==> a[i] == b[i - 1];
    forall i, j | 0 <= i < j < |a|
      ensures lt(a[i], a[j])
    {
      if i == 0 && j > 1 {
        assert lt(b[0], b[j - 1]);
      }
    }
  }

  /** Removal fails if and only if it comes to a descent of the keys: those before it ascend and are all held. */
  lemma {:induction false} RemoveFailsExactly<K(!new), V>(lt: (K, K) -> bool, es: seq<(K, V)>, keys: seq<K>)
    requires StrictOrder(lt) && Sorted(lt, es) && keys != []
    ensures RemoveFrom(lt, es, keys).Err? <==> exists d: nat :: FailsAt(lt, es, keys, d)
    decreases |es|
  {
    if es == [] {
      assert forall d: nat :: FailsAt(lt, es, keys, d) ==> HasKey(es, keys[0]);
    } else if es[0].0 != keys[0] || |keys| == 1 {
      RemoveFailsExactly(lt, es[1..], keys);
      forall d: nat
        ensures FailsAt(lt, es, keys, d) <==> FailsAt(lt, es[1..], keys, d)
      {
        if |keys| > 1 {
          FailsLater(lt, es, keys, d);
        }
      }
    } else if lt(keys[1], keys[0]) {
      assert HasKey(es, es[0].0);
      assert FailsAt(lt, es, keys, 1);
    } else {
      RemoveFailsExactly(lt, es[1..], keys[1..]);
      forall d: nat
        ensures FailsAt(lt, es, keys, d + 1) <==> FailsAt(lt, es[1..], keys[1..], d)
      {
        FailsNext(lt, es, keys, d);
      }
      FailsShift(lt, es, keys);
    }
  }

  lemma FailsShift<K(!new), V>(lt: (K, K) -> bool, es: seq<(K, V)>, keys: seq<K>)
    requires es != [] && keys != []
    requires forall d: nat :: FailsAt(lt, es, keys, d + 1) <==> FailsAt(lt, es[1..], keys[1..], d)
    ensures (exists d: nat :: FailsAt(lt, es, keys, d)) <==> (exists d: nat :: FailsAt(lt, es[1..], keys[1..], d))
  {
    if exists d: nat :: FailsAt(lt, es, keys, d) {
      var d: nat :| FailsAt(lt, es, keys, d);
      assert FailsAt(lt, es, keys, (d - 1) + 1);
      assert FailsAt(lt, es[1..], keys[1..], d - 1);
    }
    if exists d: nat :: FailsAt(lt, es[1..], keys[1..], d) {
      var d: nat :| FailsAt(lt, es[1..], keys[1..], d);
      assert FailsAt(lt, es, keys, d + 1);
    }
  }

  /** Removal drops the keys before the first absent one. */
  lemma {:induction false} RemoveDrops<K(!new), V>(lt: (K, K) -> bool, es: seq<(K, V)>, keys: seq<K>)
    requires StrictOrder(lt) && Sorted(lt, es) && Increasing(lt, keys) && keys != []
    ensures RemoveFrom(lt, es, keys) == Ok(Without(es, KeySet(keys[..FirstAbsent(es, keys)])))
    decreases |es|
  {
    if es != [] {
      TailFacts(lt, es, keys);
      var p := FirstAbsent(es, keys);
      var t := es[1..];
      if es[0].0 != keys[0] {
        RemoveDrops(lt, t, keys);
      } else {
        assert keys[..p][0] == es[0].0;
        assert Without(es, KeySet(keys[..p])) == Without(t, KeySet(keys[..p]));
        DropFirstKey(t, keys[..p]);
        if |keys| == 1 {
          RemoveNothing(lt, t, keys);
          assert keys[..p] == keys;
          assert RemoveFrom(lt, es, keys) == RemoveFrom(lt, t, keys);
        } else {
          assert lt(keys[0], keys[1]) && !lt(keys[1], keys[0]);
          RemoveDrops(lt, t, keys[1..]);
          assert keys[..p][1..] == keys[1..][..p - 1];
          assert RemoveFrom(lt, es, keys) == RemoveFrom(lt, t, keys[1..]);
        }
      }
    }
  }

  lemma {:induction false} RemoveNothing<K, V>(lt: (K, K) -> bool, es: seq<(K, V)>, keys: seq<K>)
    requires |keys| == 1 && !HasKey(es, keys[0])
    ensures RemoveFrom(lt, es, keys) == Ok(es) && Without(es, KeySet(keys)) == es
    decreases |es|
  {
    if es != [] {
      var t := es[1..];
      HasKeyTail(es, keys[0]);
      assert KeySet(keys) == {keys[0]};
      RemoveNothing(lt, t, keys);
      assert es == [es[0]] + t;
    }
  }

  /** So it removes every present key exactly when no present key follows an absent one. */
  lemma RemoveIsFilterExactly<K(!new), V>(lt: (K, K) -> bool, es: seq<(K, V)>, keys: seq<K>)
    requires StrictOrder(lt) && Sorted(lt, es) && Increasing(lt, keys) && keys != []
    ensures RemoveFrom(lt, es, keys) == Ok(Without(es, KeySet(keys))) <==> PresentFirst(es, keys)
  {
    RemoveDrops(lt, es, keys);
    PrefixIsEnoughExactly(es, keys);
  }

  lemma {:induction false} WithoutFacts<K(!new), V>(lt: (K, K) -> bool, es: seq<(K, V)>, drop: set<K>)
    requires StrictOrder(lt) && Sorted(lt, es)
    ensures var w := Without(es, drop);
      && Sorted(lt, w)
      && (forall i :: 0 <= i < |w| ==> w[i] in es && w[i].0 !in drop)
      && (forall i :: 0 <= i < |es| && es[i].0 !in drop ==> es[i] in w)
  {
    if es != [] {
      var t := es[1..];
      WithoutFacts(lt, t, drop);
      var w, wt := Without(es, drop), Without(t, drop);
      forall i | 0 <= i < |wt|
        ensures lt(es[0].0, wt[i].0) && wt[i] in es
      {
        var j :| 0 <= j < |t| && t[j] == wt[i];
        assert es[j + 1] == wt[i];
      }
      forall i | 0 <= i < |es| && es[i].0 !in drop
        ensures es[i] in w
      {
        if i > 0 {
          assert t[i - 1] == es[i];
        }
      }
    }
  }

  lemma {:induction false} KeptIsOld<K(!new), V>(lt: (K, K) -> bool, a: seq<(K, V)>, b: seq<(K, V)>, r: seq<(K, V)>, i: nat)
    requires StrictOrder(lt) && Sorted(lt, r) && MapOf(r) == MapOf(a) + MapOf(b)
    requires i < |Without(r, MapOf(b).Keys)|
    ensures var e := Without(r, MapOf(b).Keys)[i]; e.0 in MapOf(a) && MapOf(a)[e.0] == e.1
  {
    var w := Without(r, MapOf(b).Keys);
    WithoutFacts(lt, r, MapOf(b).Keys);
    SortedDistinct(lt, r);
    var j :| 0 <= j < |r| && r[j] == w[i];
    MapOfAt(r, j);
  }

  lemma {:induction false} OldIsKept<K(!new), V>(lt: (K, K) -> bool, a: seq<(K, V)>, b: seq<(K, V)>, r: seq<(K, V)>, k: K)
    requires StrictOrder(lt) && Sorted(lt, r) && MapOf(r) == MapOf(a) + MapOf(b) && k in MapOf(a)
    requires forall i :: 0 <= i < |b| ==> !HasKey(a, b[i].0)
    ensures HasKey(Without(r, MapOf(b).Keys), k)
  {
    var w := Without(r, MapOf(b).Keys);
    WithoutFacts(lt, r, MapOf(b).Keys);
    MapOfKeys(b, k);
    MapOfKeys(a, k);
    MapOfKeys(r, k);
    var j :| 0 <= j < |r| && r[j].0 == k;
    assert r[j] in w;
    var i :| 0 <= i < |w| && w[i] == r[j];
  }

  /** Removing from a merge the fresh keys that were added restores what was there before. */
  lemma {:induction false} WithoutAddedRestores<K(!new), V>(lt: (K, K) -> bool, a: seq<(K, V)>, b: seq<(K, V)>, r: seq<(K, V)>)
    requires StrictOrder(lt) && Sorted(lt, a) && Sorted(lt, b) && Sorted(lt, r)
    requires MapOf(r) == MapOf(a) + MapOf(b)
    requires forall i :: 0 <= i < |b| ==> !HasKey(a, b[i].0)
    ensures Without(r, MapOf(b).Keys) == a
  {
    var w := Without(r, MapOf(b).Keys);
    SortedDistinct(lt, a);
    WithoutFacts(lt, r, MapOf(b).Keys);
    SortedDistinct(lt, w);
    forall i | 0 <= i < |w|
      ensures w[i].0 in MapOf(a) && MapOf(a)[w[i].0] == w[i].1
    {
      KeptIsOld(lt, a, b, r, i);
    }
    forall k | k in MapOf(a)
      ensures HasKey(w, k)
    {
      OldIsKept(lt, a, b, r, k);
    }
    SameEntriesSameMap(w, MapOf(a));
    SortedDetermined(lt, w, a);
  }
}
