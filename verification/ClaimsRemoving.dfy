/** `remove_claims`, and what adding and removing the same keys restores. */
module ClaimsRemoving {
  import opened Common
  import opened Entries
  import opened ClaimsMaps
  import opened Claims
  import opened ClaimsAdding

  method RemoveClaims<K(!new, ==), V>(lt: (K, K) -> bool, self: Claims<K, V>, claimKeys: seq<K>)
    returns (r: Result<Claims<K, V>, ModifyClaimError>)
    ensures claimKeys == [] ==> r == if NonDecreasing(lt, self.keys) then Ok(self) else Err(NotSorted)
    ensures claimKeys != [] ==>
      && (r.Ok? ==> Paired(r.value) && RemoveFrom(lt, Zip(self), claimKeys) == Ok(Zip(r.value)))
      && (r.Err? ==> r.error == NotSorted && RemoveFrom(lt, Zip(self), claimKeys).Err?)
  {
    if claimKeys == [] {
      var sorted := ToClaimsSorted(lt, self);
      return match sorted
        case Ok(c) => Ok(c)
        case Err(_) => Err(NotSorted);
    }
    var keys: seq<K>, values: seq<V> := [], [];
    ghost var es := Zip(self);
    var i := 0;
    var current := claimKeys[i];
    assert es[0..] == es && claimKeys[0..] == claimKeys && Zip(Claims(keys, values)) == [];
    PrependNothing(RemoveFrom(lt, es, claimKeys));
    for n := 0 to Length(self)
      invariant |keys| == |values| && 0 <= i < |claimKeys| && current == claimKeys[i]
      invariant RemoveFrom(lt, es, claimKeys) == PrependAll(Zip(Claims(keys, values)), RemoveFrom(lt, es[n..], claimKeys[i..]))
    {
      var claim, value := self.keys[n], self.values[n];
      ghost var rest, wanted := es[n..], claimKeys[i..];
      assert rest[0] == (claim, value) && rest[1..] == es[n + 1..];
      assert wanted[0] == current && wanted[1..] == claimKeys[i + 1..];
      if claim != current {
        PrependStep(Claims(keys, values), claim, value, RemoveFrom(lt, es[n + 1..], wanted));
        keys := keys + [claim];
        values := values + [value];
      } else if i < |claimKeys| - 1 {
        i := i + 1;
        var next := claimKeys[i];
        assert wanted[1] == next;
        if lt(next, current) {
          return Err(NotSorted);
        }
        current := next;
      }
    }
    assert es[|es|..] == [];
    assert Zip(Claims(keys, values)) + [] == Zip(Claims(keys, values));
    r := Ok(Claims(keys, values));
  }

  ghost function PrependAll<T>(s: seq<T>, r: Result<seq<T>, ()>): Result<seq<T>, ()> {
    match r
    case Ok(t) => Ok(s + t)
    case Err(e) => Err(e)
  }

  lemma PrependNothing<T>(r: Result<seq<T>, ()>)
    ensures PrependAll([], r) == r
  {
    match r {
      case Ok(t) => assert [] + t == t;
      case Err(_) =>
    }
  }

  lemma PrependStep<K, V>(acc: Claims<K, V>, k: K, v: V, r: Result<seq<(K, V)>, ()>)
    requires Paired(acc)
    ensures PrependAll(Zip(acc), Prepend((k, v), r)) == PrependAll(Zip(Claims(acc.keys + [k], acc.values + [v])), r)
  {
    var e := (k, v);
    var longer := Zip(Claims(acc.keys + [k], acc.values + [v]));
    assert longer == Zip(acc) + [e];
    match r {
      case Ok(t) => assert Zip(acc) + ([e] + t) == (Zip(acc) + [e]) + t;
      case Err(_) =>
    }
  }

  /** Adding fresh, strictly sorted claims and removing the same keys again gives back exactly the original. */
  method AddThenRemove<K(!new, ==), V>(lt: (K, K) -> bool, self: Claims<K, V>, claims: Claims<K, V>)
    returns (r: Result<Claims<K, V>, ModifyClaimError>)
    requires StrictOrder(lt) && Paired(self) && Paired(claims)
    requires Increasing(lt, self.keys) && Increasing(lt, claims.keys)
    requires forall i :: 0 <= i < |claims.keys| ==> claims.keys[i] !in self.keys
    ensures r == Ok(self)
  {
    IncreasingNonDecreasing(lt, self.keys);
    NoClash(lt, self.keys, claims.keys);
    var added := AddClaims(lt, self, claims, false);
    assert added != Err(NotSorted) && added != Err(AddExists);
    assert added.Ok? by { match added case Ok(_) => case Err(e) => match e case AddExists => case NotSorted => }
    r := RemoveClaims(lt, added.value, claims.keys);
    RestoresOriginal(lt, self, claims, added.value);
    if claims.keys == [] {
      IncreasingNonDecreasing(lt, added.value.keys);
    }
    ZipInjective(self, if r.Ok? then r.value else self);
  }

  lemma NoClash<K(!new)>(lt: (K, K) -> bool, keys: seq<K>, added: seq<K>)
    requires StrictOrder(lt) && Increasing(lt, added) && forall i :: 0 <= i < |added| ==> added[i] !in keys
    ensures !Clash(keys, added)
  {
  }

  lemma ZipInjective<K, V>(a: Claims<K, V>, b: Claims<K, V>)
    requires Paired(a) && Paired(b)
    ensures Zip(a) == Zip(b) ==> a == b
  {
    if Zip(a) == Zip(b) {
      assert |a.keys| == |b.keys|;
      forall i | 0 <= i < |a.keys|
        ensures a.keys[i] == b.keys[i] && a.values[i] == b.values[i]
      {
        assert Zip(a)[i] == Zip(b)[i];
      }
      assert a.keys == b.keys && a.values == b.values;
    }
  }

  lemma RestoresOriginal<K(!new), V>(lt: (K, K) -> bool, a: Claims<K, V>, b: Claims<K, V>, r: Claims<K, V>)
    requires StrictOrder(lt) && Paired(a) && Paired(b) && Paired(r)
    requires Increasing(lt, a.keys) && Increasing(lt, b.keys) && Increasing(lt, r.keys)
    requires MapOf(Zip(r)) == MapOf(Zip(a)) + MapOf(Zip(b))
    requires forall i :: 0 <= i < |b.keys| ==> b.keys[i] !in a.keys
    ensures b.keys == [] ==> Zip(r) == Zip(a)
    ensures b.keys != [] ==> RemoveFrom(lt, Zip(r), b.keys) == Ok(Zip(a))
  {
    var ea, eb, er := Zip(a), Zip(b), Zip(r);
    IncreasingZip(lt, a);
    IncreasingZip(lt, b);
    IncreasingZip(lt, r);
    forall i | 0 <= i < |eb|
      ensures !HasKey(ea, eb[i].0)
    {
      assert b.keys[i] !in a.keys;
      assert forall j :: 0 <= j < |ea| ==> ea[j].0 == a.keys[j];
    }
    if b.keys == [] {
      SortedDetermined(lt, er, ea);
    } else {
      WithoutAddedRestores(lt, ea, eb, er);
      forall k
        ensures k in MapOf(eb).Keys <==> k in KeySet(b.keys)
      {
        MapOfKeys(eb, k);
        if k in b.keys {
          var i :| 0 <= i < |b.keys| && b.keys[i] == k;
          assert eb[i].0 == k;
        }
      }
      assert MapOf(eb).Keys == KeySet(b.keys);
      forall i | 0 <= i < |b.keys|
        ensures HasKey(er, b.keys[i])
      {
        MapOfKeys(eb, b.keys[i]);
        MapOfKeys(er, b.keys[i]);
        assert eb[i].0 == b.keys[i];
      }
      RemoveIsFilterExactly(lt, er, b.keys);
    }
  }
}
