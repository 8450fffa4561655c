/** Claims as parallel vectors of keys and values, their order, and the search in them. */
module Claims {
  import opened Common
  import opened Entries
  import opened ClaimsMaps

  /** Two vectors; the k-th value belongs to the k-th key. */
  datatype Claims<+K, +V> = Claims(keys: seq<K>, values: seq<V>)

  ghost predicate Paired<K, V>(c: Claims<K, V>) {
    |c.keys| == |c.values|
  }

  function Length<K, V>(c: Claims<K, V>): nat {
    if |c.keys| < |c.values| then |c.keys| else |c.values|
  }

  /** `keys.iter().zip(values.iter())`: as many entries as the shorter vector has. */
  ghost function Zip<K, V>(c: Claims<K, V>): (es: seq<(K, V)>)
    ensures |es| == Length(c) && forall i :: 0 <= i < |es| ==> es[i] == (c.keys[i], c.values[i])
  {
    seq(Length(c), i requires 0 <= i < Length(c) => (c.keys[i], c.values[i]))
  }

  /** No key is below the one before it; equal neighbours pass. */
  ghost predicate NonDecreasing<K>(lt: (K, K) -> bool, keys: seq<K>) {
    forall i :: 0 < i < |keys| ==> !lt(keys[i], keys[i - 1])
  }

  ghost predicate Ascending<K>(lt: (K, K) -> bool, keys: seq<K>) {
    forall i, j :: 0 <= i < j < |keys| ==> !lt(keys[j], keys[i])
  }

  lemma {:induction false} NonDecreasingAscends<K(!new)>(lt: (K, K) -> bool, keys: seq<K>, i: nat, j: nat)
    requires StrictOrder(lt) && NonDecreasing(lt, keys) && i < j < |keys|
    ensures !lt(keys[j], keys[i])
    decreases j
  {
    if i < j - 1 {
      NonDecreasingAscends(lt, keys, i, j - 1);
    }
  }

  lemma AscendsWhenNonDecreasing<K(!new)>(lt: (K, K) -> bool, keys: seq<K>)
    requires StrictOrder(lt) && NonDecreasing(lt, keys)
    ensures Ascending(lt, keys)
  {
    forall i, j | 0 <= i < j < |keys|
      ensures !lt(keys[j], keys[i])
    {
      NonDecreasingAscends(lt, keys, i, j);
    }
  }

  method ToClaimsSorted<K(!new), V>(lt: (K, K) -> bool, c: Claims<K, V>) returns (r: Result<Claims<K, V>, ()>)
    ensures r == if NonDecreasing(lt, c.keys) then Ok(c) else Err(())
  {
    var keys: seq<K> := [];
    for i := 0 to |c.keys|
      invariant keys == c.keys[..i]
      invariant forall j :: 0 < j < i ==> !lt(c.keys[j], c.keys[j - 1])
    {
      var current := c.keys[i];
      if i != 0 {
        if lt(current, c.keys[i - 1]) {
          return Err(());
        }
      }
      keys := keys + [current];
    }
    assert keys == c.keys;
    r := Ok(Claims(keys, c.values));
  }

  /**
   * `slice::binary_search`. Whatever it finds is the key; on keys in ascending order it also says where a missing key
   * would go.
   */
  method BinarySearch<K(!new, ==)>(lt: (K, K) -> bool, keys: seq<K>, key: K) returns (found: bool, i: nat)
    requires StrictOrder(lt)
    ensures i <= |keys|
    ensures found ==> i < |keys| && keys[i] == key
    ensures !found && Ascending(lt, keys) ==> Between(lt, keys, i, key)
  {
    ghost var sorted := Ascending(lt, keys);
    var lo, hi := 0, |keys|;
    while lo < hi
      invariant 0 <= lo <= hi <= |keys|
      invariant sorted ==> forall j :: 0 <= j < lo ==> lt(keys[j], key)
      invariant sorted ==> forall j :: hi <= j < |keys| ==> lt(key, keys[j])
    {
      var mid := (lo + hi) / 2;
      if lt(keys[mid], key) {
        forall j | sorted && 0 <= j <= mid
          ensures lt(keys[j], key)
        {
          assert j == mid || !lt(keys[mid], keys[j]);
        }
        lo := mid + 1;
      } else if keys[mid] == key {
        return true, mid;
      } else {
        forall j | sorted && mid <= j < |keys|
          ensures lt(key, keys[j])
        {
          assert j == mid || !lt(keys[j], keys[mid]);
        }
        hi := mid;
      }
    }
    return false, lo;
  }

  ghost predicate Between<K>(lt: (K, K) -> bool, keys: seq<K>, i: nat, key: K)
    requires i <= |keys|
  {
    (forall j :: 0 <= j < i ==> lt(keys[j], key)) && (forall j :: i <= j < |keys| ==> lt(key, keys[j]))
  }

  lemma IncreasingZip<K(!new), V>(lt: (K, K) -> bool, c: Claims<K, V>)
    requires StrictOrder(lt) && Increasing(lt, c.keys)
    ensures Sorted(lt, Zip(c)) && DistinctKeys(Zip(c))
  {
  }

  lemma IncreasingNonDecreasing<K(!new)>(lt: (K, K) -> bool, keys: seq<K>)
    requires StrictOrder(lt) && Increasing(lt, keys)
    ensures NonDecreasing(lt, keys)
  {
    forall i | 0 < i < |keys|
      ensures !lt(keys[i], keys[i - 1])
    {
      assert lt(keys[i - 1], keys[i]);
    }
  }
}
