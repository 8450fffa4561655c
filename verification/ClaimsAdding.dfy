/** `add_claims`: adding claims one by one at the places where a binary search puts them. */
module ClaimsAdding {
  import opened Common
  import opened Entries
  import opened ClaimsMaps
  import opened Claims

  datatype ModifyClaimError = AddExists | NotSorted

  /** Some added key is already there, or is added twice. */
  ghost predicate Clash<K>(keys: seq<K>, added: seq<K>) {
    exists i :: 0 <= i < |added| && (added[i] in keys || added[i] in added[..i])
  }

  function InsertAt<T>(s: seq<T>, i: nat, x: T): (r: seq<T>)
    requires i <= |s|
    ensures |r| == |s| + 1
    ensures forall j :: 0 <= j < i ==> r[j] == s[j]
    ensures r[i] == x
    ensures forall j :: i < j < |r| ==> r[j] == s[j - 1]
  {
    s[..i] + [x] + s[i..]
  }

  lemma InsertAscends<K(!new)>(lt: (K, K) -> bool, keys: seq<K>, i: nat, k: K)
    requires StrictOrder(lt) && i <= |keys|
    requires Between(lt, keys, i, k)
    ensures Ascending(lt, keys) ==> Ascending(lt, InsertAt(keys, i, k))
    ensures Increasing(lt, keys) ==> Increasing(lt, InsertAt(keys, i, k))
  {
  }

  /** Writing one entry into strictly sorted claims, by overwriting or by inserting, is one map update. */
  lemma WriteIsMapUpdate<K(!new), V>(lt: (K, K) -> bool, c: Claims<K, V>, d: Claims<K, V>, k: K, v: V)
    requires Paired(c) && Paired(d) && StrictOrder(lt) && Increasing(lt, c.keys) && Increasing(lt, d.keys)
    requires exists i :: 0 <= i < |d.keys| && d.keys[i] == k && d.values[i] == v
    requires forall i :: 0 <= i < |c.keys| && c.keys[i] != k ==>
      exists j :: 0 <= j < |d.keys| && d.keys[j] == c.keys[i] && d.values[j] == c.values[i]
    requires forall j :: 0 <= j < |d.keys| && d.keys[j] != k ==> d.keys[j] in c.keys
    ensures MapOf(Zip(d)) == MapOf(Zip(c))[k := v]
  {
    IncreasingZip(lt, c);
    IncreasingZip(lt, d);
    var ec, ed := Zip(c), Zip(d);
    var m := MapOf(ec)[k := v];
    forall j | 0 <= j < |ed|
      ensures ed[j].0 in m && m[ed[j].0] == ed[j].1
    {
      if d.keys[j] == k {
        var i :| 0 <= i < |d.keys| && d.keys[i] == k && d.values[i] == v;
        assert ed[i].0 == ed[j].0;
        assert i == j;
      } else {
        var i :| 0 <= i < |c.keys| && c.keys[i] == d.keys[j];
        MapOfAt(ec, i);
        assert ec[i].0 == d.keys[j];
        var j' :| 0 <= j' < |d.keys| && d.keys[j'] == c.keys[i] && d.values[j'] == c.values[i];
        assert ed[j'].0 == ed[j].0;
        assert j' == j;
      }
    }
    forall x | x in m
      ensures HasKey(ed, x)
    {
      if x == k {
        var i :| 0 <= i < |d.keys| && d.keys[i] == k && d.values[i] == v;
        assert ed[i].0 == k;
      } else {
        MapOfKeys(ec, x);
        var i :| 0 <= i < |ec| && ec[i].0 == x;
        assert c.keys[i] == x;
        var j :| 0 <= j < |d.keys| && d.keys[j] == c.keys[i] && d.values[j] == c.values[i];
        assert ed[j].0 == x;
      }
    }
    SameEntriesSameMap(ed, m);
  }

  lemma OverwriteIsMapUpdate<K(!new), V>(lt: (K, K) -> bool, c: Claims<K, V>, i: nat, v: V)
    requires Paired(c) && StrictOrder(lt) && Increasing(lt, c.keys) && i < |c.keys|
    ensures MapOf(Zip(Claims(c.keys, c.values[i := v]))) == MapOf(Zip(c))[c.keys[i] := v]
  {
    var d := Claims(c.keys, c.values[i := v]);
    assert d.keys[i] == c.keys[i] && d.values[i] == v;
    forall n | 0 <= n < |c.keys| && c.keys[n] != c.keys[i]
      ensures exists j :: 0 <= j < |d.keys| && d.keys[j] == c.keys[n] && d.values[j] == c.values[n]
    {
      assert d.keys[n] == c.keys[n] && d.values[n] == c.values[n];
    }
    WriteIsMapUpdate(lt, c, d, c.keys[i], v);
  }

  lemma InsertIsMapUpdate<K(!new), V>(lt: (K, K) -> bool, c: Claims<K, V>, i: nat, k: K, v: V)
    requires Paired(c) && StrictOrder(lt) && Increasing(lt, c.keys) && i <= |c.keys|
    requires Increasing(lt, InsertAt(c.keys, i, k))
    ensures MapOf(Zip(Claims(InsertAt(c.keys, i, k), InsertAt(c.values, i, v)))) == MapOf(Zip(c))[k := v]
  {
    var d := Claims(InsertAt(c.keys, i, k), InsertAt(c.values, i, v));
    assert d.keys[i] == k && d.values[i] == v;
    forall n | 0 <= n < |c.keys|
      ensures exists j :: 0 <= j < |d.keys| && d.keys[j] == c.keys[n] && d.values[j] == c.values[n]
    {
      var j := if n < i then n else n + 1;
      assert d.keys[j] == c.keys[n] && d.values[j] == c.values[n];
    }
    forall j | 0 <= j < |d.keys| && d.keys[j] != k
      ensures d.keys[j] in c.keys
    {
      assert d.keys[j] == c.keys[if j < i then j else j - 1];
    }
    WriteIsMapUpdate(lt, c, d, k, v);
  }

  /** The keys that are added: the claims are walked as far as both of their vectors reach. */
  function AddedKeys<K, V>(claims: Claims<K, V>): seq<K> {
    claims.keys[..Length(claims)]
  }

  ghost function Prefix<K, V>(c: Claims<K, V>, n: nat): Claims<K, V>
    requires n <= Length(c)
  {
    Claims(c.keys[..n], c.values[..n])
  }

  lemma PrefixMap<K(!new), V>(c: Claims<K, V>, n: nat, m: map<K, V>)
    requires n < Length(c)
    ensures m + MapOf(Zip(Prefix(c, n + 1))) == (m + MapOf(Zip(Prefix(c, n))))[c.keys[n] := c.values[n]]
  {
    var a, b := Zip(Prefix(c, n)), Zip(Prefix(c, n + 1));
    assert b[..n] == a && b[n] == (c.keys[n], c.values[n]);
  }

  // ---- claims that hold a key more than once ----

  ghost predicate HasEntry<K, V>(c: Claims<K, V>, k: K, v: V)
    requires Paired(c)
  {
    exists i :: 0 <= i < |c.keys| && c.keys[i] == k && c.values[i] == v
  }

  /** How often a key is held after adding: as often as before, or once. */
  ghost function CountAfter<K>(keys: seq<K>, added: seq<K>, k: K): nat {
    if k in keys then multiset(keys)[k] else if k in added then 1 else 0
  }

  ghost predicate Counts<K(!new)>(keys: seq<K>, added: seq<K>, now: seq<K>) {
    forall k :: multiset(now)[k] == CountAfter(keys, added, k)
  }

  /** Of every key added so far, the value that was added last is held. */
  ghost predicate LastHeld<K, V>(claims: Claims<K, V>, n: nat, now: Claims<K, V>)
    requires n <= Length(claims) && Paired(now)
  {
    forall j :: 0 <= j < n && claims.keys[j] !in claims.keys[j + 1..n] ==> HasEntry(now, claims.keys[j], claims.values[j])
  }

  /** The entries with keys that are not added are the same, in the same order. */
  ghost predicate OthersKept<K, V>(self: Claims<K, V>, added: set<K>, now: Claims<K, V>) {
    Without(Zip(now), added) == Without(Zip(self), added)
  }

  lemma {:induction false} WithoutConcat<K, V>(a: seq<(K, V)>, b: seq<(K, V)>, drop: set<K>)
    ensures Without(a + b, drop) == Without(a, drop) + Without(b, drop)
  {
    if a == [] {
      assert a + b == b;
    } else {
      assert (a + b)[0] == a[0] && (a + b)[1..] == a[1..] + b;
      WithoutConcat(a[1..], b, drop);
    }
  }

  /** An entry whose key is dropped makes no difference, wherever it stands. */
  lemma WithoutOne<K, V>(a: seq<(K, V)>, e: (K, V), b: seq<(K, V)>, drop: set<K>)
    requires e.0 in drop
    ensures Without(a + [e] + b, drop) == Without(a + b, drop)
  {
    assert a + [e] + b == a + ([e] + b);
    WithoutConcat(a, [e] + b, drop);
    WithoutConcat([e], b, drop);
    WithoutConcat(a, b, drop);
    assert [e][1..] == [];
  }

  lemma OverwriteKeepsOthers<K, V>(c: Claims<K, V>, at: nat, v: V, drop: set<K>)
    requires Paired(c) && at < |c.keys| && c.keys[at] in drop
    ensures Without(Zip(Claims(c.keys, c.values[at := v])), drop) == Without(Zip(c), drop)
  {
    var es, d := Zip(c), Zip(Claims(c.keys, c.values[at := v]));
    assert es == es[..at] + [es[at]] + es[at + 1..];
    assert d == es[..at] + [(c.keys[at], v)] + es[at + 1..];
    WithoutOne(es[..at], es[at], es[at + 1..], drop);
    WithoutOne(es[..at], (c.keys[at], v), es[at + 1..], drop);
  }

  lemma InsertKeepsOthers<K, V>(c: Claims<K, V>, at: nat, k: K, v: V, drop: set<K>)
    requires Paired(c) && at <= |c.keys| && k in drop
    ensures Without(Zip(Claims(InsertAt(c.keys, at, k), InsertAt(c.values, at, v))), drop) == Without(Zip(c), drop)
  {
    var es, d := Zip(c), Zip(Claims(InsertAt(c.keys, at, k), InsertAt(c.values, at, v)));
    assert es == es[..at] + es[at..];
    assert d == es[..at] + [(k, v)] + es[at..];
    WithoutOne(es[..at], (k, v), es[at..], drop);
  }

  lemma CountsOverwrite<K(!new)>(keys: seq<K>, added: seq<K>, now: seq<K>, k: K)
    requires Counts(keys, added, now) && k in now
    ensures Counts(keys, added + [k], now)
  {
    assert multiset(now)[k] > 0;
  }

  lemma CountsInsert<K(!new)>(keys: seq<K>, added: seq<K>, now: seq<K>, k: K, at: nat)
    requires Counts(keys, added, now) && k !in now && at <= |now|
    ensures Counts(keys, added + [k], InsertAt(now, at, k))
  {
    assert now == now[..at] + now[at..];
    assert multiset(InsertAt(now, at, k)) == multiset(now) + multiset{k};
    assert multiset(now)[k] == 0;
  }

  /** Once a key is written, it is held with that value; the entries of other keys are still there. */
  lemma LastHeldNext<K, V>(claims: Claims<K, V>, n: nat, was: Claims<K, V>, now: Claims<K, V>)
    requires n < Length(claims) && Paired(was) && Paired(now) && LastHeld(claims, n, was)
    requires HasEntry(now, claims.keys[n], claims.values[n])
    requires forall i :: 0 <= i < |was.keys| && was.keys[i] != claims.keys[n] ==> HasEntry(now, was.keys[i], was.values[i])
    ensures LastHeld(claims, n + 1, now)
  {
    forall j | 0 <= j < n + 1 && claims.keys[j] !in claims.keys[j + 1..n + 1]
      ensures HasEntry(now, claims.keys[j], claims.values[j])
    {
      if j < n {
        var later := claims.keys[j + 1..n + 1];
        assert later == claims.keys[j + 1..n] + [claims.keys[n]];
        assert claims.keys[j] !in claims.keys[j + 1..n] && claims.keys[j] != claims.keys[n];
        var i :| 0 <= i < |was.keys| && was.keys[i] == claims.keys[j] && was.values[i] == claims.values[j];
      }
    }
  }

  lemma OverwriteHolds<K, V>(was: Claims<K, V>, at: nat, v: V)
    requires Paired(was) && at < |was.keys|
    ensures var now := Claims(was.keys, was.values[at := v]);
      && HasEntry(now, was.keys[at], v)
      && forall i :: 0 <= i < |was.keys| && was.keys[i] != was.keys[at] ==> HasEntry(now, was.keys[i], was.values[i])
  {
    var now := Claims(was.keys, was.values[at := v]);
    assert now.keys[at] == was.keys[at] && now.values[at] == v;
    forall i | 0 <= i < |was.keys| && was.keys[i] != was.keys[at]
      ensures HasEntry(now, was.keys[i], was.values[i])
    {
      assert now.keys[i] == was.keys[i] && now.values[i] == was.values[i];
    }
  }

  lemma InsertHolds<K, V>(was: Claims<K, V>, at: nat, k: K, v: V)
    requires Paired(was) && at <= |was.keys|
    ensures var now := Claims(InsertAt(was.keys, at, k), InsertAt(was.values, at, v));
      && HasEntry(now, k, v)
      && forall i :: 0 <= i < |was.keys| ==> HasEntry(now, was.keys[i], was.values[i])
  {
    var now := Claims(InsertAt(was.keys, at, k), InsertAt(was.values, at, v));
    assert now.keys[at] == k && now.values[at] == v;
    forall i | 0 <= i < |was.keys|
      ensures HasEntry(now, was.keys[i], was.values[i])
    {
      var j := if i < at then i else i + 1;
      assert now.keys[j] == was.keys[i] && now.values[j] == was.values[i];
    }
  }

  /** How far adding has come after `n` claims. */
  ghost predicate Progress<K(!new), V>(lt: (K, K) -> bool, self: Claims<K, V>, claims: Claims<K, V>, n: nat,
                                       now: Claims<K, V>) {
    && n <= Length(claims) && Paired(now) && Ascending(lt, now.keys)
    && Counts(self.keys, claims.keys[..n], now.keys)
    && LastHeld(claims, n, now)
    && OthersKept(self, KeySet(AddedKeys(claims)), now)
  }

  ghost predicate MapProgress<K(!new), V>(lt: (K, K) -> bool, self: Claims<K, V>, claims: Claims<K, V>, n: nat,
                                          now: Claims<K, V>)
    requires n <= Length(claims)
  {
    Increasing(lt, now.keys) && MapOf(Zip(now)) == MapOf(Zip(self)) + MapOf(Zip(Prefix(claims, n)))
  }

  lemma OverwriteProgress<K(!new), V>(lt: (K, K) -> bool, self: Claims<K, V>, claims: Claims<K, V>, n: nat, now: Claims<K, V>,
                                      at: nat)
    requires StrictOrder(lt) && n < Length(claims) && Progress(lt, self, claims, n, now)
    requires at < |now.keys| && now.keys[at] == claims.keys[n]
    ensures var next := Claims(now.keys, now.values[at := claims.values[n]]);
      && Progress(lt, self, claims, n + 1, next)
      && (MapProgress(lt, self, claims, n, now) ==> MapProgress(lt, self, claims, n + 1, next))
  {
    var k := claims.keys[n];
    assert claims.keys[..n + 1] == claims.keys[..n] + [k];
    assert AddedKeys(claims)[n] == k;
    CountsOverwrite(self.keys, claims.keys[..n], now.keys, k);
    OverwriteHolds(now, at, claims.values[n]);
    LastHeldNext(claims, n, now, Claims(now.keys, now.values[at := claims.values[n]]));
    OverwriteKeepsOthers(now, at, claims.values[n], KeySet(AddedKeys(claims)));
    if MapProgress(lt, self, claims, n, now) {
      OverwriteIsMapUpdate(lt, now, at, claims.values[n]);
      PrefixMap(claims, n, MapOf(Zip(self)));
    }
  }

  lemma InsertProgress<K(!new), V>(lt: (K, K) -> bool, self: Claims<K, V>, claims: Claims<K, V>, n: nat, now: Claims<K, V>,
                                   at: nat)
    requires StrictOrder(lt) && n < Length(claims) && Progress(lt, self, claims, n, now)
    requires at <= |now.keys| && Between(lt, now.keys, at, claims.keys[n])
    ensures var next := Claims(InsertAt(now.keys, at, claims.keys[n]), InsertAt(now.values, at, claims.values[n]));
      && Progress(lt, self, claims, n + 1, next)
      && (MapProgress(lt, self, claims, n, now) ==> MapProgress(lt, self, claims, n + 1, next))
  {
    var k, v := claims.keys[n], claims.values[n];
    assert claims.keys[..n + 1] == claims.keys[..n] + [k];
    assert AddedKeys(claims)[n] == k;
    assert k !in now.keys;
    InsertAscends(lt, now.keys, at, k);
    CountsInsert(self.keys, claims.keys[..n], now.keys, k, at);
    InsertHolds(now, at, k, v);
    LastHeldNext(claims, n, now, Claims(InsertAt(now.keys, at, k), InsertAt(now.values, at, v)));
    InsertKeepsOthers(now, at, k, v, KeySet(AddedKeys(claims)));
    if MapProgress(lt, self, claims, n, now) {
      InsertIsMapUpdate(lt, now, at, k, v);
      PrefixMap(claims, n, MapOf(Zip(self)));
    }
  }

  lemma HeldExactly<K(!new)>(keys: seq<K>, added: seq<K>, now: seq<K>, k: K)
    requires Counts(keys, added, now)
    ensures k in now <==> k in keys || k in added
  {
    assert k in now <==> multiset(now)[k] > 0;
    assert k in keys ==> multiset(keys)[k] > 0;
  }

  /** One turn of the loop: the claim is overwritten or inserted; none where it is there and must not be. */
  method AddOne<K(!new, ==), V>(lt: (K, K) -> bool, ghost self: Claims<K, V>, claims: Claims<K, V>, i: nat, now: Claims<K, V>,
                                existsOk: bool) returns (next: Option<Claims<K, V>>)
    requires StrictOrder(lt) && i < Length(claims) && Progress(lt, self, claims, i, now)
    ensures next.None? <==> !existsOk && claims.keys[i] in now.keys
    ensures next.Some? ==> Progress(lt, self, claims, i + 1, next.value)
    ensures next.Some? && MapProgress(lt, self, claims, i, now) ==> MapProgress(lt, self, claims, i + 1, next.value)
  {
    var claim, value := claims.keys[i], claims.values[i];
    var found, at := BinarySearch(lt, now.keys, claim);
    if found {
      if !existsOk {
        return None;
      }
      OverwriteProgress(lt, self, claims, i, now, at);
      next := Some(Claims(now.keys, now.values[at := value]));
    } else {
      InsertProgress(lt, self, claims, i, now, at);
      next := Some(Claims(InsertAt(now.keys, at, claim), InsertAt(now.values, at, value)));
    }
  }

  /**
   * `add_claims`: it fails on unsorted claims and, unless overwriting is allowed, exactly on a clash. Otherwise the keys
   * stay sorted, each is held as often as before or once, the value added last is held, and all other entries are kept.
   * Strictly sorted claims stay strictly sorted and become the right-biased union of the two maps.
   */
  method AddClaims<K(!new, ==), V>(lt: (K, K) -> bool, self: Claims<K, V>, claims: Claims<K, V>, existsOk: bool)
    returns (r: Result<Claims<K, V>, ModifyClaimError>)
    requires StrictOrder(lt) && Paired(self)
    ensures r == Err(NotSorted) <==> !NonDecreasing(lt, self.keys)
    ensures NonDecreasing(lt, self.keys) ==> (r == Err(AddExists) <==> !existsOk && Clash(self.keys, AddedKeys(claims)))
    ensures r.Ok? ==> Progress(lt, self, claims, Length(claims), r.value)
    ensures r.Ok? && Increasing(lt, self.keys) ==>
      && Increasing(lt, r.value.keys)
      && MapOf(Zip(r.value)) == MapOf(Zip(self)) + MapOf(Zip(claims))
  {
    var sorted := ToClaimsSorted(lt, self);
    if sorted.Err? {
      return Err(NotSorted);
    }
    var keys, values := self.keys, self.values;
    AscendsWhenNonDecreasing(lt, keys);
    ghost var strict := Increasing(lt, self.keys);
    NoProgress(lt, self, claims);
    for i := 0 to Length(claims)
      invariant Progress(lt, self, claims, i, Claims(keys, values))
      invariant !existsOk ==> !Clash(self.keys, claims.keys[..i])
      invariant strict ==> MapProgress(lt, self, claims, i, Claims(keys, values))
    {
      HeldExactly(self.keys, claims.keys[..i], keys, claims.keys[i]);
      ClashNext(self, claims, i);
      var next := AddOne(lt, self, claims, i, Claims(keys, values), existsOk);
      if next.None? {
        return Err(AddExists);
      }
      keys, values := next.value.keys, next.value.values;
    }
    AllAdded(claims);
    r := Ok(Claims(keys, values));
  }

  lemma NoProgress<K(!new), V>(lt: (K, K) -> bool, self: Claims<K, V>, claims: Claims<K, V>)
    requires Paired(self) && Ascending(lt, self.keys)
    ensures Progress(lt, self, claims, 0, self) && !Clash(self.keys, claims.keys[..0])
    ensures Increasing(lt, self.keys) ==> MapProgress(lt, self, claims, 0, self)
  {
    assert claims.keys[..0] == [] && Zip(Prefix(claims, 0)) == [];
    assert Counts(self.keys, [], self.keys);
  }

  lemma AllAdded<K, V>(claims: Claims<K, V>)
    ensures claims.keys[..Length(claims)] == AddedKeys(claims) && Zip(Prefix(claims, Length(claims))) == Zip(claims)
  {
  }

  lemma ClashNext<K, V>(self: Claims<K, V>, claims: Claims<K, V>, n: nat)
    requires n < Length(claims)
    ensures claims.keys[n] in self.keys || claims.keys[n] in claims.keys[..n] ==> Clash(self.keys, AddedKeys(claims))
    ensures claims.keys[n] !in self.keys && claims.keys[n] !in claims.keys[..n] && !Clash(self.keys, claims.keys[..n]) ==>
      !Clash(self.keys, claims.keys[..n + 1])
  {
    var added := AddedKeys(claims);
    assert added[n] == claims.keys[n] && added[..n] == claims.keys[..n];
    if claims.keys[n] !in self.keys && claims.keys[n] !in claims.keys[..n] && !Clash(self.keys, claims.keys[..n]) {
      NoClashYet(self.keys, claims.keys, n);
    }
  }

  lemma NoClashYet<K>(keys: seq<K>, added: seq<K>, n: nat)
    requires n < |added| && !Clash(keys, added[..n]) && added[n] !in keys && added[n] !in added[..n]
    ensures !Clash(keys, added[..n + 1])
  {
    var a, b := added[..n], added[..n + 1];
    forall i | 0 <= i < |b|
      ensures b[i] !in keys && b[i] !in b[..i]
    {
      assert b[..i] == added[..i];
      if i < n {
        assert a[i] == b[i] && a[..i] == added[..i];
      }
    }
  }
}
