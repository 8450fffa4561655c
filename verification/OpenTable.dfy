/** The open-addressed table as a value: what a search returns, what an insert changes, and what the table holds. */
module OpenTable {
  import opened Common
  import opened Probing

  /** One `OnceLock<(K, V)>`: written at most once. */
  datatype Slot<+K, +V> = Empty | Filled(key: K, val: V)

  /** Outcome of the probe loop; `Exhausted` is its panic after a full iteration. */
  datatype SearchResult = Found(index: nat) | Vacant(index: nat) | Exhausted

  /** Outcome of `get`. */
  datatype GetResult<+V> = Hit(val: V) | Miss | GetPanic

  /** Outcome of `insert`. */
  datatype InsertResult<+V> = Inserted | AlreadyPresent(first: V) | CapacityExceeded | InsertPanic

  function SearchFrom<K(==), V>(slots: seq<Slot<K, V>>, h: nat, key: K, j: nat): SearchResult
    requires |slots| > 0 && j <= |slots|
    decreases |slots| - j
  {
    if j == |slots| then Exhausted
    else
      var i := ProbeAt(h, j, |slots|);
      match slots[i]
      case Empty => Vacant(i)
      case Filled(k, _) => if k == key then Found(i) else SearchFrom(slots, h, key, j + 1)
  }

  function Search<K(==), V>(slots: seq<Slot<K, V>>, hash: K -> nat, key: K): SearchResult
    requires |slots| > 0
  {
    SearchFrom(slots, hash(key), key, 0)
  }

  /** Every stored key is reached from its own hash, in the slot that holds it. */
  ghost predicate Consistent<K(!new), V>(slots: seq<Slot<K, V>>, hash: K -> nat) {
    && IsPow2(|slots|)
    && forall i :: 0 <= i < |slots| && slots[i].Filled? ==> Search(slots, hash, slots[i].key) == Found(i)
  }

  ghost predicate Full<K, V>(slots: seq<Slot<K, V>>) {
    forall i :: 0 <= i < |slots| ==> slots[i].Filled?
  }

  /** The abstract map that the table stands for. */
  ghost function Contents<K(!new), V>(slots: seq<Slot<K, V>>, hash: K -> nat): map<K, V>
    requires Consistent(slots, hash)
  {
    map i | 0 <= i < |slots| && slots[i].Filled? :: slots[i].key := slots[i].val
  }

  function GetSpec<K(==), V>(slots: seq<Slot<K, V>>, hash: K -> nat, key: K): GetResult<V>
    requires |slots| > 0
  {
    match Search(slots, hash, key)
    case Found(i) => SearchIndex(slots, hash(key), key, 0); Hit(slots[i].val)
    case Vacant(_) => Miss
    case Exhausted => GetPanic
  }

  function InsertSpec<K(==), V>(slots: seq<Slot<K, V>>, hash: K -> nat, key: K, val: V)
    : (r: (seq<Slot<K, V>>, InsertResult<V>))
    requires |slots| > 0
    ensures |r.0| == |slots|
  {
    SearchIndex(slots, hash(key), key, 0);
    match Search(slots, hash, key)
    case Found(i) => (slots, AlreadyPresent(slots[i].val))
    case Vacant(i) => (slots[i := Filled(key, val)], Inserted)
    case Exhausted => (slots, InsertPanic)
  }

  /** Rounds before `j` all met other keys. */
  ghost predicate Passed<K, V>(slots: seq<Slot<K, V>>, h: nat, key: K, j: nat)
    requires |slots| > 0
  {
    forall i {:trigger ProbeAt(h, i, |slots|)} :: 0 <= i < j ==>
      var s := slots[ProbeAt(h, i, |slots|)]; s.Filled? && s.key != key
  }

  lemma {:induction false} SearchIndex<K, V>(slots: seq<Slot<K, V>>, h: nat, key: K, j: nat)
    requires |slots| > 0 && j <= |slots|
    ensures var r := SearchFrom(slots, h, key, j);
      && (r.Found? ==> r.index < |slots| && slots[r.index].Filled? && slots[r.index].key == key)
      && (r.Vacant? ==> r.index < |slots| && slots[r.index].Empty?)
    decreases |slots| - j
  {
    if j < |slots| {
      SearchIndex(slots, h, key, j + 1);
    }
  }

  /** The loop invariant of a search: passed rounds do not change the outcome. */
  lemma {:induction false} PassedSearch<K, V>(slots: seq<Slot<K, V>>, h: nat, key: K, j: nat)
    requires |slots| > 0 && j <= |slots| && Passed(slots, h, key, j)
    ensures SearchFrom(slots, h, key, 0) == SearchFrom(slots, h, key, j)
    decreases j
  {
    if j > 0 {
      PassedSearch(slots, h, key, j - 1);
      var i := ProbeAt(h, j - 1, |slots|);
    }
  }

  lemma {:induction false} ExhaustedPassed<K, V>(slots: seq<Slot<K, V>>, h: nat, key: K, j: nat)
    requires |slots| > 0 && j <= |slots| && Passed(slots, h, key, j)
    requires SearchFrom(slots, h, key, j) == Exhausted
    ensures Passed(slots, h, key, |slots|)
    decreases |slots| - j
  {
    if j < |slots| {
      assert Passed(slots, h, key, j + 1);
      ExhaustedPassed(slots, h, key, j + 1);
    }
  }

  /** Lookups in a consistent table answer exactly what the abstract map holds. */
  lemma GetIsMapLookup<K(!new), V>(slots: seq<Slot<K, V>>, hash: K -> nat, key: K)
    requires Consistent(slots, hash)
    ensures var m := Contents(slots, hash); var r := GetSpec(slots, hash, key);
      && (r.Hit? <==> key in m)
      && (r.Hit? ==> r.val == m[key])
      && (r.GetPanic? <==> Full(slots) && key !in m)
  {
    var h := hash(key);
    SearchIndex(slots, h, key, 0);
    var r := Search(slots, hash, key);
    if key in Contents(slots, hash) {
      var i :| 0 <= i < |slots| && slots[i].Filled? && slots[i].key == key;
      assert r == Found(i);
    }
    if r.Exhausted? {
      ExhaustedPassed(slots, h, key, 0);
      forall i | 0 <= i < |slots|
        ensures slots[i].Filled?
      {
        ProbeVisitsEverySlotOnce(h, |slots|, i);
      }
    }
  }

  /** Filling an empty slot does not disturb a search that finds its key. */
  lemma {:induction false} FillKeepsFound<K, V>(slots: seq<Slot<K, V>>, h: nat, key: K, j: nat, i: nat, s: Slot<K, V>)
    requires |slots| > 0 && j <= |slots| && i < |slots|
    requires slots[i].Empty? && SearchFrom(slots, h, key, j).Found?
    ensures SearchFrom(slots[i := s], h, key, j) == SearchFrom(slots, h, key, j)
    decreases |slots| - j
  {
    if j < |slots| {
      var p := ProbeAt(h, j, |slots|);
      if slots[p].key != key {
        FillKeepsFound(slots, h, key, j + 1, i, s);
      }
    }
  }

  lemma {:induction false} FillIsFound<K, V>(slots: seq<Slot<K, V>>, h: nat, key: K, val: V, j: nat)
    requires |slots| > 0 && j <= |slots|
    requires SearchFrom(slots, h, key, j).Vacant?
    requires SearchFrom(slots, h, key, j).index < |slots|
    requires slots[SearchFrom(slots, h, key, j).index].Empty?
    ensures var i := SearchFrom(slots, h, key, j).index;
      SearchFrom(slots[i := Filled(key, val)], h, key, j) == Found(i)
    decreases |slots| - j
  {
    var p := ProbeAt(h, j, |slots|);
    if slots[p].Filled? {
      FillIsFound(slots, h, key, val, j + 1);
    }
  }

  /** An insert is a first-write-wins update of the abstract map, and keeps the table consistent. */
  lemma InsertIsFirstWrite<K(!new), V>(slots: seq<Slot<K, V>>, hash: K -> nat, key: K, val: V)
    requires Consistent(slots, hash)
    ensures var m := Contents(slots, hash); var (after, r) := InsertSpec(slots, hash, key, val);
      && Consistent(after, hash)
      && |after| == |slots|
      && (r.AlreadyPresent? <==> key in m)
      && (r.AlreadyPresent? ==> after == slots && r.first == m[key])
      && (r.Inserted? ==> Contents(after, hash) == m[key := val])
      && (r.InsertPanic? <==> Full(slots) && key !in m)
      && (r.InsertPanic? ==> after == slots)
      && !r.CapacityExceeded?
  {
    GetIsMapLookup(slots, hash, key);
    SearchIndex(slots, hash(key), key, 0);
    var (after, r) := InsertSpec(slots, hash, key, val);
    if r.Inserted? {
      var i := Search(slots, hash, key).index;
      FillIsFound(slots, hash(key), key, val, 0);
      forall x | 0 <= x < |after| && after[x].Filled?
        ensures Search(after, hash, after[x].key) == Found(x)
      {
        if x != i {
          FillKeepsFound(slots, hash(slots[x].key), slots[x].key, 0, i, Filled(key, val));
        }
      }
      FillAddsEntry(slots, hash, i, key, val);
    }
  }

  lemma FillAddsEntry<K(!new), V>(slots: seq<Slot<K, V>>, hash: K -> nat, i: nat, key: K, val: V)
    requires i < |slots| && !slots[i].Filled? && Consistent(slots, hash) && Consistent(slots[i := Filled(key, val)], hash)
    requires key !in Contents(slots, hash)
    ensures Contents(slots[i := Filled(key, val)], hash) == Contents(slots, hash)[key := val]
  {
    var after := slots[i := Filled(key, val)];
    var m, m' := Contents(slots, hash), Contents(after, hash);
    assert after[i] == Filled(key, val);
    forall k
      ensures k in m' <==> k in m[key := val]
      ensures k in m' ==> m'[k] == m[key := val][k]
    {
      if k in m {
        var x :| 0 <= x < |slots| && slots[x].Filled? && slots[x].key == k;
        assert after[x] == slots[x];
      }
    }
  }

  ghost predicate DistinctKeys<K, V>(slots: seq<Slot<K, V>>) {
    forall a, b :: 0 <= a < b < |slots| && slots[a].Filled? && slots[b].Filled? ==> slots[a].key != slots[b].key
  }

  /** No key sits in two slots. */
  lemma KeysAreUnique<K(!new), V>(slots: seq<Slot<K, V>>, hash: K -> nat)
    requires Consistent(slots, hash)
    ensures DistinctKeys(slots)
  {
    assert forall a :: 0 <= a < |slots| && slots[a].Filled? ==> Search(slots, hash, slots[a].key) == Found(a);
  }

  ghost function KeysUpTo<K, V>(slots: seq<Slot<K, V>>, n: nat): set<K>
    requires n <= |slots|
  {
    if n == 0 then {}
    else KeysUpTo(slots, n - 1) + (if slots[n - 1].Filled? then {slots[n - 1].key} else {})
  }

  lemma {:induction false} KeysUpToMembers<K, V>(slots: seq<Slot<K, V>>, n: nat, k: K)
    requires n <= |slots|
    ensures k in KeysUpTo(slots, n) <==> exists i :: 0 <= i < n && slots[i].Filled? && slots[i].key == k
    decreases n
  {
    if n > 0 {
      KeysUpToMembers(slots, n - 1, k);
    }
  }

  ghost predicate FilledUpTo<K, V>(slots: seq<Slot<K, V>>, n: nat)
    requires n <= |slots|
  {
    forall i :: 0 <= i < n ==> slots[i].Filled?
  }

  lemma {:induction false} KeyCount<K, V>(slots: seq<Slot<K, V>>, n: nat)
    requires DistinctKeys(slots) && n <= |slots|
    ensures |KeysUpTo(slots, n)| <= n
    ensures |KeysUpTo(slots, n)| == n <==> FilledUpTo(slots, n)
    decreases n
  {
    if n > 0 {
      KeyCount(slots, n - 1);
      if slots[n - 1].Filled? {
        KeysUpToMembers(slots, n - 1, slots[n - 1].key);
      }
      assert FilledUpTo(slots, n) <==> FilledUpTo(slots, n - 1) && slots[n - 1].Filled?;
    }
  }

  /** The table is full exactly when it holds as many keys as it has slots. */
  lemma FullWhenCounted<K(!new), V>(slots: seq<Slot<K, V>>, hash: K -> nat)
    requires Consistent(slots, hash)
    ensures |Contents(slots, hash)| <= |slots|
    ensures Full(slots) <==> |Contents(slots, hash)| == |slots|
  {
    KeysAreUnique(slots, hash);
    KeyCount(slots, |slots|);
    assert FilledUpTo(slots, |slots|) <==> Full(slots);
    var m := Contents(slots, hash);
    forall k
      ensures k in m.Keys <==> k in KeysUpTo(slots, |slots|)
    {
      KeysUpToMembers(slots, |slots|, k);
    }
    assert m.Keys == KeysUpTo(slots, |slots|);
  }

  // ---- capacity ----

  /** `usize::next_power_of_two`, by doubling from `p`. */
  function NextPow2From(p: nat, n: nat): nat
    requires p > 0
    decreases if p < n then n - p else 0
  {
    if p >= n then p else NextPow2From(2 * p, n)
  }

  function NextPow2(n: nat): nat {
    NextPow2From(1, n)
  }

  /** The capacity that `new` allocates for a requested one; the two branches differ only in name. */
  function TableCapacity(requested: nat): nat {
    var next := NextPow2(requested);
    if next as real >= (requested as real) / 0.75 then next else NextPow2(next)
  }

  lemma {:induction false} NextPow2FromProps(p: nat, n: nat)
    requires IsPow2(p)
    ensures IsPow2(NextPow2From(p, n)) && NextPow2From(p, n) >= n
    ensures NextPow2From(p, n) == p || NextPow2From(p, n) < 2 * n
    decreases if p < n then n - p else 0
  {
    if p < n {
      DoubledIsPow2(p);
      NextPow2FromProps(2 * p, n);
    }
  }

  lemma {:induction false} NextPow2FromFixed(p: nat, n: nat)
    requires IsPow2(p) && IsPow2(n) && p <= n
    ensures NextPow2From(p, n) == n
    decreases n - p
  {
    if p < n {
      DoubleBelow(p, n);
      NextPow2FromFixed(2 * p, n);
    }
  }

  lemma {:induction false} DoubleBelow(p: nat, n: nat)
    requires IsPow2(p) && IsPow2(n) && p < n
    ensures IsPow2(2 * p) && 2 * p <= n
    decreases p
  {
    if p > 1 {
      DoubleBelow(p / 2, n / 2);
    }
  }

  /**
   * The branch meant to keep the load under 75% changes nothing: the capacity is the next power of two either way,
   * never less than requested and less than twice it.
   */
  lemma CapacityIsNextPowerOfTwo(requested: nat)
    ensures TableCapacity(requested) == NextPow2(requested)
    ensures IsPow2(TableCapacity(requested)) && TableCapacity(requested) >= requested
    ensures requested > 0 ==> TableCapacity(requested) < 2 * requested
  {
    NextPow2FromProps(1, requested);
    NextPow2FromFixed(1, NextPow2(requested));
  }

  /** The capacity leaves no slot spare exactly for a requested power of two; then the promised load factor fails too. */
  lemma {:induction false} NoSpareSlotExactly(requested: nat)
    ensures TableCapacity(requested) == requested <==> IsPow2(requested)
    ensures IsPow2(requested) ==> !(TableCapacity(requested) as real >= (requested as real) / 0.75)
  {
    CapacityIsNextPowerOfTwo(requested);
    if IsPow2(requested) {
      NextPow2FromFixed(1, requested);
    }
  }

  // ---- whole insert histories ----

  ghost function FirstWrites<K, V>(ops: seq<(K, V)>): map<K, V> {
    if ops == [] then map[]
    else
      var (m, op) := (FirstWrites(ops[..|ops| - 1]), ops[|ops| - 1]);
      if op.0 in m then m else m[op.0 := op.1]
  }

  /** The table after a history of inserts, or None once one of them has panicked. */
  ghost function AfterInserts<K, V>(slots: seq<Slot<K, V>>, hash: K -> nat, ops: seq<(K, V)>)
    : (r: Option<seq<Slot<K, V>>>)
    requires |slots| > 0
    ensures r.Some? ==> |r.value| == |slots|
    decreases |ops|
  {
    if ops == [] then Some(slots)
    else
      match AfterInserts(slots, hash, ops[..|ops| - 1])
      case None => None
      case Some(before) =>
        var op := ops[|ops| - 1];
        var (after, r) := InsertSpec(before, hash, op.0, op.1);
        if r.InsertPanic? then None else Some(after)
  }

  ghost function EmptyTable<K, V>(n: nat): (s: seq<Slot<K, V>>)
    ensures |s| == n
  {
    seq(n, _ => Empty)
  }

  /**
   * The table refines a first-write-wins map over every history of inserts, and a history panics exactly when it
   * brings more distinct keys than there are slots.
   */
  lemma {:induction false} TableRefinesFirstWrites<K(!new), V>(n: nat, hash: K -> nat, ops: seq<(K, V)>)
    requires IsPow2(n)
    ensures var r := AfterInserts(EmptyTable(n), hash, ops);
      && (r.None? <==> |FirstWrites(ops)| > n)
      && (r.Some? ==> Consistent(r.value, hash) && Contents(r.value, hash) == FirstWrites(ops))
    decreases |ops|
  {
    var e := EmptyTable<K, V>(n);
    if ops == [] {
      assert Contents(e, hash) == map[];
    } else {
      var init := ops[..|ops| - 1];
      TableRefinesFirstWrites(n, hash, init);
      var before := AfterInserts(e, hash, init);
      var op := ops[|ops| - 1];
      FirstWritesGrow(ops);
      if before.Some? {
        InsertIsFirstWrite(before.value, hash, op.0, op.1);
        FullWhenCounted(before.value, hash);
      }
    }
  }

  lemma FirstWritesGrow<K, V>(ops: seq<(K, V)>)
    requires ops != []
    ensures var m := FirstWrites(ops[..|ops| - 1]); var k := ops[|ops| - 1].0;
      |FirstWrites(ops)| == if k in m then |m| else |m| + 1
  {
    var m, op := FirstWrites(ops[..|ops| - 1]), ops[|ops| - 1];
    if op.0 !in m {
      assert FirstWrites(ops).Keys == m.Keys + {op.0};
    }
  }

  /** As many distinct keys as were requested always fit: no panic, no capacity error. */
  lemma RequestedKeysFit<K(!new), V>(requested: nat, hash: K -> nat, ops: seq<(K, V)>)
    requires |FirstWrites(ops)| <= requested
    ensures var n := TableCapacity(requested);
      && n > 0
      && var r := AfterInserts(EmptyTable(n), hash, ops);
      && r.Some? && Consistent(r.value, hash) && Contents(r.value, hash) == FirstWrites(ops)
  {
    CapacityIsNextPowerOfTwo(requested);
    TableRefinesFirstWrites(TableCapacity(requested), hash, ops);
  }

  /**
   * Once every requested key is in, looking up any other key panics exactly when the requested number was a power of
   * two; below that number of keys no lookup panics.
   */
  lemma AbsentLookupPanicsExactly<K(!new), V>(requested: nat, hash: K -> nat, ops: seq<(K, V)>, key: K)
    requires |FirstWrites(ops)| <= requested && key !in FirstWrites(ops)
    ensures var n := TableCapacity(requested);
      && n > 0
      && var r := AfterInserts(EmptyTable(n), hash, ops);
      && r.Some?
      && (GetSpec(r.value, hash, key).GetPanic? <==> |FirstWrites(ops)| == requested && IsPow2(requested))
  {
    CapacityIsNextPowerOfTwo(requested);
    NoSpareSlotExactly(requested);
    RequestedKeysFit(requested, hash, ops);
    var t := AfterInserts(EmptyTable(TableCapacity(requested)), hash, ops).value;
    GetIsMapLookup(t, hash, key);
    FullWhenCounted(t, hash);
  }
}
