/** The append-only map and its views, over one shared array of write-once slots. */
module AppendOnlyMap {
  import opened Probing
  import opened OpenTable

  /** Outcome of setting one slot of the backing vector. */
  datatype SetResult = SetDone | SetCapacityError | SetPanic

  /** `usize::next_power_of_two`. */
  method NextPowerOfTwo(n: nat) returns (p: nat)
    ensures p == NextPow2(n)
  {
    p := 1;
    while p < n
      invariant p > 0 && NextPow2From(p, n) == NextPow2(n)
      decreases n - p
    {
      p := 2 * p;
    }
  }

  /** The probe loop, shared by the map and its views. */
  method SearchSlots<K(==), V>(elements: array<Slot<K, V>>, hash: K -> nat, key: K) returns (r: SearchResult)
    requires elements.Length > 0
    ensures r == Search(elements[..], hash, key)
    ensures r.Found? ==> r.index < elements.Length && elements[r.index].Filled? && elements[r.index].key == key
    ensures r.Vacant? ==> r.index < elements.Length && elements[r.index].Empty?
  {
    var capacity := elements.Length;
    var keyHash := hash(key);
    ghost var slots := elements[..];
    var i, indexIncr, index := 0, 0, keyHash % capacity;
    while true
      invariant 0 <= i <= capacity && indexIncr == i && index == ProbeAt(keyHash, i, capacity)
      invariant Search(slots, hash, key) == SearchFrom(slots, keyHash, key, i)
      decreases capacity - i
    {
      if i == capacity {
        return Exhausted;
      }
      match elements[index] {
        case Filled(k, _) =>
          if k == key {
            return Found(index);
          }
        case Empty =>
          return Vacant(index);
      }
      ProbeStep(keyHash, i, capacity);
      i := i + 1;
      indexIncr := indexIncr + 1;
      index := (index + indexIncr) % capacity;
    }
  }

  /** A read-only view: it shares the slots with the map that made it. */
  class MapView<K(==), V> {
    const hash: K -> nat
    const elements: array<Slot<K, V>>

    constructor (hash: K -> nat, elements: array<Slot<K, V>>)
      ensures this.hash == hash && this.elements == elements
    {
      this.hash := hash;
      this.elements := elements;
    }

    method Get(key: K) returns (r: GetResult<V>)
      requires elements.Length > 0
      ensures r == GetSpec(elements[..], hash, key)
    {
      var s := SearchSlots(elements, hash, key);
      match s {
        case Found(index) => r := Hit(elements[index].val);
        case Vacant(_) => r := Miss;
        case Exhausted => r := GetPanic;
      }
    }
  }

  class AppendOnlyArcMap<K(==,!new), V> {
    const hash: K -> nat
    const capacity: nat
    const elements: array<Slot<K, V>>
    /** Never advanced by `Set`, so it stays zero for the whole life of a map. */
    var used: nat

    ghost predicate Valid()
      reads this, elements
    {
      && capacity == elements.Length && used == 0
      && Consistent(elements[..], hash)
    }

    constructor (requested: nat, hash: K -> nat)
      ensures Valid() && fresh(elements) && this.hash == hash
      ensures capacity == TableCapacity(requested) && elements[..] == EmptyTable(capacity)
      ensures Contents(elements[..], hash) == map[]
    {
      var next := NextPowerOfTwo(requested);
      var cap := next;
      if !(next as real >= (requested as real) / 0.75) {
        cap := NextPowerOfTwo(next);
      }
      this.hash := hash;
      this.capacity := cap;
      this.elements := new Slot<K, V>[cap](_ => Empty);
      this.used := 0;
      new;
      CapacityIsNextPowerOfTwo(requested);
      assert elements[..] == EmptyTable(capacity);
    }

    method View() returns (v: MapView<K, V>)
      ensures v.hash == hash && v.elements == elements
    {
      v := new MapView(hash, elements);
    }

    /** `AppendOnlyArcVec::set` in SetMode: panics on a slot that is already set, and leaves `used` alone. */
    method Set(key: K, val: V, i: nat) returns (r: SetResult)
      requires i < elements.Length
      modifies elements
      ensures r == if used >= capacity then SetCapacityError
                   else if old(elements[i]).Filled? then SetPanic else SetDone
      ensures elements[..] == if r.SetDone? then old(elements[..])[i := Filled(key, val)] else old(elements[..])
    {
      if used >= capacity {
        return SetCapacityError;
      }
      if elements[i].Filled? {
        return SetPanic;
      }
      elements[i] := Filled(key, val);
      r := SetDone;
    }

    /** The new table and outcome are `InsertSpec` of the old table: neither CapacityError nor a double set can occur. */
    method Insert(key: K, val: V) returns (r: InsertResult<V>)
      requires Valid()
      modifies elements
      ensures Valid()
      ensures (elements[..], r) == old(InsertSpec(elements[..], hash, key, val))
    {
      ghost var before := elements[..];
      InsertIsFirstWrite(before, hash, key, val);
      var s := SearchSlots(elements, hash, key);
      match s {
        case Found(index) =>
          r := AlreadyPresent(elements[index].val);
        case Vacant(index) =>
          var outcome := Set(key, val, index);
          r := match outcome
               case SetDone => Inserted
               case SetCapacityError => CapacityExceeded
               case SetPanic => InsertPanic;
        case Exhausted =>
          r := InsertPanic;
      }
    }

    method Get(key: K) returns (r: GetResult<V>)
      requires Valid()
      ensures r == GetSpec(elements[..], hash, key)
      ensures r.Hit? <==> key in Contents(elements[..], hash)
      ensures r.Hit? ==> r.val == Contents(elements[..], hash)[key]
    {
      GetIsMapLookup(elements[..], hash, key);
      var s := SearchSlots(elements, hash, key);
      match s {
        case Found(index) => r := Hit(elements[index].val);
        case Vacant(_) => r := Miss;
        case Exhausted => r := GetPanic;
      }
    }
  }
}
