/**
 * The map under concurrency: one writer and any number of views, each reading or setting one slot per step, in every
 * interleaving. A slot read and a slot set are atomic (`OnceLock`).
 */
module ConcurrentViews {
  import opened Common
  import opened Probing
  import opened OpenTable

  /** The local variables of the probe loop. */
  datatype Cursor<+K> = Cursor(key: K, i: nat, incr: nat, index: nat)

  datatype Reader<+K, +V> =
    | Scanning(cursor: Cursor<K>)
    | Reading(key: K, index: nat)
    | Done(key: K, result: GetResult<V>)

  datatype Writer<+K, +V> =
    | Idle
    | Looking(cursor: Cursor<K>, val: V)
    | Rereading(key: K, index: nat)
    | Setting(key: K, val: V, index: nat)
    | Finished(key: K, result: InsertResult<V>)

  datatype State<K, V> = State(slots: seq<Slot<K, V>>, writer: Writer<K, V>, readers: map<nat, Reader<K, V>>)

  datatype Step<+K, +V> =
    | StartGet(id: nat, key: K)
    | ReaderStep(id: nat)
    | StartInsert(key: K, val: V)
    | WriterStep

  datatype Look<+K> = Continue(next: Cursor<K>) | Stop(found: SearchResult)

  function StartCursor<K, V>(slots: seq<Slot<K, V>>, hash: K -> nat, key: K): Cursor<K>
    requires |slots| > 0
  {
    Cursor(key, 0, 0, hash(key) % |slots|)
  }

  /** One turn of the loop, with its single slot read. */
  function LookOnce<K(==), V>(slots: seq<Slot<K, V>>, c: Cursor<K>): Look<K>
    requires |slots| > 0 && c.index < |slots|
  {
    if c.i == |slots| then Stop(Exhausted)
    else
      match slots[c.index]
      case Empty => Stop(Vacant(c.index))
      case Filled(k, _) =>
        if k == c.key then Stop(Found(c.index))
        else Continue(Cursor(c.key, c.i + 1, c.incr + 1, (c.index + (c.incr + 1)) % |slots|))
  }

  function StepReader<K(==), V>(slots: seq<Slot<K, V>>, r: Reader<K, V>): Option<Reader<K, V>>
    requires |slots| > 0
    requires r.Scanning? ==> r.cursor.index < |slots|
    requires r.Reading? ==> r.index < |slots|
  {
    match r
    case Scanning(c) =>
      (match LookOnce(slots, c)
       case Continue(next) => Some(Scanning(next))
       case Stop(Found(i)) => Some(Reading(c.key, i))
       case Stop(Vacant(_)) => Some(Done(c.key, Miss))
       case Stop(Exhausted) => Some(Done(c.key, GetPanic)))
    case Reading(key, i) => Some(Done(key, if slots[i].Filled? then Hit(slots[i].val) else GetPanic))
    case Done(_, _) => None
  }

  function StepWriter<K(==), V>(slots: seq<Slot<K, V>>, w: Writer<K, V>): Option<(seq<Slot<K, V>>, Writer<K, V>)>
    requires |slots| > 0
    requires w.Looking? ==> w.cursor.index < |slots|
    requires w.Rereading? || w.Setting? ==> w.index < |slots|
  {
    match w
    case Looking(c, val) =>
      (match LookOnce(slots, c)
       case Continue(next) => Some((slots, Looking(next, val)))
       case Stop(Found(i)) => Some((slots, Rereading(c.key, i)))
       case Stop(Vacant(i)) => Some((slots, Setting(c.key, val, i)))
       case Stop(Exhausted) => Some((slots, Finished(c.key, InsertPanic))))
    case Rereading(key, i) =>
      Some((slots, Finished(key, if slots[i].Filled? then AlreadyPresent(slots[i].val) else InsertPanic)))
    case Setting(key, val, i) =>
      if slots[i].Filled? then Some((slots, Finished(key, InsertPanic)))
      else Some((slots[i := Filled(key, val)], Finished(key, Inserted)))
    case Idle => None
    case Finished(_, _) => None
  }

  ghost predicate CursorOk<K, V>(slots: seq<Slot<K, V>>, hash: K -> nat, c: Cursor<K>) {
    && |slots| > 0
    && c.i <= |slots| && c.incr == c.i && c.index == ProbeAt(hash(c.key), c.i, |slots|)
    && Passed(slots, hash(c.key), c.key, c.i)
  }

  ghost predicate Holds<K, V>(slots: seq<Slot<K, V>>, i: nat, key: K) {
    i < |slots| && slots[i].Filled? && slots[i].key == key
  }

  ghost predicate ReaderOk<K(!new), V>(slots: seq<Slot<K, V>>, hash: K -> nat, r: Reader<K, V>)
    requires Consistent(slots, hash)
  {
    match r
    case Scanning(c) => CursorOk(slots, hash, c)
    case Reading(key, i) => Holds(slots, i, key)
    case Done(key, res) => res.Hit? ==> key in Contents(slots, hash) && Contents(slots, hash)[key] == res.val
  }

  ghost predicate WriterOk<K, V>(slots: seq<Slot<K, V>>, hash: K -> nat, w: Writer<K, V>)
    requires |slots| > 0
  {
    match w
    case Looking(c, _) => CursorOk(slots, hash, c)
    case Rereading(key, i) => Holds(slots, i, key)
    case Setting(key, _, i) => i < |slots| && Search(slots, hash, key) == Vacant(i)
    case Idle => true
    case Finished(_, _) => true
  }

  ghost predicate Inv<K(!new), V>(s: State<K, V>, hash: K -> nat) {
    && Consistent(s.slots, hash)
    && WriterOk(s.slots, hash, s.writer)
    && forall id :: id in s.readers ==> ReaderOk(s.slots, hash, s.readers[id])
  }

  /** The state after one step, or None when the step cannot be taken. */
  ghost function Apply<K(!new), V>(s: State<K, V>, hash: K -> nat, step: Step<K, V>): Option<State<K, V>>
    requires Inv(s, hash)
  {
    match step
    case StartGet(id, key) =>
      if id in s.readers && !s.readers[id].Done? then None
      else Some(s.(readers := s.readers[id := Scanning(StartCursor(s.slots, hash, key))]))
    case ReaderStep(id) =>
      if id !in s.readers then None
      else
        (match StepReader(s.slots, s.readers[id])
         case None => None
         case Some(r) => Some(s.(readers := s.readers[id := r])))
    case StartInsert(key, val) =>
      if s.writer.Idle? || s.writer.Finished? then
        Some(s.(writer := Looking(StartCursor(s.slots, hash, key), val)))
      else None
    case WriterStep =>
      (match StepWriter(s.slots, s.writer)
       case None => None
       case Some((slots, w)) => Some(s.(slots := slots, writer := w)))
  }

  lemma PassedNext<K, V>(slots: seq<Slot<K, V>>, h: nat, key: K, j: nat)
    requires |slots| > 0 && Passed(slots, h, key, j)
    requires var s := slots[ProbeAt(h, j, |slots|)]; s.Filled? && s.key != key
    ensures Passed(slots, h, key, j + 1)
  {
  }

  lemma LookOnceOk<K, V>(slots: seq<Slot<K, V>>, hash: K -> nat, c: Cursor<K>)
    requires CursorOk(slots, hash, c)
    ensures match LookOnce(slots, c)
            case Continue(next) => CursorOk(slots, hash, next)
            case Stop(r) => r == Search(slots, hash, c.key) && (r.Found? ==> Holds(slots, r.index, c.key))
  {
    PassedSearch(slots, hash(c.key), c.key, c.i);
    if c.i < |slots| && slots[c.index].Filled? && slots[c.index].key != c.key {
      ProbeStep(hash(c.key), c.i, |slots|);
      PassedNext(slots, hash(c.key), c.key, c.i);
    }
  }

  /** The only change a step can make to the slots. */
  ghost predicate Filling<K, V>(a: seq<Slot<K, V>>, b: seq<Slot<K, V>>) {
    |a| == |b| && forall i :: 0 <= i < |a| && a[i].Filled? ==> b[i] == a[i]
  }

  lemma FillingKeepsReader<K(!new), V>(a: seq<Slot<K, V>>, b: seq<Slot<K, V>>, hash: K -> nat, r: Reader<K, V>)
    requires Consistent(a, hash) && Consistent(b, hash) && Filling(a, b) && ReaderOk(a, hash, r)
    ensures ReaderOk(b, hash, r)
  {
    if r.Done? && r.result.Hit? {
      FillingGrowsContents(a, b, hash);
    }
  }

  lemma FillingGrowsContents<K(!new), V>(a: seq<Slot<K, V>>, b: seq<Slot<K, V>>, hash: K -> nat)
    requires Consistent(a, hash) && Consistent(b, hash) && Filling(a, b)
    ensures forall k :: k in Contents(a, hash) ==> k in Contents(b, hash) && Contents(b, hash)[k] == Contents(a, hash)[k]
  {
    forall k | k in Contents(a, hash)
      ensures k in Contents(b, hash) && Contents(b, hash)[k] == Contents(a, hash)[k]
    {
      var i :| 0 <= i < |a| && a[i].Filled? && a[i].key == k;
      assert b[i] == a[i];
    }
  }

  lemma StepWriterOk<K(!new), V>(slots: seq<Slot<K, V>>, hash: K -> nat, w: Writer<K, V>)
    requires Consistent(slots, hash) && WriterOk(slots, hash, w)
    ensures match StepWriter(slots, w)
            case None => true
            case Some((after, w')) => Consistent(after, hash) && Filling(slots, after) && WriterOk(after, hash, w')
    ensures match StepWriter(slots, w)
            case None => true
            case Some((after, w')) => after == slots || (w.Setting? && (after, Inserted) == InsertSpec(slots, hash, w.key, w.val))
    ensures match StepWriter(slots, w)
            case Some((after, Finished(key, res))) =>
              && (res.AlreadyPresent? ==> key in Contents(slots, hash) && res.first == Contents(slots, hash)[key])
              && (res.InsertPanic? ==> Full(slots) && key !in Contents(slots, hash))
              && (res.Inserted? ==> w.Setting? && key == w.key)
              && !res.CapacityExceeded?
            case _ => true
  {
    match w {
      case Looking(c, val) =>
        LookOnceOk(slots, hash, c);
        GetIsMapLookup(slots, hash, c.key);
        SearchIndex(slots, hash(c.key), c.key, 0);
      case Setting(key, val, i) =>
        SearchIndex(slots, hash(key), key, 0);
        InsertIsFirstWrite(slots, hash, key, val);
      case Rereading(key, i) =>
      case Idle =>
      case Finished(_, _) =>
    }
  }

  lemma StepReaderOk<K(!new), V>(slots: seq<Slot<K, V>>, hash: K -> nat, r: Reader<K, V>)
    requires Consistent(slots, hash) && ReaderOk(slots, hash, r)
    ensures match StepReader(slots, r)
            case None => true
            case Some(r') => ReaderOk(slots, hash, r')
    ensures match StepReader(slots, r)
            case Some(Done(key, res)) => Answers(slots, hash, key, res)
            case _ => true
  {
    match r {
      case Scanning(c) =>
        LookOnceOk(slots, hash, c);
        GetIsMapLookup(slots, hash, c.key);
      case Reading(key, i) =>
        assert key in Contents(slots, hash);
      case Done(_, _) =>
    }
  }

  /** `res` is what the abstract map says about `key` at this instant; the panic needs a full table. */
  ghost predicate Answers<K(!new), V>(slots: seq<Slot<K, V>>, hash: K -> nat, key: K, res: GetResult<V>)
    requires Consistent(slots, hash)
  {
    var m := Contents(slots, hash);
    match res
    case Hit(v) => key in m && m[key] == v
    case Miss => key !in m
    case GetPanic => key !in m && Full(slots)
  }

  /** Every step, of any thread, keeps the invariant and only ever fills slots. */
  lemma StepKeepsInv<K(!new), V>(s: State<K, V>, hash: K -> nat, step: Step<K, V>)
    requires Inv(s, hash) && Apply(s, hash, step).Some?
    ensures var t := Apply(s, hash, step).value; Inv(t, hash) && Filling(s.slots, t.slots)
  {
    var t := Apply(s, hash, step).value;
    match step {
      case ReaderStep(id) =>
        StepReaderOk(s.slots, hash, s.readers[id]);
      case WriterStep =>
        StepWriterOk(s.slots, hash, s.writer);
        forall id | id in t.readers
          ensures ReaderOk(t.slots, hash, t.readers[id])
        {
          FillingKeepsReader(s.slots, t.slots, hash, s.readers[id]);
        }
      case StartGet(id, key) =>
      case StartInsert(key, val) =>
    }
  }

  /** The step in which a get returns is its linearization point: the answer is the map's at that very instant. */
  lemma GetLinearizes<K(!new), V>(s: State<K, V>, hash: K -> nat, id: nat)
    requires Inv(s, hash) && Apply(s, hash, ReaderStep(id)).Some?
    requires Apply(s, hash, ReaderStep(id)).value.readers[id].Done?
    ensures var t := Apply(s, hash, ReaderStep(id)).value;
      t.slots == s.slots && Answers(s.slots, hash, t.readers[id].key, t.readers[id].result)
  {
    StepReaderOk(s.slots, hash, s.readers[id]);
  }

  /**
   * Inserts linearize as well: the abstract map changes only in the step in which an insert of a new key returns, and
   * there it gains exactly that key; a repeated key returns the value stored first.
   */
  lemma InsertLinearizes<K(!new), V>(s: State<K, V>, hash: K -> nat, step: Step<K, V>)
    requires Inv(s, hash) && Apply(s, hash, step).Some?
    ensures var t := Apply(s, hash, step).value; var m := Contents(s.slots, hash);
      && Consistent(t.slots, hash)
      && (step == WriterStep && t.writer.Finished? && t.writer.result.Inserted? ==>
            s.writer.Setting? && t.writer.key == s.writer.key
            && t.writer.key !in m && Contents(t.slots, hash) == m[t.writer.key := s.writer.val])
      && (!(step == WriterStep && t.writer.Finished? && t.writer.result.Inserted?) ==> t.slots == s.slots)
      && (step == WriterStep && t.writer.Finished? && t.writer.result.AlreadyPresent? ==>
            t.writer.key in m && t.writer.result.first == m[t.writer.key])
      && (step == WriterStep && t.writer.Finished? && t.writer.result.InsertPanic? ==>
            t.writer.key !in m && Full(s.slots))
  {
    if step == WriterStep {
      StepWriterOk(s.slots, hash, s.writer);
      if s.writer.Setting? {
        SearchIndex(s.slots, hash(s.writer.key), s.writer.key, 0);
        InsertIsFirstWrite(s.slots, hash, s.writer.key, s.writer.val);
      }
    }
  }

  /** Any finite run of steps from `s` ends in `t`. */
  ghost predicate Runs<K(!new), V>(s: State<K, V>, hash: K -> nat, steps: seq<Step<K, V>>, t: State<K, V>)
    requires Inv(s, hash)
    decreases |steps|
  {
    if steps == [] then t == s
    else
      match Apply(s, hash, steps[0])
      case None => false
      case Some(u) => StepKeepsInv(s, hash, steps[0]); Runs(u, hash, steps[1..], t)
  }

  lemma {:induction false} RunFills<K(!new), V>(s: State<K, V>, hash: K -> nat, steps: seq<Step<K, V>>, t: State<K, V>)
    requires Inv(s, hash) && Runs(s, hash, steps, t)
    ensures Inv(t, hash) && Filling(s.slots, t.slots)
    decreases |steps|
  {
    if steps != [] {
      StepKeepsInv(s, hash, steps[0]);
      RunFills(Apply(s, hash, steps[0]).value, hash, steps[1..], t);
    }
  }

  /**
   * Over every interleaving: once a key is in the map (its insert has returned, or some get has returned its value),
   * every get of that key that returns later, however it was interleaved, returns that same value and never misses.
   */
  lemma LaterGetsAgree<K(!new), V>(s: State<K, V>, hash: K -> nat, steps: seq<Step<K, V>>, t: State<K, V>,
                                   id: nat, key: K)
    requires Inv(s, hash) && Runs(s, hash, steps, t)
    requires key in Contents(s.slots, hash)
    ensures Inv(t, hash)
    ensures Apply(t, hash, ReaderStep(id)).Some? ==>
      var r := Apply(t, hash, ReaderStep(id)).value.readers[id];
      r.Done? && r.key == key ==> r.result == Hit(Contents(s.slots, hash)[key])
  {
    RunFills(s, hash, steps, t);
    FillingGrowsContents(s.slots, t.slots, hash);
    if Apply(t, hash, ReaderStep(id)).Some? && Apply(t, hash, ReaderStep(id)).value.readers[id].Done? {
      GetLinearizes(t, hash, id);
    }
  }

  /** A value once returned by any view is returned by every later get of the same key, on every view. */
  lemma ReturnedValueIsFinal<K(!new), V>(s: State<K, V>, hash: K -> nat, first: nat, steps: seq<Step<K, V>>,
                                         t: State<K, V>, id: nat)
    requires Inv(s, hash) && Runs(s, hash, steps, t)
    requires first in s.readers && s.readers[first].Done? && s.readers[first].result.Hit?
    ensures Inv(t, hash)
    ensures Apply(t, hash, ReaderStep(id)).Some? ==>
      var r := Apply(t, hash, ReaderStep(id)).value.readers[id];
      r.Done? && r.key == s.readers[first].key ==> r.result == s.readers[first].result
  {
    assert ReaderOk(s.slots, hash, s.readers[first]);
    LaterGetsAgree(s, hash, steps, t, id, s.readers[first].key);
  }

  /** Every run starts here: a new map and no call in flight. */
  lemma InitialInv<K(!new), V>(requested: nat, hash: K -> nat)
    ensures Inv(State<K, V>.State(EmptyTable(TableCapacity(requested)), Idle, map[]), hash)
  {
    CapacityIsNextPowerOfTwo(requested);
  }
}
