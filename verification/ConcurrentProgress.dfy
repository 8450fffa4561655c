/**
 * Every call on the map returns. However the other threads are interleaved, an insert or a get in flight ends within as
 * many steps of its own as there are slots, and one more; an insert of a new key then has stored its entry.
 */
module ConcurrentProgress {
  import opened OpenTable
  import opened ConcurrentViews

  // ---- inserts ----

  /** The writer is inserting `key`; the value is dropped once the key has been found. */
  predicate Inserting<K(==), V(==)>(w: Writer<K, V>, key: K, val: V) {
    match w
    case Looking(c, v) => c.key == key && v == val
    case Rereading(k, _) => k == key
    case Setting(k, v, _) => k == key && v == val
    case Idle => false
    case Finished(_, _) => false
  }

  /** How many steps the writer needs at most. */
  function WriterRank<K, V>(slots: seq<Slot<K, V>>, w: Writer<K, V>): int {
    match w
    case Looking(c, _) => |slots| - c.i + 1
    case Rereading(_, _) => 1
    case Setting(_, _, _) => 1
    case Idle => 0
    case Finished(_, _) => 0
  }

  /** An insert can start exactly when no other one is in flight, and looks for its key with its value in hand. */
  lemma InsertStarts<K(!new), V>(s: State<K, V>, hash: K -> nat, key: K, val: V)
    requires Inv(s, hash)
    ensures Apply(s, hash, StartInsert(key, val)).Some? <==> s.writer.Idle? || s.writer.Finished?
    ensures Apply(s, hash, StartInsert(key, val)).Some? ==>
      var t := Apply(s, hash, StartInsert(key, val)).value;
      && t.slots == s.slots && Inserting(t.writer, key, val) && WriterRank(t.slots, t.writer) == |s.slots| + 1
  {
  }

  /** What an insert in flight will do to the slots, and answer: it is decided by the slots alone. */
  ghost predicate Ends<K(!new), V>(slots: seq<Slot<K, V>>, hash: K -> nat, key: K, val: V, t: State<K, V>)
    requires |slots| > 0
  {
    t.writer.Finished? && t.writer.key == key && (t.slots, t.writer.result) == InsertSpec(slots, hash, key, val)
  }

  lemma WriterAdvances<K(!new), V>(s: State<K, V>, hash: K -> nat, key: K, val: V)
    requires Inv(s, hash) && Inserting(s.writer, key, val)
    ensures WriterRank(s.slots, s.writer) >= 1 && Apply(s, hash, WriterStep).Some?
    ensures var t := Apply(s, hash, WriterStep).value;
      if t.writer.Finished? then Ends(s.slots, hash, key, val, t)
      else
        && t.slots == s.slots && Inserting(t.writer, key, val)
        && WriterRank(t.slots, t.writer) < WriterRank(s.slots, s.writer)
  {
    StepWriterOk(s.slots, hash, s.writer);
    SearchIndex(s.slots, hash(key), key, 0);
    match s.writer {
      case Looking(c, _) => LookOnceOk(s.slots, hash, c);
      case Rereading(k, i) => assert Holds(s.slots, i, key); assert Search(s.slots, hash, s.slots[i].key) == Found(i);
      case Setting(_, _, _) =>
    }
  }

  /** Left alone, the writer returns. */
  lemma {:induction false} InsertReturnsAlone<K(!new), V>(s: State<K, V>, hash: K -> nat, key: K, val: V)
    returns (n: nat, t: State<K, V>)
    requires Inv(s, hash) && Inserting(s.writer, key, val)
    ensures 1 <= n <= WriterRank(s.slots, s.writer)
    ensures Runs(s, hash, seq(n, _ => WriterStep), t) && Ends(s.slots, hash, key, val, t)
    decreases WriterRank(s.slots, s.writer)
  {
    WriterAdvances(s, hash, key, val);
    StepKeepsInv(s, hash, WriterStep);
    var u := Apply(s, hash, WriterStep).value;
    if u.writer.Finished? {
      n, t := 1, u;
      assert seq<Step<K, V>>(1, _ => WriterStep)[1..] == [];
    } else {
      var m;
      m, t := InsertReturnsAlone(u, hash, key, val);
      n := m + 1;
      assert seq<Step<K, V>>(n, _ => WriterStep)[1..] == seq(m, _ => WriterStep);
    }
  }

  function Own<K(==), V(==)>(steps: seq<Step<K, V>>, step: Step<K, V>): nat {
    if steps == [] then 0 else (if steps[0] == step then 1 else 0) + Own(steps[1..], step)
  }

  lemma OthersLeaveWriter<K(!new), V>(s: State<K, V>, hash: K -> nat, step: Step<K, V>, key: K, val: V)
    requires Inv(s, hash) && Apply(s, hash, step).Some? && Inserting(s.writer, key, val) && step != WriterStep
    ensures var t := Apply(s, hash, step).value; t.slots == s.slots && t.writer == s.writer
  {
  }

  /**
   * In every interleaving an insert in flight keeps its key and value, nothing else touches the slots, and it returns
   * within |slots| + 1 of its own steps, with the first-write-wins insert done on the slots as they were.
   */
  lemma {:induction false} InsertReturns<K(!new), V>(s: State<K, V>, hash: K -> nat, steps: seq<Step<K, V>>, t: State<K, V>,
                                                    key: K, val: V) returns (j: nat, u: State<K, V>)
    requires Inv(s, hash) && Runs(s, hash, steps, t) && Inserting(s.writer, key, val)
    requires Own(steps, WriterStep) >= WriterRank(s.slots, s.writer)
    ensures j < |steps| && steps[j] == WriterStep && Runs(s, hash, steps[..j + 1], u)
    ensures Ends(s.slots, hash, key, val, u)
    decreases |steps|
  {
    WriterAdvances(s, hash, key, val);
    StepKeepsInv(s, hash, steps[0]);
    var next := Apply(s, hash, steps[0]).value;
    if next.writer.Finished? && steps[0] == WriterStep {
      j, u := 0, next;
      assert steps[..1][1..] == [];
    } else {
      if steps[0] != WriterStep {
        OthersLeaveWriter(s, hash, steps[0], key, val);
      }
      j, u := InsertReturns(next, hash, steps[1..], t, key, val);
      assert steps[..j + 2][1..] == steps[1..][..j + 1];
      j := j + 1;
    }
  }

  lemma {:induction false} RunsRest<K(!new), V>(s: State<K, V>, hash: K -> nat, steps: seq<Step<K, V>>, t: State<K, V>,
                                                n: nat, u: State<K, V>)
    requires Inv(s, hash) && Runs(s, hash, steps, t) && n <= |steps| && Runs(s, hash, steps[..n], u)
    ensures Inv(u, hash) && Runs(u, hash, steps[n..], t)
    decreases |steps|
  {
    if n > 0 {
      StepKeepsInv(s, hash, steps[0]);
      assert steps[..n][1..] == steps[1..][..n - 1];
      RunsRest(Apply(s, hash, steps[0]).value, hash, steps[1..], t, n - 1, u);
      assert steps[n..] == steps[1..][n - 1..];
    }
  }

  /**
   * An insert that is started and given its steps has stored its entry, unless the key was there, whose first value stays.
   * From then on every get finds it.
   */
  lemma InsertStores<K(!new), V>(s: State<K, V>, hash: K -> nat, steps: seq<Step<K, V>>, t: State<K, V>, key: K, val: V)
    requires Inv(s, hash) && Runs(s, hash, [StartInsert(key, val)] + steps, t)
    requires Own(steps, WriterStep) >= |s.slots| + 1
    requires key in Contents(s.slots, hash) || !Full(s.slots)
    ensures Inv(t, hash) && key in Contents(t.slots, hash)
    ensures Contents(t.slots, hash)[key] == if key in Contents(s.slots, hash) then Contents(s.slots, hash)[key] else val
  {
    InsertStarts(s, hash, key, val);
    var all := [StartInsert(key, val)] + steps;
    assert all[1..] == steps;
    StepKeepsInv(s, hash, all[0]);
    var a := Apply(s, hash, all[0]).value;
    var j, u := InsertReturns(a, hash, steps, t, key, val);
    RunsRest(a, hash, steps, t, j + 1, u);
    InsertIsFirstWrite(s.slots, hash, key, val);
    RunFills(u, hash, steps[j + 1..], t);
    FillingGrowsContents(u.slots, t.slots, hash);
  }

  // ---- gets ----

  predicate Getting<K(==), V>(r: Reader<K, V>, key: K) {
    match r
    case Scanning(c) => c.key == key
    case Reading(k, _) => k == key
    case Done(_, _) => false
  }

  function ReaderRank<K, V>(slots: seq<Slot<K, V>>, r: Reader<K, V>): int {
    match r
    case Scanning(c) => |slots| - c.i + 1
    case Reading(_, _) => 1
    case Done(_, _) => 0
  }

  lemma GetStarts<K(!new), V>(s: State<K, V>, hash: K -> nat, id: nat, key: K)
    requires Inv(s, hash)
    ensures Apply(s, hash, StartGet(id, key)).Some? <==> id !in s.readers || s.readers[id].Done?
    ensures Apply(s, hash, StartGet(id, key)).Some? ==>
      var t := Apply(s, hash, StartGet(id, key)).value;
      && t.slots == s.slots && id in t.readers && Getting(t.readers[id], key)
      && ReaderRank(t.slots, t.readers[id]) == |s.slots| + 1
  {
  }

  /** A view looks up `key`. */
  ghost predicate InGet<K(!new), V>(s: State<K, V>, id: nat, key: K) {
    id in s.readers && Getting(s.readers[id], key)
  }

  lemma ReaderAdvances<K(!new), V>(s: State<K, V>, hash: K -> nat, id: nat, key: K)
    requires Inv(s, hash) && InGet(s, id, key)
    ensures ReaderRank(s.slots, s.readers[id]) >= 1 && Apply(s, hash, ReaderStep(id)).Some?
    ensures var t := Apply(s, hash, ReaderStep(id)).value;
      && id in t.readers
      && if t.readers[id].Done? then t.readers[id].key == key
         else Getting(t.readers[id], key) && ReaderRank(t.slots, t.readers[id]) < ReaderRank(s.slots, s.readers[id])
  {
    assert ReaderOk(s.slots, hash, s.readers[id]);
  }

  lemma OthersLeaveReader<K(!new), V>(s: State<K, V>, hash: K -> nat, step: Step<K, V>, id: nat, key: K)
    requires Inv(s, hash) && Apply(s, hash, step).Some? && InGet(s, id, key) && step != ReaderStep(id)
    ensures var t := Apply(s, hash, step).value;
      id in t.readers && t.readers[id] == s.readers[id] && |t.slots| == |s.slots|
  {
  }

  /**
   * In every interleaving, the writer's steps included, a get in flight returns within |slots| + 1 of its own steps, with
   * what the map holds at that instant.
   */
  lemma {:induction false} GetReturns<K(!new), V>(s: State<K, V>, hash: K -> nat, steps: seq<Step<K, V>>, t: State<K, V>,
                                                 id: nat, key: K) returns (j: nat, u: State<K, V>)
    requires Inv(s, hash) && Runs(s, hash, steps, t) && InGet(s, id, key)
    requires Own(steps, ReaderStep(id)) >= ReaderRank(s.slots, s.readers[id])
    ensures j < |steps| && steps[j] == ReaderStep(id) && Runs(s, hash, steps[..j + 1], u) && Inv(u, hash)
    ensures id in u.readers && u.readers[id].Done? && u.readers[id].key == key
    ensures Answers(u.slots, hash, key, u.readers[id].result)
    decreases |steps|
  {
    ReaderAdvances(s, hash, id, key);
    StepKeepsInv(s, hash, steps[0]);
    var next := Apply(s, hash, steps[0]).value;
    if steps[0] == ReaderStep(id) && next.readers[id].Done? {
      j, u := 0, next;
      assert steps[..1][1..] == [];
      GetLinearizes(s, hash, id);
    } else {
      if steps[0] != ReaderStep(id) {
        OthersLeaveReader(s, hash, steps[0], id, key);
      }
      j, u := GetReturns(next, hash, steps[1..], t, id, key);
      assert steps[..j + 2][1..] == steps[1..][..j + 1];
      j := j + 1;
    }
  }
}
