/**
 * Any number of concurrent `num_exists` calls on one dynamic bit set. Each read of the shared vector, each of the two
 * halves of a push (reserving a place, publishing the word in it) and each `fetch_or` is a step of its own.
 */
module BitSetProtocol {
  import opened Common
  import opened AtomicBitSet

  datatype Phase =
    | Entered                  // `create_up_to` has begun
    | Looping                  // the vector exists; the word is looked up next
    | Missing                  // the word was not there; a push is next
    | Reserved(place: nat)     // this push has taken a place and not yet published its word
    | Created                  // `create_up_to` has returned
    | Holding                  // `exists` has a reference to the word
    | Done(answer: bool)
    | Panicked                 // an `unwrap` on nothing

  datatype Caller = Caller(num: nat, phase: Phase)

  datatype State = State(memory: Memory, callers: seq<Caller>)

  /** A new call, or the next step of the call with that index. */
  datatype Action = Enter(num: nat) | Go(id: nat)

  const START := State(Memory(Zero(), None), [])

  ghost predicate Recorded(m: Memory, n: nat) {
    Member(m.initial, Words(m.further), n)
  }

  datatype Memory = Memory(initial: Word, further: Option<seq<Option<Word>>>)

  datatype Outcome = Outcome(memory: Memory, phase: Phase)

  function Initialized(further: Option<seq<Option<Word>>>): (r: Option<seq<Option<Word>>>)
    ensures r.Some?
  {
    if further.Some? then further else Some([])
  }

  function FetchOrInitial(m: Memory, n: nat): Outcome
    requires n < 64
  {
    Outcome(m.(initial := Or(m.initial, OneAt(n))), Done(Positive(And(m.initial, OneAt(n)))))
  }

  function FetchOrFurther(m: Memory, n: nat): Outcome
    requires n >= 64 && HasWord(m.further, n)
  {
    IndexesIdentify(n, n);
    var w := m.further.value[AtomIndex(n)].value;
    Outcome(m.(further := Some(m.further.value[AtomIndex(n) := Some(Or(w, OneAt(BitIndex(n))))])),
            Done(Positive(And(w, OneAt(BitIndex(n))))))
  }

  function Next(m: Memory, c: Caller): Outcome {
    match c.phase
    case Entered =>
      if c.num < 64 then Outcome(m, Created) else Outcome(m.(further := Initialized(m.further)), Looping)
    case Looping => Outcome(m, if HasWord(m.further, c.num) then Created else Missing)
    case Missing =>
      if m.further.None? then Outcome(m, Panicked)
      else Outcome(m.(further := Some(m.further.value + [None])), Reserved(|m.further.value|))
    case Reserved(place) =>
      if m.further.None? || place >= |m.further.value| then Outcome(m, Panicked)
      else Outcome(m.(further := Some(m.further.value[place := Some(Zero())])), Looping)
    case Created =>
      if c.num < 64 then FetchOrInitial(m, c.num)
      else Outcome(m, if HasWord(m.further, c.num) then Holding else Panicked)
    case Holding =>
      if c.num >= 64 && HasWord(m.further, c.num) then FetchOrFurther(m, c.num) else Outcome(m, Panicked)
    case Done(_) => Outcome(m, c.phase)
    case Panicked => Outcome(m, c.phase)
  }

  function Apply(s: State, a: Action): State {
    match a
    case Enter(n) => State(s.memory, s.callers + [Caller(n, Entered)])
    case Go(id) =>
      if id < |s.callers| then
        var o := Next(s.memory, s.callers[id]);
        State(o.memory, s.callers[id := Caller(s.callers[id].num, o.phase)])
      else s
  }

  function Run(s: State, actions: seq<Action>): State
    decreases |actions|
  {
    if actions == [] then s else Run(Apply(s, actions[0]), actions[1..])
  }

  // ---- the invariant ----

  ghost predicate CallerOk(m: Memory, c: Caller) {
    match c.phase
    case Entered => true
    case Looping => c.num >= 64 && m.further.Some?
    case Missing => c.num >= 64 && m.further.Some?
    case Reserved(p) => c.num >= 64 && m.further.Some? && p < |m.further.value| && m.further.value[p].None?
    case Created => HasWord(m.further, c.num)
    case Holding => c.num >= 64 && HasWord(m.further, c.num)
    case Done(_) => HasWord(m.further, c.num) && Recorded(m, c.num)
    case Panicked => false
  }

  ghost predicate CallersOk(s: State) {
    forall i :: 0 <= i < |s.callers| ==> CallerOk(s.memory, s.callers[i])
  }

  /** No two pushes hold the same place. */
  ghost predicate PlacesDiffer(cs: seq<Caller>) {
    forall i, j :: 0 <= i < j < |cs| && cs[i].phase.Reserved? && cs[j].phase.Reserved? ==>
      cs[i].phase.place != cs[j].phase.place
  }

  predicate IsFirst(c: Caller, n: nat) {
    c.num == n && c.phase == Done(false)
  }

  ghost predicate SomeFirst(cs: seq<Caller>, n: nat) {
    exists i :: 0 <= i < |cs| && IsFirst(cs[i], n)
  }

  ghost predicate AtMostOneFirst(cs: seq<Caller>) {
    forall i, j :: 0 <= i < j < |cs| && cs[i].phase == Done(false) && cs[j].phase == Done(false) ==>
      cs[i].num != cs[j].num
  }

  /** A number is recorded exactly when some caller has been told that it was not. */
  ghost predicate RecordedByFirst(s: State) {
    forall n: nat :: Recorded(s.memory, n) <==> SomeFirst(s.callers, n)
  }

  ghost predicate Inv(s: State) {
    CallersOk(s) && PlacesDiffer(s.callers) && AtMostOneFirst(s.callers) && RecordedByFirst(s)
  }

  lemma StartIsOk()
    ensures Inv(START)
  {
    forall n: nat
      ensures !Recorded(START.memory, n)
    {
      if n < 64 {
        NoBitInZero(n);
      }
    }
  }

  // ---- one step ----

  /** Nothing that was published or recorded is lost; a reserved place stays empty until its own push fills it. */
  ghost predicate Grows(m: Memory, next: Memory, filled: int) {
    && (m.further.Some? ==> next.further.Some?)
    && |Words(m.further)| <= |Words(next.further)|
    && (forall i :: 0 <= i < |Words(m.further)| && Words(m.further)[i].Some? ==> Words(next.further)[i].Some?)
    && (forall i :: 0 <= i < |Words(m.further)| && i != filled && Words(m.further)[i].None? ==>
          Words(next.further)[i].None?)
  }

  predicate Finishes(c: Caller) {
    c.phase == Holding || (c.phase == Created && c.num < 64)
  }

  function PlaceOf(c: Caller): int {
    if c.phase.Reserved? then c.phase.place else -1
  }

  lemma NextGrows(m: Memory, c: Caller)
    requires CallerOk(m, c)
    ensures var o := Next(m, c);
      && Grows(m, o.memory, PlaceOf(c))
      && CallerMoves(m, o.memory, c, o.phase)
  {
  }

  ghost predicate CallerMoves(m: Memory, next: Memory, c: Caller, p: Phase) {
    && (p.Reserved? ==> m.further.Some? && p.place == |m.further.value|)
    && (p.Done? <==> c.phase.Done? || Finishes(c))
    && (c.phase.Done? ==> p == c.phase && next == m)
  }

  /** Only the finishing `fetch_or` records anything: its own number. It answers whether that was recorded before. */
  lemma NextRecords(m: Memory, c: Caller, k: nat)
    requires CallerOk(m, c)
    ensures Recorded(Next(m, c).memory, k) <==> Recorded(m, k) || (Finishes(c) && k == c.num)
    ensures Finishes(c) ==> Next(m, c).phase == Done(Recorded(m, c.num))
  {
    match c.phase
    case Entered => assert Words(Initialized(m.further)) == Words(m.further);
    case Missing => NewWordIsEmpty(Words(m.further), m.initial, None, k);
    case Reserved(place) => PublishingIsEmpty(Words(m.further), m.initial, place, k);
    case Created =>
      if c.num < 64 {
        RecordsOnly(Words(m.further), m.initial, c.num, k);
      }
    case Holding => RecordsOnly(Words(m.further), m.initial, c.num, k);
    case _ =>
  }

  lemma PublishingIsEmpty(further: seq<Option<Word>>, initial: Word, place: nat, k: nat)
    requires place < |further| && further[place].None?
    ensures Member(initial, further[place := Some(Zero())], k) <==> Member(initial, further, k)
  {
    if k >= 64 {
      IndexesIdentify(k, k);
      NoBitInZero(BitIndex(k));
    }
  }

  lemma NextCallerOk(m: Memory, c: Caller)
    requires CallerOk(m, c)
    ensures CallerOk(Next(m, c).memory, Caller(c.num, Next(m, c).phase))
  {
    NextRecords(m, c, c.num);
    NextGrows(m, c);
  }

  /** A step of one call leaves every other call's situation intact. */
  lemma OtherCallerOk(m: Memory, c: Caller, d: Caller)
    requires CallerOk(m, c) && CallerOk(m, d)
    requires c.phase.Reserved? && d.phase.Reserved? ==> c.phase.place != d.phase.place
    ensures CallerOk(Next(m, c).memory, d)
  {
    NextGrows(m, c);
    NextRecords(m, c, d.num);
  }

  lemma StepKeepsCallers(s: State, id: nat)
    requires Inv(s) && id < |s.callers|
    ensures CallersOk(Apply(s, Go(id))) && PlacesDiffer(Apply(s, Go(id)).callers)
  {
    var c := s.callers[id];
    var next := Apply(s, Go(id));
    NextCallerOk(s.memory, c);
    NextGrows(s.memory, c);
    forall i | 0 <= i < |next.callers|
      ensures CallerOk(next.memory, next.callers[i])
    {
      if i != id {
        OtherCallerOk(s.memory, c, s.callers[i]);
      }
    }
  }

  lemma StepKeepsRecords(s: State, id: nat)
    requires Inv(s) && id < |s.callers|
    ensures AtMostOneFirst(Apply(s, Go(id)).callers) && RecordedByFirst(Apply(s, Go(id)))
  {
    var c := s.callers[id];
    var next := Apply(s, Go(id));
    NextGrows(s.memory, c);
    NextRecords(s.memory, c, c.num);
    forall i | 0 <= i < |s.callers|
      ensures i != id ==> next.callers[i] == s.callers[i]
    {
    }
    if next.callers[id].phase == Done(false) && !c.phase.Done? {
      assert !SomeFirst(s.callers, c.num);
      assert forall i :: 0 <= i < |s.callers| ==> !IsFirst(s.callers[i], c.num);
    }
    forall n: nat
      ensures Recorded(next.memory, n) <==> SomeFirst(next.callers, n)
    {
      NextRecords(s.memory, c, n);
      FirstsAfter(s, id, n);
    }
  }

  lemma FirstsAfter(s: State, id: nat, n: nat)
    requires Inv(s) && id < |s.callers|
    ensures var c := s.callers[id];
      SomeFirst(Apply(s, Go(id)).callers, n) <==>
        SomeFirst(s.callers, n) || (Finishes(c) && c.num == n && !Recorded(s.memory, n))
  {
    var c := s.callers[id];
    var next := Apply(s, Go(id));
    NextGrows(s.memory, c);
    NextRecords(s.memory, c, c.num);
    if SomeFirst(s.callers, n) {
      var i :| 0 <= i < |s.callers| && IsFirst(s.callers[i], n);
      assert IsFirst(next.callers[i], n);
    }
    if Finishes(c) && c.num == n && !Recorded(s.memory, n) {
      assert IsFirst(next.callers[id], n);
    }
    if SomeFirst(next.callers, n) {
      var i :| 0 <= i < |next.callers| && IsFirst(next.callers[i], n);
      assert i == id || IsFirst(s.callers[i], n);
    }
  }

  lemma EnterKeepsInv(s: State, n: nat)
    requires Inv(s)
    ensures Inv(Apply(s, Enter(n)))
  {
    var next := Apply(s, Enter(n));
    forall k: nat
      ensures SomeFirst(next.callers, k) <==> SomeFirst(s.callers, k)
    {
      if SomeFirst(s.callers, k) {
        var i :| 0 <= i < |s.callers| && IsFirst(s.callers[i], k);
        assert IsFirst(next.callers[i], k);
      }
    }
  }

  lemma StepKeepsInv(s: State, a: Action)
    requires Inv(s)
    ensures Inv(Apply(s, a))
  {
    match a
    case Enter(n) => EnterKeepsInv(s, n);
    case Go(id) =>
      if id < |s.callers| {
        StepKeepsCallers(s, id);
        StepKeepsRecords(s, id);
      }
  }

  lemma {:induction false} RunKeepsInv(s: State, actions: seq<Action>)
    requires Inv(s)
    ensures Inv(Run(s, actions))
    decreases |actions|
  {
    if actions != [] {
      StepKeepsInv(s, actions[0]);
      RunKeepsInv(Apply(s, actions[0]), actions[1..]);
    }
  }

  // ---- what callers may rely on ----

  /** No interleaving makes an `unwrap` fail. */
  lemma UnwrapsNeverFail(actions: seq<Action>, id: nat)
    requires id < |Run(START, actions).callers|
    ensures Run(START, actions).callers[id].phase != Panicked
  {
    StartIsOk();
    RunKeepsInv(START, actions);
  }

  /** Once some call with a number has returned, exactly one of the calls with it was answered false. */
  lemma ExactlyOneFalse(actions: seq<Action>, id: nat)
    requires var s := Run(START, actions); id < |s.callers| && s.callers[id].phase.Done?
    ensures var s := Run(START, actions);
      var n := s.callers[id].num;
      && (exists i :: 0 <= i < |s.callers| && IsFirst(s.callers[i], n))
      && (forall i, j :: 0 <= i < |s.callers| && 0 <= j < |s.callers| && IsFirst(s.callers[i], n) && IsFirst(s.callers[j], n)
            ==> i == j)
  {
    StartIsOk();
    RunKeepsInv(START, actions);
    var s := Run(START, actions);
    assert CallerOk(s.memory, s.callers[id]);
    assert SomeFirst(s.callers, s.callers[id].num);
    var n := s.callers[id].num;
    forall i, j | 0 <= i < |s.callers| && 0 <= j < |s.callers| && IsFirst(s.callers[i], n) && IsFirst(s.callers[j], n)
      ensures i == j
    {
      assert !(i < j) && !(j < i);
    }
  }

  ghost predicate SomeDone(cs: seq<Caller>, n: nat) {
    exists i :: 0 <= i < |cs| && cs[i].num == n && cs[i].phase.Done?
  }

  /** At the moment a call returns, its answer is whether some call with the same number has returned before. */
  lemma AnswersAreLinear(actions: seq<Action>, id: nat)
    requires var s := Run(START, actions); id < |s.callers| && !s.callers[id].phase.Done?
    ensures var s := Run(START, actions);
      var after := Apply(s, Go(id)).callers[id];
      after.phase.Done? ==> after.phase.answer == SomeDone(s.callers, after.num)
  {
    StartIsOk();
    RunKeepsInv(START, actions);
    var s := Run(START, actions);
    var c := s.callers[id];
    NextGrows(s.memory, c);
    NextRecords(s.memory, c, c.num);
    if SomeFirst(s.callers, c.num) {
      var i :| 0 <= i < |s.callers| && IsFirst(s.callers[i], c.num);
      assert s.callers[i].num == c.num && s.callers[i].phase.Done?;
    }
    if SomeDone(s.callers, c.num) {
      var i :| 0 <= i < |s.callers| && s.callers[i].num == c.num && s.callers[i].phase.Done?;
      assert CallerOk(s.memory, s.callers[i]);
    }
  }

  /** A step of a call with one number never changes whether another number is recorded. */
  lemma NumbersDoNotInterfere(actions: seq<Action>, id: nat, m: nat)
    requires id < |Run(START, actions).callers| && Run(START, actions).callers[id].num != m
    ensures var s := Run(START, actions); Recorded(Apply(s, Go(id)).memory, m) <==> Recorded(s.memory, m)
  {
    StartIsOk();
    RunKeepsInv(START, actions);
    var s := Run(START, actions);
    NextRecords(s.memory, s.callers[id], m);
  }
}
