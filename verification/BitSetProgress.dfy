/**
 * When a concurrent call on the dynamic bit set returns: within a bounded number of its own steps, as long as no other
 * call has reserved the place of its word and delays to publish it.
 */
module BitSetProgress {
  import opened AtomicBitSet
  import opened BitSetProtocol

  /** How many places are missing before the one with the word of `n`. */
  function Gap(m: Memory, n: nat): nat
    requires n >= 64
  {
    var len := if m.further.Some? then |m.further.value| else 0;
    if AtomIndex(n) < len then 0 else AtomIndex(n) + 1 - len
  }

  /** The call looks for its word in a place that is reserved and not yet published. */
  predicate Waits(m: Memory, c: Caller) {
    c.phase == Looping && c.num >= 64 && Gap(m, c.num) == 0 && !HasWord(m.further, c.num)
  }

  /** How many steps a call needs at most: three for every missing place. */
  function Rank(m: Memory, c: Caller): nat {
    match c.phase
    case Entered => if c.num < 64 then 2 else 3 * Gap(m, c.num) + 4
    case Looping => if c.num < 64 then 0 else 3 * Gap(m, c.num) + 3
    case Missing => if c.num < 64 then 0 else if Gap(m, c.num) == 0 then 5 else 3 * Gap(m, c.num) + 2
    case Reserved(_) => if c.num < 64 then 0 else 3 * Gap(m, c.num) + 4
    case Created => if c.num < 64 then 1 else 2
    case Holding => 1
    case Done(_) => 0
    case Panicked => 0
  }

  predicate Returned(c: Caller) {
    c.phase.Done?
  }

  lemma OwnStepAdvances(m: Memory, c: Caller)
    requires CallerOk(m, c) && !Returned(c) && !Waits(m, c)
    ensures var o := Next(m, c); Rank(o.memory, Caller(c.num, o.phase)) < Rank(m, c)
  {
  }

  lemma GapShrinks(m: Memory, c: Caller, n: nat)
    requires CallerOk(m, c) && n >= 64
    ensures Gap(Next(m, c).memory, n) <= Gap(m, n)
  {
    NextGrows(m, c);
  }

  lemma OtherStepKeepsRank(m: Memory, c: Caller, d: Caller)
    requires CallerOk(m, c)
    ensures Rank(Next(m, c).memory, d) <= Rank(m, d)
  {
    if d.num >= 64 {
      GapShrinks(m, c, d.num);
    }
  }

  /** Only a call that has returned, or one that cannot go on, needs no more steps. */
  lemma RankIsPositive(m: Memory, c: Caller)
    requires CallerOk(m, c)
    ensures Rank(m, c) == 0 <==> Returned(c)
  {
  }

  /** Whenever the call looks for its word in this run, no other call keeps it waiting. */
  predicate NeverWaits(s: State, actions: seq<Action>, id: nat)
    decreases |actions|
  {
    && (id < |s.callers| ==> !Waits(s.memory, s.callers[id]))
    && (actions != [] ==> NeverWaits(Apply(s, actions[0]), actions[1..], id))
  }

  function Own(actions: seq<Action>, id: nat): nat {
    if actions == [] then 0 else (if actions[0] == Go(id) then 1 else 0) + Own(actions[1..], id)
  }

  lemma ReturnedStays(s: State, a: Action, id: nat)
    requires Inv(s) && id < |s.callers|
    ensures var t := Apply(s, a); id < |t.callers| && t.callers[id].num == s.callers[id].num
    ensures Returned(s.callers[id]) || a != Go(id) ==> Apply(s, a).callers[id] == s.callers[id]
  {
  }

  /** In every interleaving that never keeps it waiting, a call that is given its steps has returned. */
  lemma {:induction false} CallReturns(s: State, actions: seq<Action>, id: nat)
    requires Inv(s) && id < |s.callers| && NeverWaits(s, actions, id)
    requires Own(actions, id) >= Rank(s.memory, s.callers[id])
    ensures var t := Run(s, actions); id < |t.callers| && Returned(t.callers[id])
    decreases |actions|
  {
    var c := s.callers[id];
    RankIsPositive(s.memory, c);
    if actions != [] {
      StepKeepsInv(s, actions[0]);
      ReturnedStays(s, actions[0], id);
      if actions[0] == Go(id) {
        if !Returned(c) {
          OwnStepAdvances(s.memory, c);
        }
      } else if actions[0].Go? && actions[0].id < |s.callers| {
        OtherStepKeepsRank(s.memory, s.callers[actions[0].id], c);
      }
      CallReturns(Apply(s, actions[0]), actions[1..], id);
    }
  }

  // ---- who keeps a call waiting ----

  /** Every unpublished place belongs to some push in flight. */
  ghost predicate PlacesOwned(s: State) {
    forall p: nat :: p < |Words(s.memory.further)| && Words(s.memory.further)[p].None? ==> OwnedPlace(s, p)
  }

  ghost predicate OwnedPlace(s: State, p: nat) {
    exists i :: 0 <= i < |s.callers| && s.callers[i].phase == Reserved(p)
  }

  lemma KeepsOwner(s: State, a: Action, p: nat)
    requires Inv(s) && PlacesOwned(s)
    requires var t := Apply(s, a); p < |Words(t.memory.further)| && Words(t.memory.further)[p].None?
    requires a.Go? && a.id < |s.callers| ==> Apply(s, a).callers[a.id].phase != Reserved(p)
    ensures OwnedPlace(Apply(s, a), p)
  {
    var t := Apply(s, a);
    assert p < |Words(s.memory.further)| && Words(s.memory.further)[p].None?;
    var i :| 0 <= i < |s.callers| && s.callers[i].phase == Reserved(p);
    assert t.callers[i].phase == Reserved(p);
  }

  lemma StepKeepsOwned(s: State, a: Action)
    requires Inv(s) && PlacesOwned(s)
    ensures PlacesOwned(Apply(s, a))
  {
    var t := Apply(s, a);
    forall p: nat | p < |Words(t.memory.further)| && Words(t.memory.further)[p].None?
      ensures OwnedPlace(t, p)
    {
      if !(a.Go? && a.id < |s.callers| && t.callers[a.id].phase == Reserved(p)) {
        KeepsOwner(s, a, p);
      }
    }
  }

  lemma {:induction false} RunKeepsOwned(s: State, actions: seq<Action>)
    requires Inv(s) && PlacesOwned(s)
    ensures Inv(Run(s, actions)) && PlacesOwned(Run(s, actions))
    decreases |actions|
  {
    if actions != [] {
      StepKeepsInv(s, actions[0]);
      StepKeepsOwned(s, actions[0]);
      RunKeepsOwned(Apply(s, actions[0]), actions[1..]);
    }
  }

  /** In every reachable state a call that waits does so for another one that has reserved the place of its word. */
  lemma WaitsForAnother(actions: seq<Action>, id: nat) returns (other: nat)
    requires var s := Run(START, actions); id < |s.callers| && Waits(s.memory, s.callers[id])
    ensures var s := Run(START, actions);
      other < |s.callers| && other != id && s.callers[other].phase == Reserved(AtomIndex(s.callers[id].num))
  {
    StartIsOk();
    RunKeepsOwned(START, actions);
    var s := Run(START, actions);
    var place := AtomIndex(s.callers[id].num);
    assert OwnedPlace(s, place);
    other :| 0 <= other < |s.callers| && s.callers[other].phase == Reserved(place);
  }

  // ---- a call on its own ----

  function Alone(id: nat, n: nat): (actions: seq<Action>)
    ensures |actions| == n
  {
    if n == 0 then [] else [Go(id)] + Alone(id, n - 1)
  }

  predicate NobodyElseReserves(s: State, id: nat) {
    forall i :: 0 <= i < |s.callers| && i != id ==> !s.callers[i].phase.Reserved?
  }

  lemma NobodyKeepsWaiting(s: State, id: nat)
    requires Inv(s) && PlacesOwned(s) && id < |s.callers| && NobodyElseReserves(s, id)
    ensures !Waits(s.memory, s.callers[id])
  {
    var c := s.callers[id];
    assert c.num >= 64 && c.phase == Looping ==> !OwnedPlace(s, AtomIndex(c.num));
  }

  lemma {:induction false} AloneNeverWaits(s: State, id: nat, n: nat)
    requires Inv(s) && PlacesOwned(s) && id < |s.callers| && NobodyElseReserves(s, id)
    ensures NeverWaits(s, Alone(id, n), id) && Own(Alone(id, n), id) == n
    decreases n
  {
    NobodyKeepsWaiting(s, id);
    if n > 0 {
      StepKeepsInv(s, Go(id));
      StepKeepsOwned(s, Go(id));
      assert Alone(id, n)[1..] == Alone(id, n - 1);
      AloneNeverWaits(Apply(s, Go(id)), id, n - 1);
    }
  }

  /** From any reachable state in which no push is half done, a call left alone returns. */
  lemma AloneReturns(actions: seq<Action>, id: nat)
    requires var s := Run(START, actions); id < |s.callers| && NobodyElseReserves(s, id)
    ensures var s := Run(START, actions); var t := Run(s, Alone(id, Rank(s.memory, s.callers[id])));
      id < |t.callers| && Returned(t.callers[id])
  {
    StartIsOk();
    RunKeepsOwned(START, actions);
    var s := Run(START, actions);
    var n := Rank(s.memory, s.callers[id]);
    AloneNeverWaits(s, id, n);
    CallReturns(s, Alone(id, n), id);
  }

  /** Alone, a call that has not returned answers whether its number is recorded now, and then that number is recorded. */
  lemma {:induction false} AloneAnswers(s: State, id: nat, n: nat)
    requires Inv(s) && id < |s.callers| && !Returned(s.callers[id])
    requires var t := Run(s, Alone(id, n)); id < |t.callers| && Returned(t.callers[id])
    ensures var t := Run(s, Alone(id, n));
      t.callers[id] == Caller(s.callers[id].num, Done(Recorded(s.memory, s.callers[id].num)))
    decreases n
  {
    if n > 0 {
      var c := s.callers[id];
      StepKeepsInv(s, Go(id));
      NextGrows(s.memory, c);
      NextRecords(s.memory, c, c.num);
      assert Alone(id, n)[1..] == Alone(id, n - 1);
      var u := Apply(s, Go(id));
      if Returned(u.callers[id]) {
        ReturnedAlone(u, id, n - 1);
      } else {
        AloneAnswers(u, id, n - 1);
      }
    }
  }

  lemma {:induction false} ReturnedAlone(s: State, id: nat, n: nat)
    requires Inv(s) && id < |s.callers| && Returned(s.callers[id])
    ensures Run(s, Alone(id, n)) == s
    decreases n
  {
    if n > 0 {
      NextGrows(s.memory, s.callers[id]);
      assert s.callers[id := s.callers[id]] == s.callers;
      assert Alone(id, n)[1..] == Alone(id, n - 1);
      ReturnedAlone(s, id, n - 1);
    }
  }

  /** The most steps that a new call needs: three for every word up to its own, and four. */
  function Steps(n: nat): nat {
    if n < 64 then 2 else 3 * ((n - 64) / 64 + 1) + 4
  }

  /** A new call in any reachable state with no push half done: it returns, and answers whether one with its number has. */
  lemma NewCallAnswers(actions: seq<Action>, n: nat)
    requires forall i :: 0 <= i < |Run(START, actions).callers| ==> !Run(START, actions).callers[i].phase.Reserved?
    ensures var s := Run(START, actions); var id := |s.callers|;
      var t := Run(Apply(s, Enter(n)), Alone(id, Steps(n)));
      id < |t.callers| && t.callers[id] == Caller(n, Done(SomeDone(s.callers, n)))
  {
    StartIsOk();
    RunKeepsOwned(START, actions);
    var s := Run(START, actions);
    var id, u := |s.callers|, Apply(s, Enter(n));
    StepKeepsInv(s, Enter(n));
    StepKeepsOwned(s, Enter(n));
    AloneNeverWaits(u, id, Steps(n));
    CallReturns(u, Alone(id, Steps(n)), id);
    AloneAnswers(u, id, Steps(n));
    RecordedWhenDone(s, n);
  }

  lemma RecordedWhenDone(s: State, n: nat)
    requires Inv(s)
    ensures Recorded(s.memory, n) <==> SomeDone(s.callers, n)
  {
    if SomeFirst(s.callers, n) {
      var i :| 0 <= i < |s.callers| && IsFirst(s.callers[i], n);
      assert s.callers[i].num == n && s.callers[i].phase.Done?;
    }
    if SomeDone(s.callers, n) {
      var i :| 0 <= i < |s.callers| && s.callers[i].num == n && s.callers[i].phase.Done?;
      assert CallerOk(s.memory, s.callers[i]);
    }
  }
}
