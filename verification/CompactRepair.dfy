/**
 * A repair of the growing branch, not what the code does: growth starts each range after the last one instead of on its
 * upper end, and then records the number like any other. With it every number is accepted at most once.
 */
module CompactRepair {
  import opened CompactRange
  import opened CompactSpec
  import opened CompactRuns

  ghost function AddRepaired(n: nat, rs: seq<Range>, num: nat): Added
    requires Addable(n, rs, num)
  {
    GrowKeeps(n, 1, rs, num);
    AddNumRanges(n, Grow(n, 1, rs, num), num)
  }

  /** Every call, past the end or not, agrees with a plain set. */
  lemma RepairedIsPlainSet(n: nat, rs: seq<Range>, num: nat)
    requires Addable(n, rs, num)
    ensures var a := AddRepaired(n, rs, num);
      && Valid(n, a.ranges) && a.target < |a.ranges| && a.ranges[0].min == rs[0].min
      && (a.contains <==> Seen(rs, num))
      && (forall x: nat :: Seen(a.ranges, x) <==> Seen(rs, x) || x == num)
  {
    GrowKeeps(n, 1, rs, num);
    var g := Grow(n, 1, rs, num);
    AddLandsExactly(n, g, num);
    forall x: nat
      ensures Seen(g, x) <==> Seen(rs, x)
    {
      SeenBounds(rs, x);
    }
  }

  /** `num_exists` with the repaired growth; stamping and expiry are as before. */
  ghost function NumExistsRepaired(n: nat, rs: seq<Range>, c: Call): (seq<Range>, bool)
    requires Addable(n, rs, c.num)
  {
    var a := AddRepaired(n, rs, c.num);
    var stamped := Stamp(a.ranges, ExpiredCount(a.ranges, c.expires), a.target, c.expires);
    (if Checks(c) then CheckExpired(stamped, c.time.value) else stamped, a.contains)
  }

  lemma CallRecords(n: nat, rs: seq<Range>, c: Call)
    requires Addable(n, rs, c.num)
    ensures var (ss, answer) := NumExistsRepaired(n, rs, c);
      && Valid(n, ss) && ss[0].min == rs[0].min
      && (answer <==> Seen(rs, c.num)) && Seen(ss, c.num)
      && (forall x: nat :: Seen(rs, x) ==> Seen(ss, x))
  {
    RepairedIsPlainSet(n, rs, c.num);
    var a := AddRepaired(n, rs, c.num);
    StampKeeps(n, a.ranges, a.target, c.expires);
    if Checks(c) {
      CheckExpiredExactly(n, Stamp(a.ranges, ExpiredCount(a.ranges, c.expires), a.target, c.expires), c.time.value);
    }
  }

  ghost function AfterRepaired(n: nat, rs: seq<Range>, calls: seq<Call>): (ss: seq<Range>)
    requires Valid(n, rs) && CallsOk(rs[0].min, calls)
    ensures Valid(n, ss) && ss[0].min == rs[0].min
    decreases |calls|
  {
    if calls == [] then rs
    else
      var before := AfterRepaired(n, rs, calls[..|calls| - 1]);
      CallRecords(n, before, calls[|calls| - 1]);
      NumExistsRepaired(n, before, calls[|calls| - 1]).0
  }

  ghost predicate AnswerRepaired(n: nat, rs: seq<Range>, calls: seq<Call>, i: nat)
    requires Valid(n, rs) && CallsOk(rs[0].min, calls) && i < |calls|
  {
    NumExistsRepaired(n, AfterRepaired(n, rs, calls[..i]), calls[i]).1
  }

  lemma {:induction false} PresentedIsSeen(n: nat, rs: seq<Range>, calls: seq<Call>, i: nat)
    requires Valid(n, rs) && CallsOk(rs[0].min, calls) && i < |calls|
    ensures Seen(AfterRepaired(n, rs, calls), calls[i].num)
    decreases |calls|
  {
    var init := calls[..|calls| - 1];
    if i < |calls| - 1 {
      PresentedIsSeen(n, rs, init, i);
    }
    CallRecords(n, AfterRepaired(n, rs, init), calls[|calls| - 1]);
  }

  /** Over any run, a number that was presented before is never accepted again. */
  lemma RepairedAcceptsOnce(n: nat, rs: seq<Range>, calls: seq<Call>, i: nat, j: nat)
    requires Valid(n, rs) && CallsOk(rs[0].min, calls) && i < j < |calls| && calls[i].num == calls[j].num
    ensures AnswerRepaired(n, rs, calls, j)
  {
    var before := calls[..j];
    PresentedIsSeen(n, rs, before, i);
    assert before[i] == calls[i];
    CallRecords(n, AfterRepaired(n, rs, before), calls[j]);
  }
}
