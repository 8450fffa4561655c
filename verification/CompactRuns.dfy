/** What the compact set answers over whole runs of calls. */
module CompactRuns {
  import opened Common
  import opened CompactRange
  import opened CompactSpec

  // ---- expiry ----

  lemma {:induction false} ExpiredCountSplits(rs: seq<Range>, time: nat)
    requires ExpirySorted(rs)
    ensures var c := ExpiredCount(rs, time);
      && (forall i :: 0 <= i < c ==> rs[i].expires.At? && rs[i].expires.at <= time)
      && (forall i :: c <= i < |rs| ==> rs[i].expires.Unknown? || rs[i].expires.at > time)
    decreases |rs|
  {
    if rs != [] {
      var last := rs[|rs| - 1].expires;
      if last.At? && last.at <= time {
        forall i | 0 <= i < |rs|
          ensures rs[i].expires.At? && rs[i].expires.at <= time
        {
          assert i == |rs| - 1 || ExpLe(rs[i].expires, last);
        }
      } else {
        ExpiredCountSplits(rs[..|rs| - 1], time);
        assert ExpiredCount(rs, time) == ExpiredCount(rs[..|rs| - 1], time);
      }
    }
  }

  ghost predicate SameButExpiry(rs: seq<Range>, ss: seq<Range>) {
    && |rs| == |ss|
    && forall i :: 0 <= i < |rs| ==> ss[i] == rs[i].(expires := ss[i].expires)
  }

  lemma SameButExpirySeen(rs: seq<Range>, ss: seq<Range>, x: nat)
    requires SameButExpiry(rs, ss)
    ensures Seen(rs, x) <==> Seen(ss, x)
  {
    if Seen(rs, x) {
      var t :| InSlot(rs, t, x) && SeenAt(rs, t, x);
      assert InSlot(ss, t, x) && SeenAt(ss, t, x);
    }
    if Seen(ss, x) {
      var t :| InSlot(ss, t, x) && SeenAt(ss, t, x);
      assert InSlot(rs, t, x) && SeenAt(rs, t, x);
    }
  }

  lemma StampSorted(rs: seq<Range>, hi: nat, at: nat)
    requires ExpirySorted(rs) && hi <= |rs|
    ensures ExpirySorted(Stamp(rs, ExpiredCount(rs, at), hi, at))
  {
    ExpiredCountSplits(rs, at);
  }

  lemma SameButExpiryKeeps(n: nat, rs: seq<Range>, ss: seq<Range>)
    requires WellFormed(n, rs) && SameButExpiry(rs, ss)
    ensures WellFormed(n, ss) && ss[0].min == rs[0].min && LastMax(ss) == LastMax(rs)
  {
    forall i | 0 <= i < |ss|
      ensures RangeOk(n, ss[i])
    {
      assert RangeOk(n, rs[i]);
    }
  }

  /** Stamping keeps the stamps sorted and the represented set as it was. */
  lemma StampKeeps(n: nat, rs: seq<Range>, hi: nat, at: nat)
    requires Valid(n, rs) && hi <= |rs|
    ensures var ss := Stamp(rs, ExpiredCount(rs, at), hi, at);
      && Valid(n, ss) && ss[0].min == rs[0].min && LastMax(ss) == LastMax(rs)
      && SameButExpiry(rs, ss)
      && (forall x :: Seen(ss, x) <==> Seen(rs, x))
  {
    var ss := Stamp(rs, ExpiredCount(rs, at), hi, at);
    StampSorted(rs, hi, at);
    assert SameButExpiry(rs, ss);
    SameButExpiryKeeps(n, rs, ss);
    forall x
      ensures Seen(ss, x) <==> Seen(rs, x)
    {
      SameButExpirySeen(rs, ss, x);
    }
  }

  /** `x` lies in one of the first `c` ranges. */
  ghost predicate Swept(rs: seq<Range>, c: nat, x: nat)
    requires c <= |rs|
  {
    exists s :: 0 <= s < c && InSlot(rs, s, x) && x <= rs[s].max
  }

  lemma SweptSlot(rs: seq<Range>, c: nat, t: int, x: nat)
    requires Ordered(rs) && c <= |rs| && InSlot(rs, t, x)
    ensures Swept(rs, c, x) <==> t < c && x <= rs[t].max
  {
    if Swept(rs, c, x) {
      var s :| 0 <= s < c && InSlot(rs, s, x) && x <= rs[s].max;
      SlotUnique(rs, s, t, x);
    }
  }

  lemma SweepSeen(rs: seq<Range>, c: nat, x: nat)
    requires Ordered(rs) && 0 < c <= |rs|
    ensures Seen(Collapse(rs, 0, c - 1, At(0)), x) <==> Seen(rs, x) || Swept(rs, c, x)
  {
    CollapseOrdered(rs, 0, c - 1, At(0));
    SeenBounds(rs, x);
    SeenBounds(Collapse(rs, 0, c - 1, At(0)), x);
    if x >= rs[0].min {
      LocateInSlot(rs, x);
      var t := Locate(rs, x);
      SweptSlot(rs, c, t, x);
      CollapseSeen(rs, 0, c - 1, At(0), t, x);
    } else {
      BelowAll(rs, c, x);
    }
  }

  lemma BelowAll(rs: seq<Range>, c: nat, x: nat)
    requires Ordered(rs) && 0 < c <= |rs| && x < rs[0].min
    ensures !Swept(rs, c, x)
  {
    forall s | 0 <= s < |rs|
      ensures !InSlot(rs, s, x)
    {
      MinMono(rs, 0, s);
    }
  }

  lemma SweepKeeps(n: nat, rs: seq<Range>, c: nat)
    requires Valid(n, rs) && 0 < c <= |rs|
    ensures var ss := Collapse(rs, 0, c - 1, At(0));
      Valid(n, ss) && ss[0].min == rs[0].min && LastMax(ss) == LastMax(rs)
  {
    CollapseKeeps(n, rs, 0, c - 1, At(0));
    CollapseOrdered(rs, 0, c - 1, At(0));
    SweepSorted(rs, c);
  }

  lemma SweepSorted(rs: seq<Range>, c: nat)
    requires ExpirySorted(rs) && 0 < c <= |rs|
    ensures ExpirySorted(Collapse(rs, 0, c - 1, At(0)))
  {
    CollapseSortedExpiry(rs, 0, c - 1, At(0));
  }

  /** Expiry collapse adds exactly the numbers of the expired ranges. */
  lemma CheckExpiredExactly(n: nat, rs: seq<Range>, time: nat)
    requires Valid(n, rs)
    ensures var ss := CheckExpired(rs, time);
      && Valid(n, ss) && ss[0].min == rs[0].min && LastMax(ss) == LastMax(rs)
      && (forall x :: Seen(ss, x) <==> Seen(rs, x) || Swept(rs, ExpiredCount(rs, time), x))
    ensures var c := ExpiredCount(rs, time); var ss := CheckExpired(rs, time);
      if c == 0 then ss == rs
      else |ss| == |rs| - c + 1 && ss[0] == Range(None, rs[0].min, rs[c - 1].max, At(0)) && ss[1..] == rs[c..]
  {
    var c := ExpiredCount(rs, time);
    if c > 0 {
      SweepKeeps(n, rs, c);
      CollapseIndex(rs, 0, c - 1, At(0));
      forall x
        ensures Seen(Collapse(rs, 0, c - 1, At(0)), x) <==> Seen(rs, x) || Swept(rs, c, x)
      {
        SweepSeen(rs, c, x);
      }
    }
  }

  // ---- one call ----

  lemma AddNumKeeps(n: nat, rs: seq<Range>, num: nat, expires: nat)
    requires Addable(n, rs, num)
    ensures var b := AddNumRanges(n, rs, num); var a := AddNum(n, rs, num, expires);
      && Valid(n, b.ranges) && b.target < |b.ranges| && b.ranges[b.target].min <= num
      && Valid(n, a.ranges) && a.ranges[0].min == rs[0].min && LastMax(a.ranges) == LastMax(b.ranges)
      && LastMax(a.ranges) == (if num <= LastMax(rs) then LastMax(rs) else LastMax(b.ranges))
      && LastMax(a.ranges) >= LastMax(rs)
      && num <= LastMax(a.ranges)
      && SameButExpiry(b.ranges, a.ranges)
      && (a.contains <==> Seen(rs, num))
      && (forall x :: Seen(a.ranges, x) <==>
            if num <= LastMax(rs) then Seen(rs, x) || x == num else Seen(rs, x) && x != LastMax(rs))
  {
    SeenBounds(rs, num);
    if num <= LastMax(rs) {
      AddLandsExactly(n, rs, num);
    } else {
      AddGrowsExactly(n, rs, num);
    }
    var b := AddNumRanges(n, rs, num);
    StampKeeps(n, b.ranges, b.target, expires);
  }

  lemma AddStaysValid(n: nat, rs: seq<Range>, num: nat)
    requires Addable(n, rs, num)
    ensures Valid(n, AddNumRanges(n, rs, num).ranges)
  {
    AddNumKeeps(n, rs, num, 0);
  }

  /**
   * One call, completely: the answer is membership, and membership changes by the number itself (or, past the end, by
   * the loss of the old boundary) and, if a time comes with a number divisible by four, by what has expired.
   */
  lemma NumExistsExactly(n: nat, rs: seq<Range>, c: Call)
    requires Addable(n, rs, c.num)
    ensures var (ss, answer) := NumExists(n, rs, c); var mid := AddNum(n, rs, c.num, c.expires).ranges;
      && Valid(n, ss) && ss[0].min == rs[0].min
      && LastMax(ss) >= LastMax(rs) && (c.num <= LastMax(rs) ==> LastMax(ss) == LastMax(rs))
      && (answer <==> Seen(rs, c.num))
      && (forall x :: Seen(ss, x) <==>
            || (if c.num <= LastMax(rs) then Seen(rs, x) || x == c.num else Seen(rs, x) && x != LastMax(rs))
            || (c.time.Some? && c.num % 4 == 0 && Swept(mid, ExpiredCount(mid, c.time.value), x)))
  {
    AddNumKeeps(n, rs, c.num, c.expires);
    if Checks(c) {
      CheckExpiredExactly(n, AddNum(n, rs, c.num, c.expires).ranges, c.time.value);
    }
  }

  /** The call after a growing one is not answered by the growth: the newest range is empty and never expired. */
  lemma GrowthAnswersTwice(n: nat, rs: seq<Range>, c: Call)
    requires Addable(n, rs, c.num) && c.num > LastMax(rs)
    ensures !Seen(NumExists(n, rs, c).0, c.num)
  {
    var num := c.num;
    AddGrowsExactly(n, rs, num);
    AddNumKeeps(n, rs, num, c.expires);
    var b := AddNumRanges(n, rs, num);
    var a := AddNum(n, rs, num, c.expires);
    NumExistsExactly(n, rs, c);
    SeenBounds(rs, num);
    if Checks(c) {
      ExpiredCountSplits(a.ranges, c.time.value);
      SweptSlot(a.ranges, ExpiredCount(a.ranges, c.time.value), b.target, num);
    }
  }

  // ---- runs ----

  ghost predicate CallsOk(min: nat, calls: seq<Call>) {
    forall i :: 0 <= i < |calls| ==> calls[i].num >= min
  }

  /** The ranges after a run of calls. */
  ghost function After(n: nat, rs: seq<Range>, calls: seq<Call>): (ss: seq<Range>)
    requires Valid(n, rs) && CallsOk(rs[0].min, calls)
    ensures Valid(n, ss) && ss[0].min == rs[0].min && LastMax(ss) >= LastMax(rs)
    decreases |calls|
  {
    if calls == [] then rs
    else
      var before := After(n, rs, calls[..|calls| - 1]);
      var c := calls[|calls| - 1];
      NumExistsExactly(n, before, c);
      NumExists(n, before, c).0
  }

  /** The answer to the i-th call of a run. */
  ghost predicate Answer(n: nat, rs: seq<Range>, calls: seq<Call>, i: nat)
    requires Valid(n, rs) && CallsOk(rs[0].min, calls) && i < |calls|
  {
    NumExists(n, After(n, rs, calls[..i]), calls[i]).1
  }

  lemma AfterNext(n: nat, rs: seq<Range>, calls: seq<Call>, c: Call)
    requires Valid(n, rs) && CallsOk(rs[0].min, calls) && c.num >= rs[0].min
    ensures CallsOk(rs[0].min, calls + [c]) && After(n, rs, calls + [c]) == NumExists(n, After(n, rs, calls), c).0
  {
    assert (calls + [c])[..|calls|] == calls;
  }

  lemma AfterOne(n: nat, rs: seq<Range>, a: Call)
    requires Addable(n, rs, a.num)
    ensures CallsOk(rs[0].min, [a]) && After(n, rs, [a]) == NumExists(n, rs, a).0
  {
    AfterNext(n, rs, [], a);
    assert [] + [a] == [a];
  }

  lemma AfterTwo(n: nat, rs: seq<Range>, a: Call, b: Call)
    requires Addable(n, rs, a.num) && b.num >= rs[0].min && Addable(n, NumExists(n, rs, a).0, b.num)
    ensures CallsOk(rs[0].min, [a, b]) && After(n, rs, [a, b]) == NumExists(n, NumExists(n, rs, a).0, b).0
  {
    AfterOne(n, rs, a);
    AfterNext(n, rs, [a], b);
    assert [a] + [b] == [a, b];
  }

  lemma AnswerNext(n: nat, rs: seq<Range>, calls: seq<Call>, c: Call)
    requires Valid(n, rs) && CallsOk(rs[0].min, calls) && c.num >= rs[0].min
    ensures CallsOk(rs[0].min, calls + [c]) && (calls + [c])[..|calls|] == calls
    ensures Answer(n, rs, calls + [c], |calls|) <==> Seen(After(n, rs, calls), c.num)
  {
    NumExistsExactly(n, After(n, rs, calls), c);
  }

  /** A number seen below the upper end stays seen, whatever growth, merges and collapses follow. */
  lemma {:induction false} SeenStaysSeen(n: nat, rs: seq<Range>, calls: seq<Call>, x: nat)
    requires Valid(n, rs) && CallsOk(rs[0].min, calls)
    requires Seen(rs, x) && x < LastMax(rs)
    ensures Seen(After(n, rs, calls), x) && x < LastMax(After(n, rs, calls))
    decreases |calls|
  {
    if calls != [] {
      var init := calls[..|calls| - 1];
      SeenStaysSeen(n, rs, init, x);
      NumExistsExactly(n, After(n, rs, init), calls[|calls| - 1]);
    }
  }

  /** Once accepted (answered "not seen"), `num` is never accepted again, whatever calls come first. */
  ghost predicate NeverAcceptedAgain(n: nat, rs: seq<Range>, num: nat)
    requires Valid(n, rs)
  {
    forall calls, again: Call {:trigger NumExists(n, After(n, rs, calls), again)} ::
      CallsOk(rs[0].min, calls) && again.num == num && num >= rs[0].min ==> NumExists(n, After(n, rs, calls), again).1
  }

  lemma RecordedNeverAcceptedAgain(n: nat, rs: seq<Range>, num: nat)
    requires Valid(n, rs) && Seen(rs, num) && num < LastMax(rs)
    ensures NeverAcceptedAgain(n, rs, num)
  {
    forall calls, again: Call | CallsOk(rs[0].min, calls) && again.num == num && num >= rs[0].min
      ensures NumExists(n, After(n, rs, calls), again).1
    {
      SeenStaysSeen(n, rs, calls, num);
      NumExistsExactly(n, After(n, rs, calls), again);
    }
  }

  lemma UnseenIsAcceptedAgain(n: nat, rs: seq<Range>, num: nat, calls: seq<Call>)
    requires Valid(n, rs) && num >= rs[0].min && CallsOk(rs[0].min, calls)
    requires !Seen(After(n, rs, calls), num)
    ensures !NeverAcceptedAgain(n, rs, num)
  {
    var again := Call(num, 0, None);
    NumExistsExactly(n, After(n, rs, calls), again);
    assert !NumExists(n, After(n, rs, calls), again).1;
  }

  /** A recorded boundary number is forgotten by one growing call. */
  lemma BoundaryIsForgotten(n: nat, rs: seq<Range>)
    requires Valid(n, rs)
    ensures CallsOk(rs[0].min, [Call(LastMax(rs) + 1, 0, None)])
    ensures !Seen(After(n, rs, [Call(LastMax(rs) + 1, 0, None)]), LastMax(rs))
  {
    var grow := Call(LastMax(rs) + 1, 0, None);
    MinMono(rs, 0, |rs| - 1);
    NumExistsExactly(n, rs, grow);
    assert [grow][..0] == [];
    assert After(n, rs, [grow]) == NumExists(n, rs, grow).0;
  }

  lemma BoundaryComesBack(n: nat, ss: seq<Range>)
    requires Valid(n, ss)
    ensures !NeverAcceptedAgain(n, ss, LastMax(ss))
  {
    BoundaryIsForgotten(n, ss);
    MinMono(ss, 0, |ss| - 1);
    UnseenIsAcceptedAgain(n, ss, LastMax(ss), [Call(LastMax(ss) + 1, 0, None)]);
  }

  lemma AcceptedAtTheBoundary(n: nat, rs: seq<Range>, c: Call)
    requires Addable(n, rs, c.num) && c.num == LastMax(rs)
    ensures Valid(n, NumExists(n, rs, c).0) && !NeverAcceptedAgain(n, NumExists(n, rs, c).0, c.num)
  {
    NumExistsExactly(n, rs, c);
    BoundaryComesBack(n, NumExists(n, rs, c).0);
  }

  lemma AcceptedPastTheEnd(n: nat, rs: seq<Range>, c: Call)
    requires Addable(n, rs, c.num) && c.num > LastMax(rs)
    ensures Valid(n, NumExists(n, rs, c).0) && !NeverAcceptedAgain(n, NumExists(n, rs, c).0, c.num)
  {
    NumExistsExactly(n, rs, c);
    GrowthAnswersTwice(n, rs, c);
    UnseenIsAcceptedAgain(n, NumExists(n, rs, c).0, c.num, []);
  }

  /**
   * Accept-at-most-once holds for an accepted number exactly when it was presented below the upper end of the ranges.
   * The growing branch does not record its number, and a boundary number is lost by the next growth.
   */
  lemma AcceptedOnceExactly(n: nat, rs: seq<Range>, c: Call)
    requires Addable(n, rs, c.num) && !NumExists(n, rs, c).1
    ensures Valid(n, NumExists(n, rs, c).0)
    ensures NeverAcceptedAgain(n, NumExists(n, rs, c).0, c.num) <==> c.num < LastMax(rs)
  {
    NumExistsExactly(n, rs, c);
    if c.num < LastMax(rs) {
      RecordedNeverAcceptedAgain(n, NumExists(n, rs, c).0, c.num);
    } else if c.num == LastMax(rs) {
      AcceptedAtTheBoundary(n, rs, c);
    } else {
      AcceptedPastTheEnd(n, rs, c);
    }
  }

  // ---- a new set ----

  lemma FreshValid(n: nat)
    requires 2 <= n < 256
    ensures Valid(n, [NewRange(n, 1)])
    ensures forall x :: !Seen([NewRange(n, 1)], x)
  {
    NewRangeOk(n, 1);
  }

  /** A new set: one range from 1 on. */
  function Fresh(n: nat): (rs: seq<Range>)
    requires 2 <= n < 256
    ensures rs == [NewRange(n, 1)] && Valid(n, rs)
  {
    FreshValid(n);
    [NewRange(n, 1)]
  }
}
