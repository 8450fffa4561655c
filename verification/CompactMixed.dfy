/** Two lifetimes on one counter, which puts the expiries out of order, and the refusal that follows. */
module CompactMixed {
  import opened Common
  import opened CompactRange
  import opened CompactSpec
  import opened CompactRuns
  import opened CompactRefusals
  import opened KeyWindow
  import opened Credentials

  const TOKEN_EXPIRES: nat := EPHEMERAL_INTERVAL * 2

  /**
   * A login token lives `COUNTER_EXPIRES` seconds and a proof token `TOKEN_EXPIRES`. As soon as a login token gets a number
   * in a later slot than a proof token and expires before that, some run refuses a number without a reason.
   */
  lemma LifetimesMixed(n: nat, e: nat -> nat, proof: nat, login: nat, issued: nat, later: nat)
    requires 2 <= n < 256 && 1 <= proof && 1 <= login && Slot(n, proof) < Slot(n, login)
    requires e(proof) == issued + TOKEN_EXPIRES && e(login) == later + COUNTER_EXPIRES
    requires later + COUNTER_EXPIRES < issued + TOKEN_EXPIRES
    ensures !Sound(n, e)
  {
    RefusalsExplainedExactly(n, e);
  }

  /** Two short-lived numbers, past the first range; the second one checks a time after the first has expired. */
  function ShortLived(): seq<Call> {
    [Call(66, 60, None), Call(68, 120, Some(61))]
  }

  function SecondRange(): Range {
    NewRange(64, 64)
  }

  lemma AfterFirst()
    ensures Valid(64, Fresh(64))
    ensures NumExists(64, Fresh(64), Call(66, 60, None)).0 == [NewRange(64, 1).(expires := At(60)), SecondRange()]
  {
    FreshValid(64);
    var g := [NewRange(64, 1), SecondRange()];
    assert Fresh(64) + [SecondRange()] == g;
    assert LastMax(Fresh(64)) == 64 && LastMax(g) == 127;
    assert Grow(64, 0, g, 66) == g;
    assert Grow(64, 0, Fresh(64), 66) == g;
    assert g[..1][..0] == [] && ExpiredCount(g[..1], 60) == 0;
    assert ExpiredCount(g, 60) == 0;
    assert Stamp(g, 0, 1, 60) == [NewRange(64, 1).(expires := At(60)), SecondRange()];
  }

  /** The second call leaves the first range stamped as it was, so that its time makes it expire. */
  lemma BeforeSweep(rs: seq<Range>)
    requires Valid(64, rs) && rs == [NewRange(64, 1).(expires := At(60)), SecondRange()]
    ensures Swept(AddNum(64, rs, 68, 120).ranges, ExpiredCount(AddNum(64, rs, 68, 120).ranges, 61), 1)
  {
    AddNumKeeps(64, rs, 68, 120);
    assert Locate(rs, 68) == 1;
    var a := AddNumRanges(64, rs, 68);
    assert FirstZero(rs[1].members.value) == 0;
    assert a.ranges[0] == rs[0] && |a.ranges| == 2 && a.target == 1;
    var mid := AddNum(64, rs, 68, 120).ranges;
    assert a.ranges[..1] == [rs[0]] && ExpiredCount(a.ranges[..1], 120) == 1 && ExpiredCount(a.ranges, 120) == 1;
    assert mid[0] == rs[0] && |mid| == 2;
    assert mid[..1] == [rs[0]] && ExpiredCount(mid[..1], 61) == 1 && ExpiredCount(mid, 61) == 1;
    assert InSlot(mid, 0, 1) && 1 <= mid[0].max;
  }

  lemma SweepSees(rs: seq<Range>)
    requires Valid(64, rs) && rs == [NewRange(64, 1).(expires := At(60)), SecondRange()]
    ensures Valid(64, NumExists(64, rs, Call(68, 120, Some(61))).0)
    ensures NumExists(64, rs, Call(68, 120, Some(61))).0[0].min == 1
    ensures Seen(NumExists(64, rs, Call(68, 120, Some(61))).0, 1)
  {
    BeforeSweep(rs);
    NumExistsExactly(64, rs, Call(68, 120, Some(61)));
  }

  lemma SeenAfterTwo(n: nat, rs: seq<Range>, a: Call, b: Call, x: nat)
    requires Addable(n, rs, a.num) && rs[0].min <= b.num
    requires Valid(n, NumExists(n, rs, a).0) ==> Addable(n, NumExists(n, rs, a).0, b.num)
    requires Valid(n, NumExists(n, rs, a).0) ==> Seen(NumExists(n, NumExists(n, rs, a).0, b).0, x)
    ensures CallsOk(rs[0].min, [a, b]) && Seen(After(n, rs, [a, b]), x)
  {
    NumExistsExactly(n, rs, a);
    AfterTwo(n, rs, a, b);
  }

  /** After the two short-lived numbers the set takes the first number for seen. */
  lemma SweptAway()
    ensures Valid(64, Fresh(64)) && Fresh(64)[0].min == 1
    ensures CallsOk(1, ShortLived()) && Seen(After(64, Fresh(64), ShortLived()), 1)
  {
    AfterFirst();
    var rs := NumExists(64, Fresh(64), Call(66, 60, None)).0;
    if Valid(64, rs) {
      SweepSees(rs);
    }
    SeenAfterTwo(64, Fresh(64), Call(66, 60, None), Call(68, 120, Some(61)), 1);
  }

  lemma NeitherPresentedNorExpired()
    ensures !Presented(ShortLived(), 1) && !ExpiryChecked(ShortLived(), TOKEN_EXPIRES)
  {
  }

  /**
   * Login tokens live a minute and proof tokens twelve hours, on one counter and in one set. A proof token with number 1
   * that was never presented and has not expired is refused after two login tokens with higher numbers.
   */
  lemma UnpresentedIsRefused()
    ensures Valid(64, Fresh(64))
    ensures var calls := ShortLived() + [Call(1, TOKEN_EXPIRES, Some(62))];
      && CallsOk(1, calls) && Answer(64, Fresh(64), calls, 2)
      && !Presented(calls[..2], 1) && !ExpiryChecked(calls[..2], TOKEN_EXPIRES)
  {
    SweptAway();
    NeitherPresentedNorExpired();
    AnswerNext(64, Fresh(64), ShortLived(), Call(1, TOKEN_EXPIRES, Some(62)));
  }
}
