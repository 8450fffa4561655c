/**
 * Which refusals of the compact set are justified: only of numbers that were presented or have expired, exactly when the
 * expiries never decrease from one slot of n - 1 numbers to a later one.
 */
module CompactRefusals {
  import Arith
  import opened Common
  import opened CompactRange
  import opened CompactSpec
  import opened CompactRuns

  ghost predicate Presented(calls: seq<Call>, x: nat) {
    exists i :: 0 <= i < |calls| && calls[i].num == x
  }

  /** Some call of the run, with a number divisible by four, came with a time at or above `expires`. */
  ghost predicate ExpiryChecked(calls: seq<Call>, expires: nat) {
    exists i :: 0 <= i < |calls| && calls[i].time.Some? && calls[i].num % 4 == 0 && expires <= calls[i].time.value
  }

  ghost predicate Explained(calls: seq<Call>, e: nat -> nat, x: nat) {
    Presented(calls, x) || ExpiryChecked(calls, e(x))
  }

  ghost predicate ExpiriesMatch(calls: seq<Call>, e: nat -> nat) {
    forall i :: 0 <= i < |calls| ==> calls[i].expires == e(calls[i].num)
  }

  /** In every run from a new set, a number is refused only if it was presented earlier or was seen to have expired. */
  ghost predicate Sound(n: nat, e: nat -> nat)
    requires 2 <= n < 256
  {
    forall calls: seq<Call>, i: nat ::
      i < |calls| && CallsOk(1, calls) && ExpiriesMatch(calls, e) && Answer(n, Fresh(n), calls, i) ==>
        Explained(calls[..i], e, calls[i].num)
  }

  /** Ranges that still have members stand for one slot each. */
  function Slot(n: nat, x: nat): nat
    requires n >= 2 && x >= 1
  {
    (x - 1) / (n - 1)
  }

  ghost predicate SlotsInOrder(n: nat, e: nat -> nat)
    requires n >= 2
  {
    forall x, y {:trigger e(x), e(y)} :: 1 <= x && 1 <= y && Slot(n, x) < Slot(n, y) ==> e(x) <= e(y)
  }

  // ---- the grid of slots ----

  ghost predicate OnGrid(n: nat, m: nat)
    requires n >= 2
  {
    m >= 1 && (m - 1) % (n - 1) == 0
  }

  lemma GridNext(n: nat, m: nat)
    requires n >= 2 && OnGrid(n, m)
    ensures OnGrid(n, m + n - 1)
  {
    Arith.ModShift(m - 1, 1, n - 1);
  }

  /** From a grid point on, numbers below the next one share a slot, and those from there on lie in later slots. */
  lemma GridSlots(n: nat, m: nat, x: nat)
    requires n >= 2 && OnGrid(n, m) && m <= x
    ensures x < m + n - 1 ==> Slot(n, x) == Slot(n, m)
    ensures x >= m + n - 1 ==> Slot(n, x) > Slot(n, m)
  {
    var d, k := n - 1, Slot(n, m);
    assert m - 1 == d * k + 0;
    assert x - 1 == d * k + (x - m);
    Arith.ModShift(x - m, k, d);
    if x < m + n - 1 {
      Arith.DivModUnique(x - m, d, 0, x - m);
    } else {
      Arith.ModShift(x - m - d, 1, d);
    }
  }

  /** Ranges touch on the grid, and a last range with members left carries no stamp. */
  ghost predicate Gridded(n: nat, rs: seq<Range>)
    requires n >= 2
  {
    && (forall i :: 0 <= i < |rs| ==> OnGrid(n, rs[i].min) && OnGrid(n, rs[i].max))
    && (forall i :: 0 < i < |rs| ==> rs[i].min == rs[i - 1].max)
    && (|rs| > 0 ==> Quiet(rs[|rs| - 1]))
  }

  predicate Quiet(r: Range) {
    r.members.None? || r.expires.Unknown?
  }

  /** A stamp on a range that still has members bounds the expiry of every number that belongs to it. */
  ghost predicate StampsBound(rs: seq<Range>, e: nat -> nat) {
    forall i, x :: 0 <= i < |rs| && rs[i].members.Some? && rs[i].expires.At? && rs[i].min <= x < rs[i].max
      ==> e(x) <= rs[i].expires.at
  }

  lemma {:induction false} GrowGridded(n: nat, rs: seq<Range>, num: nat, e: nat -> nat)
    requires n >= 2 && |rs| > 0 && Gridded(n, rs) && StampsBound(rs, e)
    ensures Gridded(n, Grow(n, 0, rs, num)) && StampsBound(Grow(n, 0, rs, num), e)
    decreases if num > LastMax(rs) then num - LastMax(rs) else 0
  {
    if num > LastMax(rs) {
      GridNext(n, LastMax(rs));
      GrowGridded(n, rs + [NewRange(n, LastMax(rs))], num, e);
    }
  }

  lemma CollapseTouches(n: nat, rs: seq<Range>, a: nat, b: nat, x: Expiry, i: nat)
    requires n >= 2 && a <= b < |rs| && Gridded(n, rs) && 0 < i < |rs| - (b - a)
    ensures var c := Collapse(rs, a, b, x); i < |c| && c[i].min == c[i - 1].max
  {
    CollapseIndex(rs, a, b, x);
    var j := if i <= a then i else i + (b - a);
    assert rs[j].min == rs[j - 1].max;
  }

  lemma CollapseGridded(n: nat, rs: seq<Range>, a: nat, b: nat, x: Expiry, e: nat -> nat)
    requires n >= 2 && a <= b < |rs| && Gridded(n, rs) && StampsBound(rs, e)
    ensures Gridded(n, Collapse(rs, a, b, x)) && StampsBound(Collapse(rs, a, b, x), e)
  {
    CollapseIndex(rs, a, b, x);
    var c := Collapse(rs, a, b, x);
    forall i: nat | 0 < i < |c|
      ensures c[i].min == c[i - 1].max
    {
      CollapseTouches(n, rs, a, b, x, i);
    }
  }

  lemma ReplaceGridded(n: nat, rs: seq<Range>, t: nat, r: Range, e: nat -> nat)
    requires n >= 2 && t < |rs| && Gridded(n, rs) && StampsBound(rs, e)
    requires r.min == rs[t].min && r.max == rs[t].max && r.expires == rs[t].expires
    requires r.members.Some? ==> rs[t].members.Some?
    ensures Gridded(n, rs[t := r]) && StampsBound(rs[t := r], e)
  {
  }

  lemma MergeGridded(n: nat, rs: seq<Range>, t: nat, e: nat -> nat)
    requires n >= 2 && t < |rs| && Gridded(n, rs) && StampsBound(rs, e)
    ensures Gridded(n, Merge(rs, t).0) && StampsBound(Merge(rs, t).0, e)
  {
    var a := if FullAt(rs, t - 1) then t - 1 else t;
    var b := if FullAt(rs, t + 1) then t + 1 else t;
    if a < b {
      CollapseGridded(n, rs, a, b, rs[a].expires, e);
    }
  }

  lemma AddGridded(n: nat, rs: seq<Range>, num: nat, e: nat -> nat)
    requires Addable(n, rs, num) && Gridded(n, rs) && StampsBound(rs, e)
    ensures Gridded(n, AddNumRanges(n, rs, num).ranges) && StampsBound(AddNumRanges(n, rs, num).ranges, e)
  {
    if num > LastMax(rs) {
      GrowGridded(n, rs, num, e);
    } else {
      LocateSlot(rs, num);
      var t := Locate(rs, num);
      RangeAddExact(n, rs[t], num);
      match RangeAdd(n, rs[t], num) {
        case None =>
        case Some(r) =>
          ReplaceGridded(n, rs, t, r, e);
          if r.members.None? {
            MergeGridded(n, rs[t := r], t, e);
          }
      }
    }
  }

  /** The numbers of a range with members left lie in an earlier slot than any number of a later range. */
  lemma EarlierRange(n: nat, rs: seq<Range>, i: nat, j: nat, x: nat, num: nat)
    requires WellFormed(n, rs) && Gridded(n, rs) && i < j < |rs|
    requires rs[i].members.Some? && rs[i].min <= x < rs[i].max && rs[j].min <= num
    ensures 1 <= x && 1 <= num && Slot(n, x) < Slot(n, num)
  {
    assert RangeOk(n, rs[i]) && rs[i].max <= rs[j].min;
    GridSlots(n, rs[i].min, x);
    GridSlots(n, rs[i].min, num);
  }

  lemma StampGridded(n: nat, rs: seq<Range>, lo: nat, hi: nat, at: nat)
    requires n >= 2 && Gridded(n, rs) && hi < |rs|
    ensures Gridded(n, Stamp(rs, lo, hi, at))
  {
  }

  lemma StampStampsBound(n: nat, rs: seq<Range>, lo: nat, hi: nat, num: nat, e: nat -> nat)
    requires WellFormed(n, rs) && Gridded(n, rs) && StampsBound(rs, e) && SlotsInOrder(n, e)
    requires hi < |rs| && rs[hi].min <= num
    ensures StampsBound(Stamp(rs, lo, hi, e(num)), e)
  {
    var ss := Stamp(rs, lo, hi, e(num));
    forall i, x | 0 <= i < |ss| && ss[i].members.Some? && ss[i].expires.At? && ss[i].min <= x < ss[i].max
      ensures e(x) <= ss[i].expires.at
    {
      if lo <= i < hi {
        EarlierRange(n, rs, i, hi, x, num);
      }
    }
  }

  lemma AddNumGridded(n: nat, rs: seq<Range>, num: nat, e: nat -> nat)
    requires Addable(n, rs, num) && Gridded(n, rs) && StampsBound(rs, e) && SlotsInOrder(n, e)
    ensures var mid := AddNum(n, rs, num, e(num)).ranges; Gridded(n, mid) && StampsBound(mid, e)
  {
    AddNumKeeps(n, rs, num, e(num));
    AddGridded(n, rs, num, e);
    var b := AddNumRanges(n, rs, num);
    StampGridded(n, b.ranges, ExpiredCount(b.ranges, e(num)), b.target, e(num));
    StampStampsBound(n, b.ranges, ExpiredCount(b.ranges, e(num)), b.target, num, e);
  }

  lemma SweepGridded(n: nat, rs: seq<Range>, time: nat, e: nat -> nat)
    requires n >= 2 && Gridded(n, rs) && StampsBound(rs, e)
    ensures Gridded(n, CheckExpired(rs, time)) && StampsBound(CheckExpired(rs, time), e)
  {
    if ExpiredCount(rs, time) > 0 {
      CollapseGridded(n, rs, 0, ExpiredCount(rs, time) - 1, At(0), e);
    }
  }

  lemma CallGridded(n: nat, rs: seq<Range>, c: Call, e: nat -> nat)
    requires Addable(n, rs, c.num) && Gridded(n, rs) && StampsBound(rs, e) && SlotsInOrder(n, e) && c.expires == e(c.num)
    ensures Gridded(n, NumExists(n, rs, c).0) && StampsBound(NumExists(n, rs, c).0, e)
  {
    AddNumGridded(n, rs, c.num, e);
    if Checks(c) {
      SweepGridded(n, AddNum(n, rs, c.num, c.expires).ranges, c.time.value, e);
    }
  }

  // ---- slots in order: every refusal is explained ----

  lemma SweptAreExpired(n: nat, rs: seq<Range>, time: nat, e: nat -> nat, x: nat)
    requires Valid(n, rs) && Gridded(n, rs) && StampsBound(rs, e) && Swept(rs, ExpiredCount(rs, time), x)
    ensures Seen(rs, x) || e(x) <= time
  {
    var c := ExpiredCount(rs, time);
    ExpiredCountSplits(rs, time);
    var s :| 0 <= s < c && InSlot(rs, s, x) && x <= rs[s].max;
    SeenInSlot(rs, s, x);
    if rs[s].members.Some? {
      assert s + 1 < |rs|;
      assert rs[s + 1].min == rs[s].max;
      assert e(x) <= rs[s].expires.at;
    }
  }

  lemma ExplainedGrows(calls: seq<Call>, e: nat -> nat, x: nat)
    requires calls != []
    ensures Explained(calls[..|calls| - 1], e, x) ==> Explained(calls, e, x)
  {
    var init := calls[..|calls| - 1];
    if Presented(init, x) {
      var i :| 0 <= i < |init| && init[i].num == x;
      assert calls[i].num == x;
    }
    if ExpiryChecked(init, e(x)) {
      var i :| 0 <= i < |init| && init[i].time.Some? && init[i].num % 4 == 0 && e(x) <= init[i].time.value;
      assert calls[i] == init[i];
    }
  }

  lemma CallExplains(n: nat, rs: seq<Range>, c: Call, e: nat -> nat, x: nat)
    requires Addable(n, rs, c.num) && Gridded(n, rs) && StampsBound(rs, e) && SlotsInOrder(n, e) && c.expires == e(c.num)
    ensures Seen(NumExists(n, rs, c).0, x) ==>
      Seen(rs, x) || x == c.num || (c.time.Some? && c.num % 4 == 0 && e(x) <= c.time.value)
  {
    AddNumKeeps(n, rs, c.num, c.expires);
    AddNumGridded(n, rs, c.num, e);
    NumExistsExactly(n, rs, c);
    var mid := AddNum(n, rs, c.num, c.expires).ranges;
    if Checks(c) && Swept(mid, ExpiredCount(mid, c.time.value), x) {
      SweptAreExpired(n, mid, c.time.value, e, x);
    }
  }

  lemma {:induction false} RunGridded(n: nat, e: nat -> nat, calls: seq<Call>)
    requires 2 <= n < 256 && SlotsInOrder(n, e) && CallsOk(1, calls) && ExpiriesMatch(calls, e)
    ensures Gridded(n, After(n, Fresh(n), calls)) && StampsBound(After(n, Fresh(n), calls), e)
    decreases |calls|
  {
    if calls == [] {
      GridNext(n, 1);
    } else {
      var init := calls[..|calls| - 1];
      RunGridded(n, e, init);
      CallGridded(n, After(n, Fresh(n), init), calls[|calls| - 1], e);
    }
  }

  lemma {:induction false} SeenIsExplained(n: nat, e: nat -> nat, calls: seq<Call>, x: nat)
    requires 2 <= n < 256 && SlotsInOrder(n, e) && CallsOk(1, calls) && ExpiriesMatch(calls, e)
    requires Seen(After(n, Fresh(n), calls), x)
    ensures Explained(calls, e, x)
    decreases |calls|
  {
    FreshValid(n);
    if calls != [] {
      var init, c := calls[..|calls| - 1], calls[|calls| - 1];
      RunGridded(n, e, init);
      CallExplains(n, After(n, Fresh(n), init), c, e, x);
      if Seen(After(n, Fresh(n), init), x) {
        SeenIsExplained(n, e, init, x);
        ExplainedGrows(calls, e, x);
      }
    }
  }

  /** Numbers that are not divisible by four never sweep, whatever time they come with. */
  ghost predicate NothingSwept(calls: seq<Call>) {
    forall i :: 0 <= i < |calls| && calls[i].time.Some? ==> calls[i].num % 4 != 0
  }

  lemma {:induction false} SeenIsPresented(n: nat, calls: seq<Call>, x: nat)
    requires 2 <= n < 256 && CallsOk(1, calls) && NothingSwept(calls)
    requires Seen(After(n, Fresh(n), calls), x)
    ensures Presented(calls, x)
    decreases |calls|
  {
    FreshValid(n);
    if calls != [] {
      var init, c := calls[..|calls| - 1], calls[|calls| - 1];
      NumExistsExactly(n, After(n, Fresh(n), init), c);
      assert calls[|calls| - 1].num == c.num;
      if x != c.num {
        SeenIsPresented(n, init, x);
        var i :| 0 <= i < |init| && init[i].num == x;
        assert calls[i].num == x;
      }
    }
  }

  /** Where no number divisible by four comes with a time, only presented numbers are refused, whatever the expiries are. */
  lemma UnsweptRefusals(n: nat, calls: seq<Call>, i: nat)
    requires 2 <= n < 256 && CallsOk(1, calls) && i < |calls| && NothingSwept(calls[..i])
    ensures Answer(n, Fresh(n), calls, i) ==> Presented(calls[..i], calls[i].num)
  {
    NumExistsExactly(n, After(n, Fresh(n), calls[..i]), calls[i]);
    if Answer(n, Fresh(n), calls, i) {
      SeenIsPresented(n, calls[..i], calls[i].num);
    }
  }

  lemma InOrderIsSound(n: nat, e: nat -> nat)
    requires 2 <= n < 256 && SlotsInOrder(n, e)
    ensures Sound(n, e)
  {
    forall calls: seq<Call>, i: nat |
      i < |calls| && CallsOk(1, calls) && ExpiriesMatch(calls, e) && Answer(n, Fresh(n), calls, i)
      ensures Explained(calls[..i], e, calls[i].num)
    {
      NumExistsExactly(n, After(n, Fresh(n), calls[..i]), calls[i]);
      SeenIsExplained(n, e, calls[..i], calls[i].num);
    }
  }

  // ---- slots out of order: a run with a refusal that nothing explains ----

  /** `x` is in a range that is stamped with an expiry of at most `v`. */
  ghost predicate StampedBy(rs: seq<Range>, x: nat, v: nat) {
    exists t :: StampedAt(rs, t, x, v)
  }

  ghost predicate StampedAt(rs: seq<Range>, t: int, x: nat, v: nat) {
    InSlot(rs, t, x) && x <= rs[t].max && rs[t].expires.At? && rs[t].expires.at <= v
  }

  lemma StampKeepsStamped(n: nat, rs: seq<Range>, hi: nat, at: nat, x: nat, v: nat)
    requires Valid(n, rs) && StampedBy(rs, x, v)
    ensures StampedBy(Stamp(rs, ExpiredCount(rs, at), hi, at), x, v)
  {
    var ss := Stamp(rs, ExpiredCount(rs, at), hi, at);
    ExpiredCountSplits(rs, at);
    var t :| StampedAt(rs, t, x, v);
    assert StampedAt(ss, t, x, v);
  }

  lemma CollapseKeepsStamped(rs: seq<Range>, a: nat, b: nat, e: Expiry, x: nat, v: nat)
    requires Ordered(rs) && a <= b < |rs| && StampedBy(rs, x, v) && forall i :: a <= i <= b ==> FullAt(rs, i)
    ensures StampedBy(Collapse(rs, a, b, e), x, v) || Seen(rs, x)
  {
    var t :| StampedAt(rs, t, x, v);
    if a <= t <= b {
      assert FullAt(rs, t);
      SeenInSlot(rs, t, x);
    } else {
      CollapseIndex(rs, a, b, e);
      CollapseSlot(rs, a, b, e, t, x);
      assert StampedAt(Collapse(rs, a, b, e), if t < a then t else t - (b - a), x, v);
    }
  }

  lemma ReplaceKeepsStamped(rs: seq<Range>, t: nat, r: Range, x: nat, v: nat)
    requires t < |rs| && r.min == rs[t].min && r.max == rs[t].max && r.expires == rs[t].expires && StampedBy(rs, x, v)
    ensures StampedBy(rs[t := r], x, v)
  {
    var s :| StampedAt(rs, s, x, v);
    assert StampedAt(rs[t := r], s, x, v);
  }

  lemma RunIsFull(rs: seq<Range>, t: nat)
    requires FullAt(rs, t)
    ensures forall i :: (if FullAt(rs, t - 1) then t - 1 else t) <= i <= (if FullAt(rs, t + 1) then t + 1 else t) ==>
      FullAt(rs, i)
  {
  }

  lemma MergeKeepsStamped(rs: seq<Range>, t: nat, x: nat, v: nat)
    requires Ordered(rs) && FullAt(rs, t) && StampedBy(rs, x, v)
    ensures StampedBy(Merge(rs, t).0, x, v) || Seen(rs, x)
  {
    var a := if FullAt(rs, t - 1) then t - 1 else t;
    var b := if FullAt(rs, t + 1) then t + 1 else t;
    if a < b {
      RunIsFull(rs, t);
      CollapseKeepsStamped(rs, a, b, rs[a].expires, x, v);
    }
  }

  /** A number that lands in an existing range leaves every other one seen or stamped as before. */
  lemma AddKeepsStamped(n: nat, rs: seq<Range>, num: nat, x: nat, v: nat)
    requires Addable(n, rs, num) && num <= LastMax(rs) && StampedBy(rs, x, v)
    ensures StampedBy(AddNumRanges(n, rs, num).ranges, x, v) || Seen(AddNumRanges(n, rs, num).ranges, x)
  {
    LocateSlot(rs, num);
    var t := Locate(rs, num);
    RangeAddExact(n, rs[t], num);
    match RangeAdd(n, rs[t], num) {
      case None =>
      case Some(r) =>
        ReplaceExactly(n, rs, t, r, num);
        ReplaceKeepsStamped(rs, t, r, x, v);
        if r.members.None? {
          MergeExactly(n, rs[t := r], t);
          MergeKeepsStamped(rs[t := r], t, x, v);
        }
    }
  }

  /** A number above that lands in the set. */
  lemma CallKeepsStamped(n: nat, rs: seq<Range>, num: nat, expires: nat, x: nat, v: nat)
    requires Addable(n, rs, num) && num <= LastMax(rs) && (StampedBy(rs, x, v) || Seen(rs, x))
    ensures StampedBy(AddNum(n, rs, num, expires).ranges, x, v) || Seen(AddNum(n, rs, num, expires).ranges, x)
  {
    AddLandsExactly(n, rs, num);
    AddNumKeeps(n, rs, num, expires);
    if !Seen(rs, x) {
      AddKeepsStamped(n, rs, num, x, v);
      var b := AddNumRanges(n, rs, num);
      if StampedBy(b.ranges, x, v) {
        StampKeepsStamped(n, b.ranges, b.target, expires, x, v);
      }
    }
  }

  /** A check at a time at or after the stamp makes the number seen. */
  lemma CheckSweeps(n: nat, rs: seq<Range>, time: nat, x: nat)
    requires Valid(n, rs) && (StampedBy(rs, x, time) || Seen(rs, x))
    ensures Seen(CheckExpired(rs, time), x)
  {
    CheckExpiredExactly(n, rs, time);
    if StampedBy(rs, x, time) {
      ExpiredCountSplits(rs, time);
      var t :| StampedAt(rs, t, x, time);
      assert Swept(rs, ExpiredCount(rs, time), x);
    }
  }

  lemma TargetHolds(n: nat, rs: seq<Range>, num: nat)
    requires Addable(n, rs, num) && num <= LastMax(rs)
    ensures InSlot(AddNumRanges(n, rs, num).ranges, AddNumRanges(n, rs, num).target, num)
  {
    LocateSlot(rs, num);
    var t := Locate(rs, num);
    RangeAddExact(n, rs[t], num);
    match RangeAdd(n, rs[t], num) {
      case None =>
      case Some(r) =>
        ReplaceExactly(n, rs, t, r, num);
        if r.members.None? {
          MergeHolds(rs[t := r], t, num);
        }
    }
  }

  lemma MergeHolds(rs: seq<Range>, t: nat, num: nat)
    requires Ordered(rs) && FullAt(rs, t) && InSlot(rs, t, num)
    ensures InSlot(Merge(rs, t).0, Merge(rs, t).1, num)
  {
    var a := if FullAt(rs, t - 1) then t - 1 else t;
    var b := if FullAt(rs, t + 1) then t + 1 else t;
    if a < b {
      CollapseSlot(rs, a, b, rs[a].expires, t, num);
    }
  }

  /** With members left, a range that holds two numbers holds numbers of one slot. */
  lemma OneSlot(n: nat, rs: seq<Range>, t: nat, x: nat, y: nat)
    requires WellFormed(n, rs) && Gridded(n, rs) && InSlot(rs, t, x) && InSlot(rs, t, y)
    requires x < LastMax(rs) && y < LastMax(rs) && rs[t].members.Some?
    ensures 1 <= x && 1 <= y && Slot(n, x) == Slot(n, y)
  {
    assert RangeOk(n, rs[t]);
    assert t + 1 < |rs| ==> rs[t + 1].min == rs[t].max;
    GridSlots(n, rs[t].min, x);
    GridSlots(n, rs[t].min, y);
  }

  lemma LaterSlot(n: nat, x: nat, y: nat)
    requires n >= 2 && 1 <= y <= x
    ensures Slot(n, y) <= Slot(n, x)
  {
    var d := n - 1;
    Arith.MulGap(d, Slot(n, x), Slot(n, y));
  }

  /** Where the number of an earlier slot is found after a landing: before the target, or in a range that is full. */
  lemma BeforeTarget(n: nat, rs: seq<Range>, y: nat, x: nat) returns (s: nat)
    requires Addable(n, rs, y) && Gridded(n, rs) && y < LastMax(rs) && rs[0].min == 1
    requires 1 <= x < y && Slot(n, x) < Slot(n, y)
    ensures var b := AddNumRanges(n, rs, y);
      && InSlot(b.ranges, s, x) && x <= b.ranges[s].max && Ordered(b.ranges)
      && (s < b.target || b.ranges[s].members.None?)
  {
    AddLandsExactly(n, rs, y);
    AddGridded(n, rs, y, NoBound);
    TargetHolds(n, rs, y);
    var b := AddNumRanges(n, rs, y);
    LocateSlot(b.ranges, x);
    s := Locate(b.ranges, x);
    MinMono(b.ranges, b.target + 1, s);
    if s == b.target && b.ranges[s].members.Some? {
      OneSlot(n, b.ranges, s, x, y);
    }
  }

  lemma StampReaches(n: nat, rs: seq<Range>, s: nat, hi: nat, at: nat, x: nat)
    requires Valid(n, rs) && hi <= |rs| && InSlot(rs, s, x) && x <= rs[s].max
    ensures s < hi ==> StampedBy(Stamp(rs, ExpiredCount(rs, at), hi, at), x, at)
    ensures rs[s].members.None? ==> Seen(Stamp(rs, ExpiredCount(rs, at), hi, at), x)
  {
    var ss := Stamp(rs, ExpiredCount(rs, at), hi, at);
    ExpiredCountSplits(rs, at);
    assert InSlot(ss, s, x);
    if s < hi {
      assert StampedAt(ss, s, x, at);
    }
    if rs[s].members.None? {
      assert SeenAt(ss, s, x);
    }
  }

  /** A number that lands stamps, with its own expiry at most, every range of an earlier slot that is not full. */
  lemma LandingStamps(n: nat, rs: seq<Range>, y: nat, at: nat, x: nat)
    requires Addable(n, rs, y) && Gridded(n, rs) && y < LastMax(rs) && rs[0].min == 1
    requires 1 <= x && 1 <= y && Slot(n, x) < Slot(n, y)
    ensures StampedBy(AddNum(n, rs, y, at).ranges, x, at) || Seen(AddNum(n, rs, y, at).ranges, x)
  {
    if x >= y {
      LaterSlot(n, x, y);
    }
    var s := BeforeTarget(n, rs, y, x);
    AddNumKeeps(n, rs, y, at);
    var b := AddNumRanges(n, rs, y);
    StampReaches(n, b.ranges, s, b.target, at, x);
  }

  function NoBound(x: nat): nat {
    0
  }

  /** A first call with a large number makes ranges for all smaller ones. */
  lemma LargeFirst(n: nat, z: nat, expires: nat)
    requires 2 <= n < 256 && z > n
    ensures var rs := NumExists(n, Fresh(n), Call(z, expires, None)).0;
      Valid(n, rs) && Gridded(n, rs) && LastMax(rs) >= z && rs[0].min == 1
  {
    GridNext(n, 1);
    AddNumKeeps(n, Fresh(n), z, expires);
    AddGridded(n, Fresh(n), z, NoBound);
    var b := AddNumRanges(n, Fresh(n), z);
    StampGridded(n, b.ranges, ExpiredCount(b.ranges, expires), b.target, expires);
  }

  /** After a large number, `y` and a number divisible by four that is presented with a time of `at`, `x` is refused. */
  lemma SweptBy(n: nat, rs: seq<Range>, y: Call, w: Call, x: nat)
    requires Valid(n, rs) && Gridded(n, rs) && rs[0].min == 1 && 1 <= y.num < LastMax(rs) && 1 <= w.num <= LastMax(rs)
    requires 1 <= x && Slot(n, x) < Slot(n, y.num) && y.time.None? && Checks(w) && w.time.value == y.expires
    ensures var ss := NumExists(n, rs, y).0; Addable(n, ss, w.num) && Seen(NumExists(n, ss, w).0, x)
  {
    NumExistsExactly(n, rs, y);
    LandingStamps(n, rs, y.num, y.expires, x);
    var ss := NumExists(n, rs, y).0;
    CallKeepsStamped(n, ss, w.num, w.expires, x, y.expires);
    AddNumKeeps(n, ss, w.num, w.expires);
    CheckSweeps(n, AddNum(n, ss, w.num, w.expires).ranges, y.expires, x);
  }

  lemma AfterThree(n: nat, rs: seq<Range>, a: Call, b: Call, c: Call)
    requires Addable(n, rs, a.num) && b.num >= rs[0].min && c.num >= rs[0].min
    requires Addable(n, NumExists(n, rs, a).0, b.num)
    requires Addable(n, NumExists(n, NumExists(n, rs, a).0, b).0, c.num)
    ensures CallsOk(rs[0].min, [a, b] + [c])
    ensures After(n, rs, [a, b] + [c]) == NumExists(n, NumExists(n, NumExists(n, rs, a).0, b).0, c).0
  {
    AfterTwo(n, rs, a, b);
    AfterNext(n, rs, [a, b], c);
  }

  /** The run: a large number, `y`, a number that checks the time of `y`'s expiry, and `x`. */
  function Misleading(n: nat, e: nat -> nat, x: nat, y: nat): (calls: seq<Call>)
    ensures |calls| == 3
  {
    var z, w := x + y + n + 8, if x == 4 then 8 else 4;
    [Call(z, e(z), None), Call(y, e(y), None)] + [Call(w, e(w), Some(e(y)))]
  }

  lemma MisleadingSees(n: nat, e: nat -> nat, x: nat, y: nat)
    requires 2 <= n < 256 && 1 <= x && 1 <= y && Slot(n, x) < Slot(n, y)
    ensures CallsOk(1, Misleading(n, e, x, y)) && Seen(After(n, Fresh(n), Misleading(n, e, x, y)), x)
  {
    var calls := Misleading(n, e, x, y);
    var rs := NumExists(n, Fresh(n), calls[0]).0;
    LargeFirst(n, calls[0].num, calls[0].expires);
    SweptBy(n, rs, calls[1], calls[2], x);
    AfterThree(n, Fresh(n), calls[0], calls[1], calls[2]);
    assert calls == [calls[0], calls[1]] + [calls[2]];
  }

  lemma MisleadingExplainsNot(n: nat, e: nat -> nat, x: nat, y: nat)
    requires n >= 2 && 1 <= x && 1 <= y && Slot(n, x) < Slot(n, y) && e(x) > e(y)
    ensures ExpiriesMatch(Misleading(n, e, x, y), e) && !Explained(Misleading(n, e, x, y), e, x)
  {
  }

  lemma OutOfOrderIsUnsound(n: nat, e: nat -> nat, x: nat, y: nat)
    requires 2 <= n < 256 && 1 <= x && 1 <= y && Slot(n, x) < Slot(n, y) && e(x) > e(y)
    ensures !Sound(n, e)
  {
    var calls, last := Misleading(n, e, x, y), Call(x, e(x), None);
    MisleadingSees(n, e, x, y);
    MisleadingExplainsNot(n, e, x, y);
    AnswerNext(n, Fresh(n), calls, last);
    UnexplainedIsUnsound(n, e, calls, last);
  }

  lemma UnexplainedIsUnsound(n: nat, e: nat -> nat, calls: seq<Call>, last: Call)
    requires 2 <= n < 256 && CallsOk(1, calls) && ExpiriesMatch(calls, e) && last.num >= 1 && last.expires == e(last.num)
    requires CallsOk(1, calls + [last]) && Answer(n, Fresh(n), calls + [last], |calls|)
    requires !Explained(calls, e, last.num)
    ensures !Sound(n, e)
  {
    var all := calls + [last];
    assert all[..|calls|] == calls && ExpiriesMatch(all, e);
    assert all[|calls|].num == last.num;
  }

  /**
   * Every refusal of a new set, in every run, is of a number that was presented or whose expiry was checked to have passed,
   * if and only if the expiries do not decrease from one slot of n - 1 numbers to a later one.
   */
  lemma RefusalsExplainedExactly(n: nat, e: nat -> nat)
    requires 2 <= n < 256
    ensures Sound(n, e) <==> SlotsInOrder(n, e)
  {
    if SlotsInOrder(n, e) {
      InOrderIsSound(n, e);
    } else {
      var x, y :| 1 <= x && 1 <= y && Slot(n, x) < Slot(n, y) && e(x) > e(y);
      OutOfOrderIsUnsound(n, e, x, y);
    }
  }

  ghost predicate Monotone(e: nat -> nat) {
    forall x, y {:trigger e(x), e(y)} :: x <= y ==> e(x) <= e(y)
  }

  /** Numbers that are issued with non-decreasing expiries are refused only for a reason, whatever the range size. */
  lemma RefusalsAreExplained(n: nat, e: nat -> nat)
    requires 2 <= n < 256 && Monotone(e)
    ensures Sound(n, e)
  {
    forall x, y | 1 <= x && 1 <= y && Slot(n, x) < Slot(n, y)
      ensures e(x) <= e(y)
    {
      if x > y {
        LaterSlot(n, x, y);
      }
    }
    RefusalsExplainedExactly(n, e);
  }
}
