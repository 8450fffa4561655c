/** The compact set as it runs: a deque of ranges updated in place behind one lock. */
module CompactSet {
  import opened Common
  import opened CompactRange
  import opened CompactSpec
  import opened CompactRuns

  const RANGE_SIZE: nat := 64

  /** `Range::add_num`; its panic, no free entry left, cannot be reached. */
  method AddToRange(n: nat, r: Range, num: nat) returns (added: Option<Range>)
    requires RangeOk(n, r) && r.min <= num <= r.max
    ensures added == RangeAdd(n, r, num)
  {
    var small := (num - r.min + 1) % 256;
    if r.members.None? {
      return None;
    }
    var members := r.members.value;
    ghost var free := FirstZero(members);
    for i := 0 to n
      invariant i <= free
      invariant forall j :: 0 <= j < i ==> members[j] != small
    {
      var val := members[i];
      if val == small {
        return None;
      } else if val == 0 {
        assert small !in members;
        if i == n - 1 {
          return Some(Range(None, r.min, r.max, r.expires));
        }
        return Some(Range(Some(members[i := small]), r.min, r.max, r.expires));
      }
    }
    assert false;
  }

  /** `Range::full`; its assertion is the precondition, which every call meets, so it never fails. */
  method Full(n: nat, min: nat, max: nat, expires: Expiry) returns (r: Range)
    requires max + 1 >= min + n
    ensures r == FullRange(min, max, expires)
  {
    r := Range(None, min, max, expires);
  }

  /** From the min of one range to the max of that or a later one there are at least N numbers. */
  lemma LongEnough(n: nat, rs: seq<Range>, a: nat, b: nat)
    requires WellFormed(n, rs) && a <= b < |rs|
    ensures rs[b].max + 1 >= rs[a].min + n
  {
    assert RangeOk(n, rs[a]);
    MinMono(rs, a, b);
  }

  lemma RemovalIsCollapse(rs: seq<Range>, a: nat, b: nat, e: Expiry)
    requires a <= b < |rs|
    ensures var u := rs[a := FullRange(rs[a].min, rs[b].max, e)];
      u[..a + 1] + u[a + 1 + (b - a)..] == Collapse(rs, a, b, e)
  {
  }

  lemma RotationIsCollapse(rs: seq<Range>, c: nat)
    requires 0 < c <= |rs|
    ensures var rotated := rs[c..] + rs[..c];
      [FullRange(rs[0].min, rs[c - 1].max, At(0))] + rotated[..|rs| - c] == Collapse(rs, 0, c - 1, At(0))
  {
    assert (rs[c..] + rs[..c])[..|rs| - c] == rs[c..];
  }

  class CompactSetRange {
    const n: nat
    var ranges: seq<Range>

    ghost predicate Invariant()
      reads this
    {
      2 <= n < 256 && Valid(n, ranges)
    }

    constructor ()
      ensures Invariant() && n == RANGE_SIZE && ranges == [NewRange(RANGE_SIZE, 1)]
      ensures forall x :: !Seen(ranges, x)
    {
      n := RANGE_SIZE;
      ranges := [NewRange(RANGE_SIZE, 1)];
      FreshValid(RANGE_SIZE);
    }

    /** `binary_search_by` on the mins: the number of ranges whose min is not above `num`. */
    method SearchMin(num: nat) returns (i: nat)
      requires Invariant() && ranges[0].min <= num
      ensures i == Locate(ranges, num) + 1
    {
      var lo, hi := 0, |ranges|;
      while lo < hi
        invariant 0 <= lo <= hi <= |ranges|
        invariant forall j :: 0 <= j < lo ==> ranges[j].min <= num
        invariant forall j :: hi <= j < |ranges| ==> ranges[j].min > num
      {
        var mid := (lo + hi) / 2;
        if ranges[mid].min <= num {
          forall j | 0 <= j <= mid
            ensures ranges[j].min <= num
          {
            MinMono(ranges, j, mid);
          }
          lo := mid + 1;
        } else {
          forall j | mid <= j < |ranges|
            ensures ranges[j].min > num
          {
            MinMono(ranges, mid, j);
          }
          hi := mid;
        }
      }
      i := lo;
      LocateInSlot(ranges, num);
      assert InSlot(ranges, i - 1, num);
      SlotUnique(ranges, i - 1, Locate(ranges, num), num);
    }

    /** `binary_search_by` on the stamps: the number of ranges expired at `time`. */
    method SearchExpired(time: nat) returns (i: nat)
      requires Invariant()
      ensures i == ExpiredCount(ranges, time)
    {
      ExpiredCountSplits(ranges, time);
      var lo, hi := 0, |ranges|;
      while lo < hi
        invariant 0 <= lo <= ExpiredCount(ranges, time) <= hi <= |ranges|
      {
        var mid := (lo + hi) / 2;
        var expires := ranges[mid].expires;
        if expires.At? && expires.at <= time {
          lo := mid + 1;
        } else {
          hi := mid;
        }
      }
      i := lo;
    }

    /** The shifting loop and the truncation after it: `gap` ranges from `from` on disappear. */
    method Remove(from: nat, gap: nat)
      requires from + gap <= |ranges|
      modifies this
      ensures ranges == old(ranges[..from] + ranges[from + gap..])
    {
      var len := |ranges|;
      for i := from to len - gap
        invariant |ranges| == len
        invariant forall j :: 0 <= j < from ==> ranges[j] == old(ranges[j])
        invariant forall j :: from <= j < i ==> ranges[j] == old(ranges[j + gap])
        invariant forall j :: i <= j < len ==> ranges[j] == old(ranges[j])
      {
        ranges := ranges[i := ranges[i + gap]];
      }
      ranges := ranges[..len - gap];
    }

    /** The growing branch. */
    method GrowTo(num: nat)
      requires Invariant()
      modifies this
      ensures ranges == Grow(n, 0, old(ranges), num)
    {
      var max := LastMax(ranges);
      while num > max
        invariant Invariant() && max == LastMax(ranges)
        invariant Grow(n, 0, ranges, num) == Grow(n, 0, old(ranges), num)
        decreases num - max
      {
        GrowOnce(n, ranges, max);
        var newRange := NewRange(n, max);
        max := newRange.max;
        ranges := ranges + [newRange];
      }
    }

    /** Ranges `a` to `b` become one full range: the first is overwritten, the others are shifted out. */
    method Join(a: nat, b: nat)
      requires a < b < |ranges| && WellFormed(n, ranges)
      modifies this
      ensures ranges == Collapse(old(ranges), a, b, old(ranges[a].expires))
    {
      ghost var before := ranges;
      LongEnough(n, ranges, a, b);
      RemovalIsCollapse(before, a, b, before[a].expires);
      var full := Full(n, ranges[a].min, ranges[b].max, ranges[a].expires);
      ranges := ranges[a := full];
      Remove(a + 1, b - a);
    }

    /** The merge with full neighbours that follows a fill-up of range `t`. */
    method MergeNeighbours(t: nat) returns (target: nat)
      requires t < |ranges| && WellFormed(n, ranges)
      modifies this
      ensures (ranges, target) == Merge(old(ranges), t)
    {
      var prevFull := t != 0 && ranges[t - 1].members.None?;
      var nextFull := t + 1 != |ranges| && ranges[t + 1].members.None?;
      if prevFull && nextFull {
        Join(t - 1, t + 1);
        target := t - 1;
      } else if prevFull {
        Join(t - 1, t);
        target := t - 1;
      } else if nextFull {
        Join(t, t + 1);
        target := t;
      } else {
        target := t;
      }
    }

    method AddNumRanges(num: nat) returns (target: nat, contains: bool)
      requires Invariant() && ranges[0].min <= num
      modifies this
      ensures Invariant()
      ensures Added(ranges, target, contains) == CompactSpec.AddNumRanges(n, old(ranges), num)
    {
      AddStaysValid(n, ranges, num);
      LocateSlot(ranges, num);
      var next := SearchMin(num);
      var t := next - 1;
      MinMono(ranges, t + 1, |ranges| - 1);
      if next == |ranges| && num > ranges[t].max {
        GrowTo(num);
        return |ranges| - 1, false;
      }
      var added := AddToRange(n, ranges[t], num);
      if added.None? {
        return t, true;
      }
      RangeAddExact(n, ranges[t], num);
      ReplaceKeeps(n, ranges, t, added.value);
      ranges := ranges[t := added.value];
      if added.value.members.Some? {
        return t, false;
      }
      target := MergeNeighbours(t);
      contains := false;
    }

    method StampRanges(lo: nat, hi: nat, at: nat)
      requires lo <= |ranges| && hi <= |ranges|
      modifies this
      ensures ranges == Stamp(old(ranges), lo, hi, at)
    {
      ghost var before := ranges;
      var i := lo;
      while i < hi
        invariant |ranges| == |before| && lo <= i
        invariant forall j :: 0 <= j < |before| ==>
          ranges[j] == if lo <= j < i && j < hi then before[j].(expires := At(at)) else before[j]
      {
        ranges := ranges[i := ranges[i].(expires := At(at))];
        i := i + 1;
      }
      assert ranges == Stamp(before, lo, hi, at);
    }

    method AddNum(num: nat, expires: nat) returns (contains: bool)
      requires Invariant() && ranges[0].min <= num
      modifies this
      ensures Invariant()
      ensures var a := CompactSpec.AddNum(n, old(ranges), num, expires); ranges == a.ranges && contains == a.contains
    {
      AddNumKeeps(n, ranges, num, expires);
      var target: nat;
      target, contains := AddNumRanges(num);
      var first := SearchExpired(expires);
      StampRanges(first, target, expires);
    }

    method CheckExpired(time: nat)
      requires Invariant()
      modifies this
      ensures Invariant() && ranges == CompactSpec.CheckExpired(old(ranges), time)
    {
      CheckExpiredExactly(n, ranges, time);
      var expired := SearchExpired(time);
      RotationIsCollapse(ranges, if expired == 0 then 1 else expired);
      var firstMin := ranges[0].min;
      if expired == 0 {
        return;
      }
      var lastMax := ranges[expired - 1].max;
      LongEnough(n, ranges, 0, expired - 1);
      var newRange := Full(n, firstMin, lastMax, At(0));
      var rotated := ranges[expired..] + ranges[..expired];
      ranges := [newRange] + rotated[..|ranges| - expired];
    }

    /** Was `num` seen before? Records it; with a time and a number divisible by four, expired ranges are collapsed. */
    method NumExists(num: nat, expires: nat, time: Option<nat>) returns (seen: bool)
      requires Invariant() && ranges[0].min <= num
      modifies this
      ensures Invariant() && ranges[0].min == old(ranges[0].min)
      ensures (ranges, seen) == CompactSpec.NumExists(n, old(ranges), Call(num, expires, time))
      ensures seen <==> Seen(old(ranges), num)
    {
      NumExistsExactly(n, ranges, Call(num, expires, time));
      seen := AddNum(num, expires);
      if time.Some? && num % 4 == 0 {
        CheckExpired(time.value);
      }
    }
  }
}
