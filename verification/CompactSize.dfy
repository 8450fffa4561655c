/**
 * The compact set stays compact: in every run two full ranges are neighbours only at the front, where an expiry collapse
 * puts a full range before one that may be full already.
 */
module CompactSize {
  import opened CompactRange
  import opened CompactSpec
  import opened CompactRuns

  ghost predicate FullPair(rs: seq<Range>, i: int) {
    FullAt(rs, i) && FullAt(rs, i + 1)
  }

  /** No two full neighbours, except the first two ranges. */
  ghost predicate TailCompact(rs: seq<Range>) {
    forall i :: 1 <= i ==> !FullPair(rs, i)
  }

  lemma {:induction false} GrowCompact(n: nat, rs: seq<Range>, num: nat)
    requires n >= 2 && |rs| > 0 && TailCompact(rs)
    ensures TailCompact(Grow(n, 0, rs, num))
    decreases if num > LastMax(rs) then num - LastMax(rs) else 0
  {
    if num > LastMax(rs) {
      var next := rs + [NewRange(n, LastMax(rs))];
      forall i | 1 <= i
        ensures !FullPair(next, i)
      {
        assert !FullPair(rs, i);
      }
      GrowCompact(n, next, num);
    }
  }

  /** Which pair of the ranges before a pair after the collapse comes from. */
  lemma CollapsePairs(rs: seq<Range>, a: nat, b: nat, e: Expiry, i: nat)
    requires a <= b < |rs|
    ensures FullPair(Collapse(rs, a, b, e), i) ==>
      && (i + 1 < a ==> FullPair(rs, i)) && (i + 1 == a ==> FullAt(rs, a - 1))
      && (i == a ==> FullAt(rs, b + 1)) && (i > a ==> FullPair(rs, i + (b - a)))
  {
    CollapseIndex(rs, a, b, e);
  }

  /** The merge joins the new full range with all the full neighbours it has. */
  lemma MergeCompacts(rs: seq<Range>, t: nat)
    requires FullAt(rs, t) && forall i :: 1 <= i && i != t && i + 1 != t ==> !FullPair(rs, i)
    ensures TailCompact(Merge(rs, t).0)
  {
    var a := if FullAt(rs, t - 1) then t - 1 else t;
    var b := if FullAt(rs, t + 1) then t + 1 else t;
    forall i: int | 1 <= i
      ensures !FullPair(Merge(rs, t).0, i)
    {
      CollapsePairs(rs, a, b, rs[a].expires, i);
      assert b == t || !FullPair(rs, b);
      assert i + 1 != a || a == t || !FullPair(rs, i);
    }
  }

  lemma AddCompact(n: nat, rs: seq<Range>, num: nat)
    requires Addable(n, rs, num) && TailCompact(rs)
    ensures TailCompact(AddNumRanges(n, rs, num).ranges)
  {
    if num > LastMax(rs) {
      GrowCompact(n, rs, num);
    } else {
      LocateSlot(rs, num);
      var t := Locate(rs, num);
      RangeAddExact(n, rs[t], num);
      match RangeAdd(n, rs[t], num) {
        case None =>
        case Some(r) =>
          var u := rs[t := r];
          forall i | 1 <= i
            ensures FullPair(u, i) ==> r.members.None? && (i == t || i + 1 == t)
          {
            assert !FullPair(rs, i);
          }
          if r.members.None? {
            MergeCompacts(u, t);
          }
      }
    }
  }

  lemma StampCompact(rs: seq<Range>, lo: nat, hi: nat, at: nat)
    requires TailCompact(rs)
    ensures TailCompact(Stamp(rs, lo, hi, at))
  {
    forall i | 1 <= i
      ensures !FullPair(Stamp(rs, lo, hi, at), i)
    {
      assert !FullPair(rs, i);
    }
  }

  lemma SweepCompact(rs: seq<Range>, time: nat)
    requires TailCompact(rs)
    ensures TailCompact(CheckExpired(rs, time))
  {
    var c := ExpiredCount(rs, time);
    if c > 0 {
      forall i: int | 1 <= i
        ensures !FullPair(CheckExpired(rs, time), i)
      {
        CollapsePairs(rs, 0, c - 1, At(0), i);
        assert !FullPair(rs, i + (c - 1));
      }
    }
  }

  lemma CallCompact(n: nat, rs: seq<Range>, c: Call)
    requires Addable(n, rs, c.num) && TailCompact(rs)
    ensures TailCompact(NumExists(n, rs, c).0)
  {
    AddCompact(n, rs, c.num);
    var b := AddNumRanges(n, rs, c.num);
    StampCompact(b.ranges, ExpiredCount(b.ranges, c.expires), b.target, c.expires);
    if Checks(c) {
      SweepCompact(AddNum(n, rs, c.num, c.expires).ranges, c.time.value);
    }
  }

  lemma {:induction false} RunCompact(n: nat, calls: seq<Call>)
    requires 2 <= n < 256 && CallsOk(1, calls)
    ensures TailCompact(After(n, Fresh(n), calls))
    decreases |calls|
  {
    if calls != [] {
      var init := calls[..|calls| - 1];
      RunCompact(n, init);
      CallCompact(n, After(n, Fresh(n), init), calls[|calls| - 1]);
    }
  }

  /** Number of ranges that still have members. */
  ghost function Partial(rs: seq<Range>): nat {
    if rs == [] then 0 else (if rs[|rs| - 1].members.Some? then 1 else 0) + Partial(rs[..|rs| - 1])
  }

  lemma {:induction false} SizeByPartial(rs: seq<Range>)
    requires TailCompact(rs)
    ensures |rs| <= 2 * Partial(rs) + 2
    ensures |rs| > 2 && rs[|rs| - 1].members.Some? ==> |rs| <= 2 * Partial(rs) + 1
    decreases |rs|
  {
    if |rs| > 2 {
      var init := rs[..|rs| - 1];
      forall i | 1 <= i
        ensures !FullPair(init, i)
      {
        assert !FullPair(rs, i);
      }
      SizeByPartial(init);
      assert !FullPair(rs, |rs| - 2);
    }
  }

  /** In every run of a new set there are at most two ranges more than twice those that are still filling up. */
  lemma SizeIsBounded(n: nat, calls: seq<Call>)
    requires 2 <= n < 256 && CallsOk(1, calls)
    ensures TailCompact(After(n, Fresh(n), calls))
    ensures |After(n, Fresh(n), calls)| <= 2 * Partial(After(n, Fresh(n), calls)) + 2
  {
    RunCompact(n, calls);
    SizeByPartial(After(n, Fresh(n), calls));
  }
}
