/**
 * The compact "already seen" set as a value: a deque of ranges, what each call does to it, and which numbers it
 * stands for before and after.
 */
module CompactSpec {
  import opened Common
  import opened CompactRange

  // ---- the represented set ----

  /** `x` belongs to range `t`: the last one whose min is not above it. */
  ghost predicate InSlot(rs: seq<Range>, t: int, x: nat) {
    && 0 <= t < |rs| && rs[t].min <= x
    && (t + 1 < |rs| ==> x < rs[t + 1].min)
  }

  ghost predicate SeenAt(rs: seq<Range>, t: int, x: nat)
    requires 0 <= t < |rs|
  {
    x <= rs[t].max && Has(rs[t], x)
  }

  /** `x` is in the set that the ranges represent. */
  ghost predicate Seen(rs: seq<Range>, x: nat) {
    exists t :: InSlot(rs, t, x) && SeenAt(rs, t, x)
  }

  /** Ranges are in order and leave no gap; neighbours share at most their boundary number. */
  ghost predicate Ordered(rs: seq<Range>) {
    && (forall i :: 0 <= i < |rs| ==> rs[i].min < rs[i].max)
    && (forall i, j :: 0 <= i < j < |rs| ==> rs[i].max <= rs[j].min)
    && (forall i :: 0 < i < |rs| ==> rs[i].min <= rs[i - 1].max + 1)
  }

  ghost predicate AllOk(n: nat, rs: seq<Range>) {
    forall i :: 0 <= i < |rs| ==> RangeOk(n, rs[i])
  }

  ghost predicate WellFormed(n: nat, rs: seq<Range>) {
    2 <= n < 256 && |rs| > 0 && AllOk(n, rs) && Ordered(rs)
  }

  predicate ExpLe(a: Expiry, b: Expiry) {
    b.Unknown? || (a.At? && a.at <= b.at)
  }

  /** Expiry stamps never decrease along the deque, and unknown ones come last: binary search by expiry is sound. */
  ghost predicate ExpirySorted(rs: seq<Range>) {
    forall i, j :: 0 <= i < j < |rs| ==> ExpLe(rs[i].expires, rs[j].expires)
  }

  ghost predicate Valid(n: nat, rs: seq<Range>) {
    WellFormed(n, rs) && ExpirySorted(rs)
  }

  function LastMax(rs: seq<Range>): nat
    requires |rs| > 0
  {
    rs[|rs| - 1].max
  }

  // ---- the operations ----

  /** Index of the last range whose min is not above `num`. */
  function Locate(rs: seq<Range>, num: nat): (t: nat)
    requires |rs| > 0
    ensures t < |rs|
  {
    if |rs| == 1 || rs[|rs| - 1].min <= num then |rs| - 1 else Locate(rs[..|rs| - 1], num)
  }

  /**
   * New ranges at the end until one reaches `num`. The code starts each one at the max of the one before (`gap` 0);
   * the repaired form starts right after it (`gap` 1).
   */
  function Grow(n: nat, gap: nat, rs: seq<Range>, num: nat): seq<Range>
    requires n >= 2 && |rs| > 0
    decreases if num > LastMax(rs) then num - LastMax(rs) else 0
  {
    if num > LastMax(rs) then Grow(n, gap, rs + [NewRange(n, LastMax(rs) + gap)], num) else rs
  }

  /** Ranges `a` to `b` replaced by one full range over all of them. */
  function Collapse(rs: seq<Range>, a: nat, b: nat, expires: Expiry): seq<Range>
    requires a <= b < |rs|
  {
    rs[..a] + [FullRange(rs[a].min, rs[b].max, expires)] + rs[b + 1..]
  }

  predicate FullAt(rs: seq<Range>, i: int) {
    0 <= i < |rs| && rs[i].members.None?
  }

  /** A freshly filled range joins the full neighbours it has; the earliest range keeps its expiry. */
  function Merge(rs: seq<Range>, t: nat): (seq<Range>, nat)
    requires t < |rs|
  {
    var a := if FullAt(rs, t - 1) then t - 1 else t;
    var b := if FullAt(rs, t + 1) then t + 1 else t;
    if a == b then (rs, t) else (Collapse(rs, a, b, rs[a].expires), a)
  }

  datatype Added = Added(ranges: seq<Range>, target: nat, contains: bool)

  ghost predicate Addable(n: nat, rs: seq<Range>, num: nat) {
    Valid(n, rs) && rs[0].min <= num
  }

  /** `add_num_ranges`. The growing branch does not record the number. */
  ghost function AddNumRanges(n: nat, rs: seq<Range>, num: nat): Added
    requires Addable(n, rs, num)
  {
    LocateSlot(rs, num);
    if num > LastMax(rs) then
      GrowKeeps(n, 0, rs, num);
      var g := Grow(n, 0, rs, num);
      Added(g, |g| - 1, false)
    else
      var t := Locate(rs, num);
      match RangeAdd(n, rs[t], num)
      case None => Added(rs, t, true)
      case Some(r) =>
        var updated := rs[t := r];
        if r.members.Some? then Added(updated, t, false)
        else
          var (merged, t') := Merge(updated, t);
          Added(merged, t', false)
  }

  /** Number of leading ranges that have expired at `time`. */
  function ExpiredCount(rs: seq<Range>, time: nat): (c: nat)
    ensures c <= |rs|
  {
    if rs == [] then 0
    else
      var last := rs[|rs| - 1].expires;
      if last.At? && last.at <= time then |rs| else ExpiredCount(rs[..|rs| - 1], time)
  }

  /** Ranges from `lo` up to `hi` stamped with an expiry. */
  function Stamp(rs: seq<Range>, lo: nat, hi: nat, at: nat): (r: seq<Range>)
    ensures |r| == |rs|
    ensures forall i :: 0 <= i < |rs| ==> r[i] == if lo <= i < hi then rs[i].(expires := At(at)) else rs[i]
  {
    seq(|rs|, i requires 0 <= i < |rs| => if lo <= i < hi then rs[i].(expires := At(at)) else rs[i])
  }

  ghost function AddNum(n: nat, rs: seq<Range>, num: nat, expires: nat): Added
    requires Addable(n, rs, num)
  {
    var a := AddNumRanges(n, rs, num);
    Added(Stamp(a.ranges, ExpiredCount(a.ranges, expires), a.target, expires), a.target, a.contains)
  }

  /** Every expired range, and all of them together, become one full range. */
  function CheckExpired(rs: seq<Range>, time: nat): seq<Range> {
    var c := ExpiredCount(rs, time);
    if c == 0 then rs else Collapse(rs, 0, c - 1, At(0))
  }

  datatype Call = Call(num: nat, expires: nat, time: Option<nat>)

  predicate Checks(c: Call) {
    c.time.Some? && c.num % 4 == 0
  }

  /** `num_exists`: the ranges afterwards and the answer. */
  ghost function NumExists(n: nat, rs: seq<Range>, c: Call): (seq<Range>, bool)
    requires Addable(n, rs, c.num)
  {
    var a := AddNum(n, rs, c.num, c.expires);
    (if Checks(c) then CheckExpired(a.ranges, c.time.value) else a.ranges, a.contains)
  }

  // ---- where a number belongs ----

  lemma MinMono(rs: seq<Range>, i: int, j: int)
    requires Ordered(rs)
    ensures 0 <= i <= j < |rs| ==> rs[i].min <= rs[j].min && rs[i].max <= rs[j].max
  {
  }

  lemma {:induction false} LocateInSlot(rs: seq<Range>, x: nat)
    requires |rs| > 0 && rs[0].min <= x
    ensures InSlot(rs, Locate(rs, x), x)
    decreases |rs|
  {
    if |rs| > 1 && rs[|rs| - 1].min > x {
      var init := rs[..|rs| - 1];
      LocateInSlot(init, x);
      assert init[0] == rs[0];
    }
  }

  lemma LocateSlot(rs: seq<Range>, x: nat)
    requires |rs| > 0 && Ordered(rs) && rs[0].min <= x
    ensures InSlot(rs, Locate(rs, x), x)
    ensures x <= LastMax(rs) ==> x <= rs[Locate(rs, x)].max
  {
    LocateInSlot(rs, x);
    var t := Locate(rs, x);
    if t + 1 < |rs| {
      assert rs[t + 1].min <= rs[t].max + 1;
    }
  }

  lemma SlotUnique(rs: seq<Range>, s: int, t: int, x: nat)
    requires Ordered(rs) && InSlot(rs, s, x) && InSlot(rs, t, x)
    ensures s == t
  {
    MinMono(rs, s + 1, t);
    MinMono(rs, t + 1, s);
  }

  /** Membership is decided by the slot a number belongs to. */
  lemma SeenInSlot(rs: seq<Range>, t: int, x: nat)
    requires Ordered(rs) && InSlot(rs, t, x)
    ensures Seen(rs, x) <==> SeenAt(rs, t, x)
  {
    if Seen(rs, x) {
      var s :| InSlot(rs, s, x) && SeenAt(rs, s, x);
      SlotUnique(rs, s, t, x);
    }
  }

  lemma SeenBounds(rs: seq<Range>, x: nat)
    requires |rs| > 0 && Ordered(rs)
    ensures Seen(rs, x) ==> rs[0].min <= x <= LastMax(rs)
  {
    if Seen(rs, x) {
      var t :| InSlot(rs, t, x) && SeenAt(rs, t, x);
      MinMono(rs, 0, t);
      MinMono(rs, t, |rs| - 1);
    }
  }

  // ---- growing ----

  lemma {:induction false} GrowShape(n: nat, gap: nat, rs: seq<Range>, num: nat)
    requires Valid(n, rs) && gap <= 1
    ensures var g := Grow(n, gap, rs, num);
      Valid(n, g) && |g| >= |rs| && g[0].min == rs[0].min && num <= LastMax(g)
    decreases if num > LastMax(rs) then num - LastMax(rs) else 0
  {
    if num > LastMax(rs) {
      var m := LastMax(rs) + gap;
      GrowOnce(n, rs, m);
      GrowShape(n, gap, rs + [NewRange(n, m)], num);
    }
  }

  /** The last of the new ranges is the one that `num` belongs to. */
  lemma {:induction false} GrowLast(n: nat, gap: nat, rs: seq<Range>, num: nat)
    requires 2 <= n < 256 && |rs| > 0 && gap <= 1 && num > LastMax(rs)
    ensures var g := Grow(n, gap, rs, num);
      |g| > 0 && var last := g[|g| - 1];
      last.min < num + gap && num <= last.max && last == NewRange(n, last.min)
    decreases num - LastMax(rs)
  {
    var next := rs + [NewRange(n, LastMax(rs) + gap)];
    assert next[|next| - 1] == NewRange(n, LastMax(rs) + gap);
    if num > LastMax(next) {
      GrowLast(n, gap, next, num);
    }
  }

  lemma {:induction false} GrowSeen(n: nat, gap: nat, rs: seq<Range>, num: nat, x: nat)
    requires Valid(n, rs) && gap <= 1
    ensures Seen(Grow(n, gap, rs, num), x) <==> Seen(rs, x) && (num <= LastMax(rs) || x < LastMax(rs) + gap)
    decreases if num > LastMax(rs) then num - LastMax(rs) else 0
  {
    if num > LastMax(rs) {
      var m := LastMax(rs) + gap;
      GrowOnce(n, rs, m);
      GrowSeen(n, gap, rs + [NewRange(n, m)], num, x);
    }
  }

  /** Growing records nothing, and with `gap` 0 forgets the shared boundary number if that was recorded. */
  lemma GrowKeeps(n: nat, gap: nat, rs: seq<Range>, num: nat)
    requires Valid(n, rs) && gap <= 1
    ensures var g := Grow(n, gap, rs, num);
      && Valid(n, g) && |g| >= |rs| && g[0].min == rs[0].min
      && num <= LastMax(g)
      && LastMax(g) <= (if num > LastMax(rs) then num + n - 2 + gap else LastMax(rs))
      && (num > LastMax(rs) ==> g[|g| - 1].expires.Unknown? && g[|g| - 1].min < num + gap && !Has(g[|g| - 1], num))
      && (forall x: nat :: Seen(g, x) <==> Seen(rs, x) && (num <= LastMax(rs) || x < LastMax(rs) + gap))
  {
    GrowShape(n, gap, rs, num);
    if num > LastMax(rs) {
      GrowLast(n, gap, rs, num);
      var g := Grow(n, gap, rs, num);
      NewRangeOk(n, g[|g| - 1].min);
    }
    forall x: nat
      ensures Seen(Grow(n, gap, rs, num), x) <==> Seen(rs, x) && (num <= LastMax(rs) || x < LastMax(rs) + gap)
    {
      GrowSeen(n, gap, rs, num, x);
    }
  }

  lemma OrderedAppend(rs: seq<Range>, r: Range)
    requires |rs| > 0 && Ordered(rs) && r.min < r.max && LastMax(rs) <= r.min <= LastMax(rs) + 1
    ensures Ordered(rs + [r])
  {
    var g := rs + [r];
    forall i, j | 0 <= i < j < |g|
      ensures g[i].max <= g[j].min
    {
      MinMono(rs, i, |rs| - 1);
    }
  }

  lemma GrowOnceOrdered(n: nat, rs: seq<Range>, m: nat)
    requires 2 <= n < 256 && |rs| > 0 && Ordered(rs) && LastMax(rs) <= m <= LastMax(rs) + 1
    ensures Ordered(rs + [NewRange(n, m)])
  {
    OrderedAppend(rs, NewRange(n, m));
  }

  lemma GrowOnce(n: nat, rs: seq<Range>, m: nat)
    requires Valid(n, rs) && LastMax(rs) <= m <= LastMax(rs) + 1
    ensures var g := rs + [NewRange(n, m)];
      && Valid(n, g)
      && forall x: nat :: Seen(g, x) <==> Seen(rs, x) && x < m
  {
    assert RangeOk(n, rs[0]);
    NewRangeOk(n, m);
    GrowOnceOrdered(n, rs, m);
    forall x: nat
      ensures Seen(rs + [NewRange(n, m)], x) <==> Seen(rs, x) && x < m
    {
      GrowOnceSeen(n, rs, m, x);
    }
  }

  lemma GrowOnceSeen(n: nat, rs: seq<Range>, m: nat, x: nat)
    requires 2 <= n < 256 && |rs| > 0 && Ordered(rs) && LastMax(rs) <= m <= LastMax(rs) + 1
    ensures Seen(rs + [NewRange(n, m)], x) <==> Seen(rs, x) && x < m
  {
    var g := rs + [NewRange(n, m)];
    GrowOnceOrdered(n, rs, m);
    NewRangeOk(n, m);
    SeenBounds(g, x);
    SeenBounds(rs, x);
    if x >= rs[0].min {
      LocateInSlot(g, x);
      var t := Locate(g, x);
      SeenInSlot(g, t, x);
      if t < |rs| {
        assert InSlot(rs, t, x);
        SeenInSlot(rs, t, x);
      }
    }
  }

  // ---- collapsing a run of ranges ----

  lemma CollapseIndex(rs: seq<Range>, a: nat, b: nat, e: Expiry)
    requires a <= b < |rs|
    ensures var c := Collapse(rs, a, b, e);
      && |c| == |rs| - (b - a)
      && c[a] == FullRange(rs[a].min, rs[b].max, e)
      && (forall i :: 0 <= i < a ==> c[i] == rs[i])
      && (forall i :: a < i < |c| ==> c[i] == rs[i + (b - a)])
  {
  }

  lemma CollapsePair(rs: seq<Range>, a: nat, b: nat, e: Expiry, i: nat, j: nat)
    requires Ordered(rs) && a <= b < |rs| && i < j < |rs| - (b - a)
    ensures var c := Collapse(rs, a, b, e); |c| == |rs| - (b - a) && c[i].max <= c[j].min
  {
    CollapseIndex(rs, a, b, e);
    MinMono(rs, a, b);
    var i' := if i < a then i else i + (b - a);
    var j' := if j <= a then j else j + (b - a);
    assert rs[i'].max <= rs[j'].min;
  }

  lemma CollapseNeighbours(rs: seq<Range>, a: nat, b: nat, e: Expiry, i: nat)
    requires Ordered(rs) && a <= b < |rs| && 0 < i < |rs| - (b - a)
    ensures var c := Collapse(rs, a, b, e); |c| == |rs| - (b - a) && c[i].min <= c[i - 1].max + 1
  {
    CollapseIndex(rs, a, b, e);
    var i' := if i <= a then i else i + (b - a);
    assert rs[i'].min <= rs[i' - 1].max + 1;
  }

  lemma CollapseOrdered(rs: seq<Range>, a: nat, b: nat, e: Expiry)
    requires Ordered(rs) && a <= b < |rs|
    ensures Ordered(Collapse(rs, a, b, e))
    ensures Collapse(rs, a, b, e)[0].min == rs[0].min
    ensures LastMax(Collapse(rs, a, b, e)) == LastMax(rs)
  {
    var c := Collapse(rs, a, b, e);
    CollapseIndex(rs, a, b, e);
    forall i: nat, j: nat | i < j < |c|
      ensures c[i].max <= c[j].min
    {
      CollapsePair(rs, a, b, e, i, j);
    }
    forall i: nat | 0 < i < |c|
      ensures c[i].min <= c[i - 1].max + 1
    {
      CollapseNeighbours(rs, a, b, e, i);
    }
  }

  lemma CollapseKeeps(n: nat, rs: seq<Range>, a: nat, b: nat, e: Expiry)
    requires WellFormed(n, rs) && a <= b < |rs|
    ensures WellFormed(n, Collapse(rs, a, b, e))
  {
    CollapseIndex(rs, a, b, e);
    CollapseOrdered(rs, a, b, e);
    MinMono(rs, a, b);
    assert RangeOk(n, rs[b]) && RangeOk(n, rs[a]);
  }

  lemma CollapseSlot(rs: seq<Range>, a: nat, b: nat, e: Expiry, s: int, x: nat)
    requires Ordered(rs) && a <= b < |rs| && InSlot(rs, s, x)
    ensures InSlot(Collapse(rs, a, b, e), if s < a then s else if s <= b then a else s - (b - a), x)
  {
    CollapseIndex(rs, a, b, e);
    MinMono(rs, a, s);
    MinMono(rs, s + 1, b + 1);
  }

  lemma CollapseSeenAt(rs: seq<Range>, a: nat, b: nat, e: Expiry, s: int, x: nat)
    requires Ordered(rs) && a <= b < |rs| && InSlot(rs, s, x)
    ensures var c, t := Collapse(rs, a, b, e), if s < a then s else if s <= b then a else s - (b - a);
      t < |c| && (SeenAt(c, t, x) <==> SeenAt(rs, s, x) || (a <= s <= b && x <= rs[s].max))
  {
    CollapseIndex(rs, a, b, e);
    if a <= s < b {
      assert rs[s + 1].min <= rs[s].max + 1;
      MinMono(rs, s, b);
    }
  }

  /** The slot of every number outside the run is unchanged; the run becomes one slot, all of it seen. */
  lemma CollapseSeen(rs: seq<Range>, a: nat, b: nat, e: Expiry, s: int, x: nat)
    requires Ordered(rs) && a <= b < |rs| && InSlot(rs, s, x)
    ensures Seen(Collapse(rs, a, b, e), x) <==> Seen(rs, x) || (a <= s <= b && x <= rs[s].max)
  {
    CollapseOrdered(rs, a, b, e);
    CollapseSlot(rs, a, b, e, s, x);
    CollapseSeenAt(rs, a, b, e, s, x);
    SeenInSlot(rs, s, x);
    SeenInSlot(Collapse(rs, a, b, e), if s < a then s else if s <= b then a else s - (b - a), x);
  }

  lemma CollapseSortedExpiry(rs: seq<Range>, a: nat, b: nat, e: Expiry)
    requires ExpirySorted(rs) && a <= b < |rs|
    requires forall i :: 0 <= i < a ==> ExpLe(rs[i].expires, e)
    requires forall i :: b < i < |rs| ==> ExpLe(e, rs[i].expires)
    ensures ExpirySorted(Collapse(rs, a, b, e))
  {
    CollapseIndex(rs, a, b, e);
  }

  // ---- recording one number ----

  lemma ReplaceKeeps(n: nat, rs: seq<Range>, t: nat, r: Range)
    requires Valid(n, rs) && t < |rs| && RangeOk(n, r)
    requires r.min == rs[t].min && r.max == rs[t].max && r.expires == rs[t].expires
    ensures Valid(n, rs[t := r])
  {
  }

  lemma ReplaceSeen(rs: seq<Range>, t: int, r: Range, num: nat, x: nat)
    requires Ordered(rs) && InSlot(rs, t, num) && num <= rs[t].max && Ordered(rs[t := r])
    requires r.min == rs[t].min && r.max == rs[t].max
    requires forall y: nat :: r.min <= y <= r.max ==> (Has(r, y) <==> Has(rs[t], y) || y == num)
    ensures Seen(rs[t := r], x) <==> Seen(rs, x) || x == num
  {
    var u := rs[t := r];
    SeenBounds(u, x);
    SeenBounds(rs, x);
    MinMono(rs, 0, t);
    if x >= rs[0].min {
      LocateInSlot(rs, x);
      var s := Locate(rs, x);
      assert InSlot(u, s, x);
      SeenInSlot(rs, s, x);
      SeenInSlot(u, s, x);
      if x == num {
        SlotUnique(rs, s, t, x);
      }
    }
  }

  lemma MergeKeeps(n: nat, rs: seq<Range>, t: nat)
    requires Valid(n, rs) && FullAt(rs, t)
    ensures var (m, t') := Merge(rs, t);
      && Valid(n, m) && t' < |m| && m[0].min == rs[0].min && LastMax(m) == LastMax(rs)
      && m[t'].min <= rs[t].min
  {
    var a := if FullAt(rs, t - 1) then t - 1 else t;
    var b := if FullAt(rs, t + 1) then t + 1 else t;
    if a < b {
      CollapseKeeps(n, rs, a, b, rs[a].expires);
      CollapseOrdered(rs, a, b, rs[a].expires);
      CollapseSortedExpiry(rs, a, b, rs[a].expires);
      MinMono(rs, a, t);
    }
  }

  /** Collapsing ranges that are all full changes nothing in the represented set. */
  lemma CollapseFullSeen(rs: seq<Range>, a: nat, b: nat, e: Expiry, x: nat)
    requires Ordered(rs) && a <= b < |rs| && forall i :: a <= i <= b ==> FullAt(rs, i)
    ensures Seen(Collapse(rs, a, b, e), x) <==> Seen(rs, x)
  {
    CollapseOrdered(rs, a, b, e);
    SeenBounds(Collapse(rs, a, b, e), x);
    SeenBounds(rs, x);
    if x >= rs[0].min {
      LocateInSlot(rs, x);
      var s := Locate(rs, x);
      CollapseSeen(rs, a, b, e, s, x);
      SeenInSlot(rs, s, x);
      if a <= s <= b {
        assert FullAt(rs, s);
      }
    }
  }

  /** All three merge shapes leave the represented set alone. */
  lemma MergeSeen(rs: seq<Range>, t: nat, x: nat)
    requires Ordered(rs) && FullAt(rs, t)
    ensures Seen(Merge(rs, t).0, x) <==> Seen(rs, x)
  {
    var a := if FullAt(rs, t - 1) then t - 1 else t;
    var b := if FullAt(rs, t + 1) then t + 1 else t;
    if a < b {
      CollapseFullSeen(rs, a, b, rs[a].expires, x);
    }
  }

  /** The range that comes out reaches from the full neighbour on the left, whose expiry it has, to the one on the right. */
  lemma MergedRange(rs: seq<Range>, t: nat)
    requires FullAt(rs, t)
    ensures var (m, t') := Merge(rs, t); var left, right := FullAt(rs, t - 1), FullAt(rs, t + 1);
      && |m| == |rs| - (if left then 1 else 0) - (if right then 1 else 0)
      && t' == (if left then t - 1 else t) && t' < |m|
      && m[t'] == Range(None, if left then rs[t - 1].min else rs[t].min, if right then rs[t + 1].max else rs[t].max,
                        if left then rs[t - 1].expires else rs[t].expires)
  {
  }

  lemma MergeExactly(n: nat, rs: seq<Range>, t: nat)
    requires Valid(n, rs) && FullAt(rs, t)
    ensures var (m, t') := Merge(rs, t);
      && Valid(n, m) && t' < |m| && m[0].min == rs[0].min && LastMax(m) == LastMax(rs)
      && m[t'].min <= rs[t].min
      && forall x: nat :: Seen(m, x) <==> Seen(rs, x)
  {
    MergeKeeps(n, rs, t);
    forall x: nat
      ensures Seen(Merge(rs, t).0, x) <==> Seen(rs, x)
    {
      MergeSeen(rs, t, x);
    }
  }

  lemma ReplaceExactly(n: nat, rs: seq<Range>, t: nat, r: Range, num: nat)
    requires Valid(n, rs) && InSlot(rs, t, num) && num <= rs[t].max && RangeOk(n, r)
    requires r.min == rs[t].min && r.max == rs[t].max && r.expires == rs[t].expires
    requires forall y: nat :: r.min <= y <= r.max ==> (Has(r, y) <==> Has(rs[t], y) || y == num)
    ensures var u := rs[t := r];
      && Valid(n, u) && u[0].min == rs[0].min && LastMax(u) == LastMax(rs)
      && forall x: nat :: Seen(u, x) <==> Seen(rs, x) || x == num
  {
    ReplaceKeeps(n, rs, t, r);
    forall x: nat
      ensures Seen(rs[t := r], x) <==> Seen(rs, x) || x == num
    {
      ReplaceSeen(rs, t, r, num, x);
    }
  }

  /**
   * A call that lands in an existing range: the answer is membership, and the represented set grows by exactly that
   * number, whether it fills a gap, fills the range up, or sets off any of the three merges.
   */
  lemma AddLandsExactly(n: nat, rs: seq<Range>, num: nat)
    requires Addable(n, rs, num) && num <= LastMax(rs)
    ensures var a := AddNumRanges(n, rs, num);
      && Valid(n, a.ranges) && a.target < |a.ranges|
      && a.ranges[0].min == rs[0].min && LastMax(a.ranges) == LastMax(rs)
      && a.ranges[a.target].min <= num
      && (a.contains <==> Seen(rs, num))
      && (forall x: nat :: Seen(a.ranges, x) <==> Seen(rs, x) || x == num)
  {
    LocateSlot(rs, num);
    var t := Locate(rs, num);
    SeenInSlot(rs, t, num);
    RangeAddExact(n, rs[t], num);
    match RangeAdd(n, rs[t], num) {
      case None =>
      case Some(r) =>
        ReplaceExactly(n, rs, t, r, num);
        if r.members.None? {
          MergeExactly(n, rs[t := r], t);
        }
    }
  }

  /** A call past the last range: it answers "not seen", records nothing, and loses the old upper boundary. */
  lemma AddGrowsExactly(n: nat, rs: seq<Range>, num: nat)
    requires Addable(n, rs, num) && num > LastMax(rs)
    ensures var a := AddNumRanges(n, rs, num);
      && Valid(n, a.ranges) && a.target == |a.ranges| - 1
      && a.ranges[0].min == rs[0].min && num <= LastMax(a.ranges) <= num + n - 2
      && a.ranges[a.target].min < num && a.ranges[a.target].expires.Unknown?
      && !a.contains && !Seen(a.ranges, num)
      && (forall x: nat :: Seen(a.ranges, x) <==> Seen(rs, x) && x != LastMax(rs))
  {
    GrowKeeps(n, 0, rs, num);
    SeenBounds(rs, num);
  }
}
