/** One range of the compact set: up to N numbers kept as byte offsets, or "full". */
module CompactRange {
  import opened Common
  import opened FiniteSets

  datatype Expiry = At(at: nat) | Unknown

  /** `members` is None once every number from `min` to `max` counts as seen. */
  datatype Range = Range(members: Option<seq<byte>>, min: nat, max: nat, expires: Expiry)

  function NewRange(n: nat, min: nat): Range
    requires n > 0
  {
    Range(Some(seq(n, _ => 0)), min, min + n - 1, Unknown)
  }

  function FullRange(min: nat, max: nat, expires: Expiry): Range {
    Range(None, min, max, expires)
  }

  /** Number of entries before the first zero, the "unfilled" mark. */
  function FirstZero(m: seq<byte>): (c: nat)
    ensures c <= |m|
    ensures forall i :: 0 <= i < c ==> m[i] != 0
    ensures c < |m| ==> m[c] == 0
  {
    if m == [] || m[0] == 0 then 0 else 1 + FirstZero(m[1..])
  }

  ghost predicate MembersOk(n: nat, m: seq<byte>) {
    var c := FirstZero(m);
    && |m| == n && c < n
    && (forall i :: 0 <= i < c ==> m[i] <= n)
    && (forall i :: c <= i < n ==> m[i] == 0)
    && (forall i, j :: 0 <= i < j < c ==> m[i] != m[j])
  }

  ghost predicate RangeOk(n: nat, r: Range) {
    && 2 <= n < 256
    && r.max >= r.min + n - 1
    && (r.members.Some? ==> r.max == r.min + n - 1 && MembersOk(n, r.members.value))
  }

  /** `num` is recorded in `r`. */
  ghost predicate Has(r: Range, num: nat) {
    r.members.None? || (num >= r.min && exists i :: 0 <= i < |r.members.value| && r.members.value[i] == num - r.min + 1)
  }

  /** `(num - self.min + 1) as u8`. */
  function Small(r: Range, num: nat): byte
    requires num >= r.min
  {
    (num - r.min + 1) % 256
  }

  /** `Range::add_num`: None when the number is there already. */
  function RangeAdd(n: nat, r: Range, num: nat): Option<Range>
    requires num >= r.min
    requires r.members.Some? ==> FirstZero(r.members.value) < |r.members.value|
  {
    match r.members
    case None => None
    case Some(m) =>
      if Small(r, num) in m then None
      else
        var c := FirstZero(m);
        if c == n - 1 then Some(r.(members := None))
        else Some(r.(members := Some(m[c := Small(r, num)])))
  }

  lemma NewRangeOk(n: nat, min: nat)
    requires 2 <= n < 256
    ensures RangeOk(n, NewRange(n, min))
    ensures forall x :: NewRange(n, min).min <= x <= NewRange(n, min).max ==> !Has(NewRange(n, min), x)
  {
  }

  lemma FirstZeroIs(m: seq<byte>, c: nat)
    requires c <= |m| && (forall i :: 0 <= i < c ==> m[i] != 0) && (c < |m| ==> m[c] == 0)
    ensures FirstZero(m) == c
  {
  }

  /** The entries stay distinct, and the unfilled ones stay behind the others. */
  lemma EntryKeepsOk(n: nat, m: seq<byte>, v: byte)
    requires MembersOk(n, m) && FirstZero(m) < n - 1 && 0 < v <= n && v !in m
    ensures MembersOk(n, m[FirstZero(m) := v])
  {
    var c := FirstZero(m);
    var m' := m[c := v];
    FirstZeroIs(m', c + 1);
    forall i, j | 0 <= i < j < c + 1
      ensures m'[i] != m'[j]
    {
      if j == c {
        assert m[i] == m'[i] && m'[j] == v;
      }
    }
  }

  lemma EntryAdded(m: seq<byte>, c: nat, v: byte, w: byte)
    requires c < |m| && m[c] == 0 && w != 0
    ensures w in m[c := v] <==> w in m || w == v
  {
    var m' := m[c := v];
    assert m'[c] == v;
    if w in m {
      var i :| 0 <= i < |m| && m[i] == w;
      assert m'[i] == w;
    }
  }

  lemma HasIsEntry(n: nat, r: Range, x: nat)
    requires 2 <= n < 256 && r.members.Some? && r.min <= x < r.min + n
    ensures Small(r, x) == x - r.min + 1 && (Has(r, x) <==> Small(r, x) in r.members.value)
  {
  }

  /** Adding to a range with space left records the number and nothing else. */
  lemma AddWithSpace(n: nat, r: Range, num: nat)
    requires RangeOk(n, r) && r.min <= num <= r.max && r.members.Some? && !Has(r, num)
    requires FirstZero(r.members.value) < n - 1
    ensures var r' := r.(members := Some(r.members.value[FirstZero(r.members.value) := Small(r, num)]));
      && RangeOk(n, r')
      && forall x :: r.min <= x <= r.max ==> (Has(r', x) <==> Has(r, x) || x == num)
  {
    var m := r.members.value;
    var c := FirstZero(m);
    var v := Small(r, num);
    HasIsEntry(n, r, num);
    EntryKeepsOk(n, m, v);
    var r' := r.(members := Some(m[c := v]));
    forall x | r.min <= x <= r.max
      ensures Has(r', x) <==> Has(r, x) || x == num
    {
      HasIsEntry(n, r, x);
      HasIsEntry(n, r', x);
      EntryAdded(m, c, v, Small(r, x));
    }
  }

  /** The last free entry: N-1 distinct entries and one more are all N numbers, so "full" records nothing else either. */
  lemma LastEntryFills(n: nat, r: Range, num: nat, x: nat)
    requires RangeOk(n, r) && r.min <= num <= r.max && r.members.Some? && !Has(r, num)
    requires FirstZero(r.members.value) == n - 1 && r.min <= x <= r.max
    ensures Has(r, x) || x == num
  {
    var m := r.members.value;
    var offs := seq(n, i requires 0 <= i < n => if i < n - 1 then m[i] as nat - 1 else num - r.min);
    forall i, j | 0 <= i < j < |offs|
      ensures offs[i] != offs[j]
    {
      if j == n - 1 {
        assert m[i] != num - r.min + 1;
      }
    }
    DistinctBelowIsAll(offs, x - r.min);
    var i :| 0 <= i < n && offs[i] == x - r.min;
    if i < n - 1 {
      assert m[i] == x - r.min + 1;
    }
  }

  lemma RangeAddExact(n: nat, r: Range, num: nat)
    requires RangeOk(n, r) && r.min <= num <= r.max
    ensures var a := RangeAdd(n, r, num);
      && (a.None? <==> Has(r, num))
      && (a.Some? ==>
            && RangeOk(n, a.value)
            && a.value.min == r.min && a.value.max == r.max && a.value.expires == r.expires
            && forall x :: r.min <= x <= r.max ==> (Has(a.value, x) <==> Has(r, x) || x == num))
  {
    if r.members.Some? {
      var m := r.members.value;
      assert Small(r, num) == num - r.min + 1;
      assert Has(r, num) <==> Small(r, num) in m;
      if !Has(r, num) {
        if FirstZero(m) == n - 1 {
          forall x | r.min <= x <= r.max
            ensures Has(r, x) || x == num
          {
            LastEntryFills(n, r, num, x);
          }
        } else {
          AddWithSpace(n, r, num);
        }
      }
    }
  }
}
