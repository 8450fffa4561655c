/** Saving and restoring the compact set. Every failed read in here is an `unwrap`, so none stands for a panic. */
module SavedSet {
  import opened Common
  import opened MessagePack
  import opened CompactRange
  import opened CompactSpec

  const WITH_MEMBERS: byte := 244
  const FULL: byte := 133
  const EXPIRES_AT: byte := 66
  const EXPIRES_UNKNOWN: byte := 55

  ghost predicate RangeStorable(n: nat, r: Range) {
    && n < 256 && (r.members.Some? ==> |r.members.value| == n)
    && r.min < U64 && r.max < U64 && (r.expires.At? ==> r.expires.at < U64)
  }

  ghost function ExpiryThen(e: Expiry, rest: Bytes): Bytes {
    match e
    case At(t) => WriteBin([EXPIRES_AT]) + (WriteU64(t) + rest)
    case Unknown => WriteBin([EXPIRES_UNKNOWN]) + rest
  }

  ghost function BoundsThen(r: Range, rest: Bytes): Bytes {
    WriteU64(r.min) + (WriteU64(r.max) + ExpiryThen(r.expires, rest))
  }

  ghost function RangeThen(r: Range, rest: Bytes): Bytes {
    match r.members
    case Some(m) => WriteBin([WITH_MEMBERS]) + (WriteBin(m) + BoundsThen(r, rest))
    case None => WriteBin([FULL]) + BoundsThen(r, rest)
  }

  ghost function ReadExpiry(s: Bytes): Parsed<Expiry> {
    match ReadBin(s)
    case Failed => Failed
    case Parsed(tag, s1) =>
      if tag == [EXPIRES_AT] then
        (match ReadU64(s1)
         case Failed => Failed
         case Parsed(t, s2) => Parsed(At(t), s2))
      else if tag == [EXPIRES_UNKNOWN] then Parsed(Unknown, s1)
      else Failed
  }

  ghost function ReadBounds(members: Option<seq<byte>>, s: Bytes): Parsed<Range> {
    match ReadU64(s)
    case Failed => Failed
    case Parsed(min, s1) =>
      match ReadU64(s1)
      case Failed => Failed
      case Parsed(max, s2) =>
        match ReadExpiry(s2)
        case Failed => Failed
        case Parsed(e, s3) => Parsed(Range(members, min, max, e), s3)
  }

  ghost function ReadMembers(n: nat, s: Bytes): Parsed<Option<seq<byte>>> {
    match ReadBin(s)
    case Failed => Failed
    case Parsed(tag, s1) =>
      if tag == [WITH_MEMBERS] then
        (match ReadBin(s1)
         case Failed => Failed
         case Parsed(m, s2) => if |m| == n then Parsed(Some(m), s2) else Failed)
      else if tag == [FULL] then Parsed(None, s1)
      else Failed
  }

  ghost function ReadRange(n: nat, s: Bytes): Parsed<Range> {
    match ReadMembers(n, s)
    case Failed => Failed
    case Parsed(m, s1) => ReadBounds(m, s1)
  }

  lemma ExpiryBack(e: Expiry, rest: Bytes)
    requires e.At? ==> e.at < U64
    ensures ReadExpiry(ExpiryThen(e, rest)) == Parsed(e, rest)
  {
    match e
    case At(t) =>
      BinBack([EXPIRES_AT], WriteU64(t) + rest);
      U64Back(t, rest);
    case Unknown => BinBack([EXPIRES_UNKNOWN], rest);
  }

  lemma BoundsBack(r: Range, rest: Bytes)
    requires r.min < U64 && r.max < U64 && (r.expires.At? ==> r.expires.at < U64)
    ensures ReadBounds(r.members, BoundsThen(r, rest)) == Parsed(r, rest)
  {
    U64Back(r.min, WriteU64(r.max) + ExpiryThen(r.expires, rest));
    U64Back(r.max, ExpiryThen(r.expires, rest));
    ExpiryBack(r.expires, rest);
  }

  lemma MembersBack(n: nat, r: Range, rest: Bytes)
    requires RangeStorable(n, r)
    ensures ReadMembers(n, RangeThen(r, rest)) == Parsed(r.members, BoundsThen(r, rest))
  {
    match r.members
    case Some(m) =>
      BinBack([WITH_MEMBERS], WriteBin(m) + BoundsThen(r, rest));
      BinBack(m, BoundsThen(r, rest));
    case None => BinBack([FULL], BoundsThen(r, rest));
  }

  lemma RangeBack(n: nat, r: Range, rest: Bytes)
    requires RangeStorable(n, r)
    ensures ReadRange(n, RangeThen(r, rest)) == Parsed(r, rest)
  {
    MembersBack(n, r, rest);
    BoundsBack(r, rest);
  }

  lemma RangeIsShort(n: nat, r: Range)
    requires RangeStorable(n, r)
    ensures |RangeThen(r, [])| < 0x1_0000
  {
  }

  method SerializeRange(r: Range) returns (buf: Bytes)
    ensures buf == RangeThen(r, [])
  {
    ghost var tail := ExpiryThen(r.expires, []);
    buf := [];
    match r.members {
      case Some(members) =>
        buf := WriteBin([WITH_MEMBERS]);
        Associate(buf, WriteBin(members), BoundsThen(r, []));
        buf := buf + WriteBin(members);
      case None =>
        buf := WriteBin([FULL]);
    }
    Associate(buf, WriteU64(r.min), WriteU64(r.max) + tail);
    buf := buf + WriteU64(r.min);
    Associate(buf, WriteU64(r.max), tail);
    buf := buf + WriteU64(r.max);
    match r.expires {
      case At(at) =>
        Associate(buf, WriteBin([EXPIRES_AT]), WriteU64(at) + []);
        buf := buf + WriteBin([EXPIRES_AT]);
        Associate(buf, WriteU64(at), []);
        buf := buf + WriteU64(at);
      case Unknown =>
        Associate(buf, WriteBin([EXPIRES_UNKNOWN]), []);
        buf := buf + WriteBin([EXPIRES_UNKNOWN]);
    }
  }

  method NextMembers(cursor: Cursor, n: nat) returns (r: Option<Option<seq<byte>>>)
    requires cursor.Valid()
    modifies cursor
    ensures cursor.Valid()
    ensures Reads(r, ReadMembers(n, old(cursor.Rest())), cursor.Rest())
  {
    var tag := cursor.NextBin();
    if tag == Some([WITH_MEMBERS]) {
      var members := cursor.NextBin();
      r := if members.Some? && |members.value| == n then Some(members) else None;
    } else if tag == Some([FULL]) {
      r := Some(None);
    } else {
      r := None;
    }
  }

  method NextExpiry(cursor: Cursor) returns (r: Option<Expiry>)
    requires cursor.Valid()
    modifies cursor
    ensures cursor.Valid()
    ensures Reads(r, ReadExpiry(old(cursor.Rest())), cursor.Rest())
  {
    var tag := cursor.NextBin();
    if tag == Some([EXPIRES_AT]) {
      var at := cursor.NextU64();
      r := if at.Some? then Some(At(at.value)) else None;
    } else if tag == Some([EXPIRES_UNKNOWN]) {
      r := Some(Unknown);
    } else {
      r := None;
    }
  }

  method NextRange(cursor: Cursor, n: nat) returns (r: Option<Range>)
    requires cursor.Valid()
    modifies cursor
    ensures cursor.Valid()
    ensures Reads(r, ReadRange(n, old(cursor.Rest())), cursor.Rest())
  {
    var members := NextMembers(cursor, n);
    if members.None? {
      return None;
    }
    var min := cursor.NextU64();
    if min.None? {
      return None;
    }
    var max := cursor.NextU64();
    if max.None? {
      return None;
    }
    var expires := NextExpiry(cursor);
    r := if expires.Some? then Some(Range(members.value, min.value, max.value, expires.value)) else None;
  }

  method DeserializeRange(n: nat, bytes: Bytes) returns (r: Option<Range>)
    ensures r == match ReadRange(n, bytes) case Parsed(v, _) => Some(v) case Failed => None
  {
    var cursor := new Cursor(bytes);
    r := NextRange(cursor, n);
  }

  // ---- the whole set ----

  ghost function RangesThen(rs: seq<Range>, rest: Bytes): Bytes {
    if rs == [] then rest else WriteBin(RangeThen(rs[0], [])) + RangesThen(rs[1..], rest)
  }

  ghost function SetBytes(rs: seq<Range>): Bytes {
    WriteArrayLen(|rs|) + RangesThen(rs, [])
  }

  /** One range, wrapped as a binary. */
  ghost function ReadOne(n: nat, s: Bytes): Parsed<Range> {
    match ReadBin(s)
    case Failed => Failed
    case Parsed(bytes, rest) =>
      match ReadRange(n, bytes)
      case Failed => Failed
      case Parsed(r, _) => Parsed(r, rest)
  }

  ghost function ReadRanges(n: nat, s: Bytes, count: nat): Option<seq<Range>> {
    if count == 0 then Some([])
    else
      match ReadOne(n, s)
      case Failed => None
      case Parsed(r, rest) => Consed([r], ReadRanges(n, rest, count - 1))
  }

  ghost function Consed(rs: seq<Range>, more: Option<seq<Range>>): Option<seq<Range>> {
    match more
    case None => None
    case Some(us) => Some(rs + us)
  }

  ghost function ReadSet(n: nat, s: Bytes): Option<seq<Range>> {
    match ReadArrayLen(s)
    case Failed => None
    case Parsed(count, rest) => ReadRanges(n, rest, count)
  }

  lemma FirstRangeBack(n: nat, r: Range, rest: Bytes, count: nat)
    requires RangeStorable(n, r) && count > 0
    ensures ReadRanges(n, WriteBin(RangeThen(r, [])) + rest, count) == Consed([r], ReadRanges(n, rest, count - 1))
  {
    RangeIsShort(n, r);
    BinBack(RangeThen(r, []), rest);
    RangeBack(n, r, []);
  }

  lemma {:induction false} RangesBack(n: nat, rs: seq<Range>, rest: Bytes)
    requires forall i :: 0 <= i < |rs| ==> RangeStorable(n, rs[i])
    ensures ReadRanges(n, RangesThen(rs, rest), |rs|) == Some(rs)
    decreases |rs|
  {
    if rs != [] {
      FirstRangeBack(n, rs[0], RangesThen(rs[1..], rest), |rs|);
      RangesBack(n, rs[1..], rest);
      assert rs == [rs[0]] + rs[1..];
    }
  }

  /** A saved set is restored exactly: members, bounds and expiries of every range, in order. */
  lemma SetBack(n: nat, rs: seq<Range>)
    requires |rs| < U32 && forall i :: 0 <= i < |rs| ==> RangeStorable(n, rs[i])
    ensures ReadSet(n, SetBytes(rs)) == Some(rs)
  {
    HeadBack(ARRAY, |rs|, RangesThen(rs, []));
    RangesBack(n, rs, []);
  }

  method ToSavedBytes(ranges: seq<Range>) returns (buf: Bytes)
    ensures buf == SetBytes(ranges)
  {
    buf := WriteArrayLen(|ranges|);
    for i := 0 to |ranges|
      invariant buf + RangesThen(ranges[i..], []) == SetBytes(ranges)
    {
      assert ranges[i..][0] == ranges[i] && ranges[i..][1..] == ranges[i + 1..];
      var bytes := SerializeRange(ranges[i]);
      Associate(buf, WriteBin(bytes), RangesThen(ranges[i + 1..], []));
      buf := buf + WriteBin(bytes);
    }
  }

  lemma ConsedTwice(rs: seq<Range>, r: Range, more: Option<seq<Range>>)
    ensures Consed(rs, Consed([r], more)) == Consed(rs + [r], more)
    ensures Consed([], more) == more
  {
    match more
    case None =>
    case Some(us) => assert rs + ([r] + us) == (rs + [r]) + us && [] + us == us;
  }

  method NextWrapped(cursor: Cursor, n: nat) returns (r: Option<Range>)
    requires cursor.Valid()
    modifies cursor
    ensures cursor.Valid()
    ensures r.None? <==> ReadOne(n, old(cursor.Rest())).Failed?
    ensures r.Some? ==> ReadOne(n, old(cursor.Rest())) == Parsed(r.value, cursor.Rest())
  {
    var bytes := cursor.NextBin();
    if bytes.None? {
      return None;
    }
    r := DeserializeRange(n, bytes.value);
  }

  method NextRanges(cursor: Cursor, n: nat, count: nat) returns (r: Option<seq<Range>>)
    requires cursor.Valid()
    modifies cursor
    ensures r == ReadRanges(n, old(cursor.Rest()), count)
  {
    var ranges: seq<Range> := [];
    ghost var whole := ReadRanges(n, cursor.Rest(), count);
    ConsedTwice([], NewRange(1, 0), whole);
    for i := 0 to count
      invariant cursor.Valid()
      invariant whole == Consed(ranges, ReadRanges(n, cursor.Rest(), count - i))
    {
      var range := NextWrapped(cursor, n);
      if range.None? {
        return None;
      }
      ConsedTwice(ranges, range.value, ReadRanges(n, cursor.Rest(), count - i - 1));
      ranges := ranges + [range.value];
    }
    assert ranges + [] == ranges;
    r := Some(ranges);
  }

  method FromSavedBytes(n: nat, bytes: Bytes) returns (r: Option<seq<Range>>)
    ensures r == ReadSet(n, bytes)
  {
    var cursor := new Cursor(bytes);
    var count := cursor.ReadLen(ARRAY);
    if count.None? {
      return None;
    }
    r := NextRanges(cursor, n, count.value);
  }

  method SetRoundTrip(n: nat, ranges: seq<Range>) returns (bytes: Bytes, back: Option<seq<Range>>)
    requires |ranges| < U32 && forall i :: 0 <= i < |ranges| ==> RangeStorable(n, ranges[i])
    ensures back == Some(ranges)
  {
    bytes := ToSavedBytes(ranges);
    SetBack(n, ranges);
    back := FromSavedBytes(n, bytes);
  }

  /** Every state the set can be in is restored exactly, as long as its numbers and stamps are `u64`. */
  lemma ValidSetsAreRestored(n: nat, rs: seq<Range>)
    requires Valid(n, rs) && |rs| < U32 && LastMax(rs) < U64
    requires forall i :: 0 <= i < |rs| && rs[i].expires.At? ==> rs[i].expires.at < U64
    ensures ReadSet(n, SetBytes(rs)) == Some(rs)
  {
    forall i | 0 <= i < |rs|
      ensures RangeStorable(n, rs[i])
    {
      assert RangeOk(n, rs[i]);
      MinMono(rs, i, |rs| - 1);
    }
    SetBack(n, rs);
  }
}
