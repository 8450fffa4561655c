/** What restoring a range accepts, as a grammar: every other input makes an `unwrap` fail. */
module SavedGrammar {
  import opened Common
  import opened MessagePack
  import opened WireGrammar
  import opened CompactRange
  import opened SavedSet

  /** The bytes of a range's fields, in order; a full range has no members, and one without a stamp no expiry. */
  datatype RangeFields = RangeFields(tag: Bytes, members: Bytes, min: Bytes, max: Bytes, mark: Bytes, expires: Bytes)

  ghost predicate MembersFields(p: RangeFields, members: Option<seq<byte>>, n: nat) {
    match members
    case Some(m) => IsBinary(p.tag, [244]) && IsBinary(p.members, m) && |m| == n
    case None => IsBinary(p.tag, [133]) && p.members == []
  }

  ghost predicate ExpiryFields(p: RangeFields, e: Expiry) {
    match e
    case At(t) => IsBinary(p.mark, [66]) && IsNumber(p.expires, t)
    case Unknown => IsBinary(p.mark, [55]) && p.expires == []
  }

  ghost predicate RangeFieldsOf(p: RangeFields, r: Range, n: nat) {
    MembersFields(p, r.members, n) && IsNumber(p.min, r.min) && IsNumber(p.max, r.max) && ExpiryFields(p, r.expires)
  }

  function BoundsBytes(p: RangeFields, rest: Bytes): Bytes {
    p.min + (p.max + (p.mark + (p.expires + rest)))
  }

  function RangeBytes(p: RangeFields, rest: Bytes): Bytes {
    p.tag + (p.members + BoundsBytes(p, rest))
  }

  lemma {:induction false} ExpiryReads(p: RangeFields, e: Expiry, rest: Bytes)
    requires ExpiryFields(p, e)
    ensures ReadExpiry(p.mark + (p.expires + rest)) == Parsed(e, rest)
  {
    match e
    case At(t) =>
      BinaryReads(p.mark, [66], p.expires + rest);
      NumberReads(p.expires, t, rest);
    case Unknown =>
      BinaryReads(p.mark, [55], p.expires + rest);
      assert p.expires + rest == rest;
  }

  lemma {:induction false} BoundsRead(p: RangeFields, r: Range, rest: Bytes)
    requires IsNumber(p.min, r.min) && IsNumber(p.max, r.max) && ExpiryFields(p, r.expires)
    ensures ReadBounds(r.members, BoundsBytes(p, rest)) == Parsed(r, rest)
  {
    NumberReads(p.min, r.min, p.max + (p.mark + (p.expires + rest)));
    NumberReads(p.max, r.max, p.mark + (p.expires + rest));
    ExpiryReads(p, r.expires, rest);
  }

  lemma {:induction false} MembersRead(p: RangeFields, members: Option<seq<byte>>, n: nat, rest: Bytes)
    requires MembersFields(p, members, n)
    ensures ReadMembers(n, p.tag + (p.members + rest)) == Parsed(members, rest)
  {
    match members
    case Some(m) =>
      BinaryReads(p.tag, [244], p.members + rest);
      BinaryReads(p.members, m, rest);
    case None =>
      BinaryReads(p.tag, [133], p.members + rest);
      assert p.members + rest == rest;
  }

  lemma {:induction false} ExpiryIs(s: Bytes) returns (mark: Bytes, expires: Bytes)
    requires ReadExpiry(s).Parsed?
    ensures ExpiryFields(RangeFields([], [], [], [], mark, expires), ReadExpiry(s).value)
    ensures s == mark + (expires + ReadExpiry(s).rest)
  {
    mark := BinaryIs(s);
    expires := [];
    var after := ReadBin(s).rest;
    if ReadExpiry(s).value.At? {
      expires := NumberIs(after);
    } else {
      assert [] + after == after;
    }
  }

  lemma {:induction false} MembersAre(n: nat, s: Bytes) returns (tag: Bytes, members: Bytes)
    requires ReadMembers(n, s).Parsed?
    ensures MembersFields(RangeFields(tag, members, [], [], [], []), ReadMembers(n, s).value, n)
    ensures s == tag + (members + ReadMembers(n, s).rest)
  {
    tag := BinaryIs(s);
    members := [];
    var after := ReadBin(s).rest;
    if ReadMembers(n, s).value.Some? {
      members := BinaryIs(after);
    } else {
      assert [] + after == after;
    }
  }

  lemma {:induction false} RangeIs(n: nat, s: Bytes) returns (p: RangeFields)
    requires ReadRange(n, s).Parsed?
    ensures RangeFieldsOf(p, ReadRange(n, s).value, n) && s == RangeBytes(p, ReadRange(n, s).rest)
  {
    var tag, members := MembersAre(n, s);
    var s1 := ReadMembers(n, s).rest;
    var min := NumberIs(s1);
    var s2 := ReadU64(s1).rest;
    var max := NumberIs(s2);
    var mark, expires := ExpiryIs(ReadU64(s2).rest);
    p := RangeFields(tag, members, min, max, mark, expires);
  }

  /** A range is restored if and only if the bytes begin with its fields, in order; anything else panics. */
  lemma RangeExactly(n: nat, s: Bytes, r: Range, rest: Bytes)
    ensures ReadRange(n, s) == Parsed(r, rest) <==> exists p :: RangeFieldsOf(p, r, n) && s == RangeBytes(p, rest)
  {
    if ReadRange(n, s) == Parsed(r, rest) {
      var p := RangeIs(n, s);
    }
    forall p | RangeFieldsOf(p, r, n) && s == RangeBytes(p, rest)
      ensures ReadRange(n, s) == Parsed(r, rest)
    {
      MembersRead(p, r.members, n, BoundsBytes(p, rest));
      BoundsRead(p, r, rest);
    }
  }
}
