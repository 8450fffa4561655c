/** The MessagePack formats in use: array, str, bin and uint 64, with every length class of the specification. */
module MessagePack {
  import opened Common
  import opened FixedWidth

  const U32: nat := 0x1_0000_0000
  const U64: nat := 0x1_0000_0000_0000_0000

  datatype Parsed<+T> = Parsed(value: T, rest: Bytes) | Failed

  // ---- UTF-8 ----

  predicate Continues(b: byte) {
    0x80 <= b < 0xc0
  }

  /** Size of the well-formed sequence at the front (Table 3-7 of the Unicode Standard), or 0. */
  function Utf8Front(s: Bytes): (n: nat)
    requires s != []
    ensures n <= |s|
  {
    if s[0] < 0x80 then 1
    else if 0xc2 <= s[0] < 0xe0 && |s| >= 2 && Continues(s[1]) then 2
    else if 0xe0 <= s[0] < 0xf0 && |s| >= 3 && Continues(s[1]) && Continues(s[2])
            && (s[0] == 0xe0 ==> s[1] >= 0xa0) && (s[0] == 0xed ==> s[1] < 0xa0) then 3
    else if 0xf0 <= s[0] < 0xf5 && |s| >= 4 && Continues(s[1]) && Continues(s[2]) && Continues(s[3])
            && (s[0] == 0xf0 ==> s[1] >= 0x90) && (s[0] == 0xf4 ==> s[1] < 0x90) then 4
    else 0
  }

  predicate Utf8(s: Bytes) {
    s == [] || (Utf8Front(s) > 0 && Utf8(s[Utf8Front(s)..]))
  }

  lemma {:induction false} AsciiIsUtf8(s: Bytes)
    requires forall i :: 0 <= i < |s| ==> s[i] < 0x80
    ensures Utf8(s)
  {
    if s != [] {
      AsciiIsUtf8(s[1..]);
    }
  }

  // ---- heads ----

  /** Markers of one family; `m8` is absent for arrays, and the single-byte form for binaries. */
  datatype Family = Family(fixBase: byte, fixCount: nat, m8: Option<byte>, m16: byte, m32: byte)

  const STR := Family(0xa0, 32, Some(0xd9), 0xda, 0xdb)
  const BIN := Family(0, 0, Some(0xc4), 0xc5, 0xc6)
  const ARRAY := Family(0x90, 16, None, 0xdc, 0xdd)

  /** No two forms share a first byte. */
  predicate Distinct(f: Family) {
    && f.fixBase + f.fixCount <= 0xc0 && 0xc0 <= f.m16 && 0xc0 <= f.m32 && f.m16 != f.m32
    && (f.m8.Some? ==> 0xc0 <= f.m8.value && f.m8.value != f.m16 && f.m8.value != f.m32)
  }

  /** The shortest form; the cast to `u32` drops higher bits. */
  function WriteHead(f: Family, len: nat): (b: Bytes)
    requires Distinct(f)
  {
    var n := len % U32;
    if n < f.fixCount then [f.fixBase + n]
    else if f.m8.Some? && n < 0x100 then [f.m8.value] + BigEndian(n, 1)
    else if n < 0x1_0000 then [f.m16] + BigEndian(n, 2)
    else [f.m32] + BigEndian(n, 4)
  }

  function ReadUint(s: Bytes, width: nat): Parsed<nat> {
    if |s| < width then Failed else Parsed(FromBigEndian(s[..width]), s[width..])
  }

  function ReadHead(f: Family, s: Bytes): Parsed<nat> {
    if s == [] then Failed
    else if f.fixBase <= s[0] < f.fixBase + f.fixCount then Parsed(s[0] - f.fixBase, s[1..])
    else if Some(s[0]) == f.m8 then ReadUint(s[1..], 1)
    else if s[0] == f.m16 then ReadUint(s[1..], 2)
    else if s[0] == f.m32 then ReadUint(s[1..], 4)
    else Failed
  }

  lemma UintBack(n: nat, width: nat, rest: Bytes)
    requires n < Limit(width)
    ensures ReadUint(BigEndian(n, width) + rest, width) == Parsed(n, rest)
  {
    var s := BigEndian(n, width) + rest;
    assert s[..width] == BigEndian(n, width) && s[width..] == rest;
    BigEndianExactly(s[..width], n);
  }

  /** Reading a head undoes writing it in all length classes, whatever follows. */
  lemma HeadBack(f: Family, n: nat, rest: Bytes)
    requires Distinct(f) && n < U32
    ensures ReadHead(f, WriteHead(f, n) + rest) == Parsed(n, rest)
  {
    var s := WriteHead(f, n) + rest;
    Limits();
    assert n % U32 == n;
    if n < f.fixCount {
      assert s[1..] == rest;
    } else {
      var width := if f.m8.Some? && n < 0x100 then 1 else if n < 0x1_0000 then 2 else 4;
      assert s[1..] == BigEndian(n, width) + rest;
      UintBack(n, width, rest);
    }
  }

  // ---- values ----

  function Take(s: Bytes, n: nat): Parsed<Bytes> {
    if n > |s| then Failed else Parsed(s[..n], s[n..])
  }

  function WriteBin(v: Bytes): Bytes {
    WriteHead(BIN, |v|) + v
  }

  function ReadBin(s: Bytes): Parsed<Bytes> {
    match ReadHead(BIN, s)
    case Parsed(n, rest) => Take(rest, n)
    case Failed => Failed
  }

  function WriteStr(v: Bytes): Bytes {
    WriteHead(STR, |v|) + v
  }

  function ReadStr(s: Bytes): Parsed<Bytes> {
    match ReadHead(STR, s)
    case Parsed(n, rest) =>
      (match Take(rest, n)
       case Parsed(v, after) => if Utf8(v) then Parsed(v, after) else Failed
       case Failed => Failed)
    case Failed => Failed
  }

  function WriteArrayLen(n: nat): Bytes {
    WriteHead(ARRAY, n)
  }

  function ReadArrayLen(s: Bytes): Parsed<nat> {
    ReadHead(ARRAY, s)
  }

  function WriteU64(n: nat): Bytes {
    [0xcf] + BigEndian(n, 8)
  }

  function ReadU64(s: Bytes): Parsed<nat> {
    if s == [] || s[0] != 0xcf then Failed else ReadUint(s[1..], 8)
  }

  lemma TakeBack(head: Bytes, v: Bytes, rest: Bytes)
    ensures Take(v + rest, |v|) == Parsed(v, rest)
    ensures (head + v) + rest == head + (v + rest)
  {
    assert (v + rest)[..|v|] == v && (v + rest)[|v|..] == rest;
  }

  lemma BinBack(v: Bytes, rest: Bytes)
    requires |v| < U32
    ensures ReadBin(WriteBin(v) + rest) == Parsed(v, rest)
  {
    HeadBack(BIN, |v|, v + rest);
    TakeBack(WriteHead(BIN, |v|), v, rest);
  }

  lemma StrBack(v: Bytes, rest: Bytes)
    requires |v| < U32 && Utf8(v)
    ensures ReadStr(WriteStr(v) + rest) == Parsed(v, rest)
  {
    HeadBack(STR, |v|, v + rest);
    TakeBack(WriteHead(STR, |v|), v, rest);
  }

  lemma U64Back(n: nat, rest: Bytes)
    requires n < U64
    ensures ReadU64(WriteU64(n) + rest) == Parsed(n, rest)
  {
    Limits();
    UintBack(n, 8, rest);
    assert (WriteU64(n) + rest)[1..] == BigEndian(n, 8) + rest;
  }

  /** A reader over bytes whose position only moves forward. */
  class Cursor {
    const bytes: Bytes
    var position: nat

    ghost predicate Valid()
      reads this
    {
      position <= |bytes|
    }

    ghost function Rest(): Bytes
      requires Valid()
      reads this
    {
      bytes[position..]
    }

    constructor (bytes: Bytes)
      ensures this.bytes == bytes && Valid() && Rest() == bytes
    {
      this.bytes := bytes;
      position := 0;
    }

    method ReadByte() returns (r: Option<byte>)
      requires Valid()
      modifies this
      ensures Valid()
      ensures r.None? <==> old(Rest()) == []
      ensures r.Some? ==> r.value == old(Rest())[0] && Rest() == old(Rest())[1..]
    {
      if position == |bytes| {
        return None;
      }
      position := position + 1;
      r := Some(bytes[position - 1]);
    }

    /** `try_cursor_slice` */
    method TrySlice(len: nat) returns (r: Option<Bytes>)
      requires Valid()
      modifies this
      ensures Valid()
      ensures Reads(r, Take(old(Rest()), len), Rest())
    {
      if position + len > |bytes| {
        return None;
      }
      ghost var rest := Rest();
      var start, end := position, position + len;
      position := end;
      assert bytes[start..end] == rest[..len];
      r := Some(bytes[start..end]);
    }

    method ReadNumber(width: nat) returns (r: Option<nat>)
      requires Valid()
      modifies this
      ensures Valid()
      ensures Reads(r, ReadUint(old(Rest()), width), Rest())
    {
      var digits := TrySlice(width);
      if digits.None? {
        return None;
      }
      r := Some(FromBigEndian(digits.value));
    }

    method ReadLen(f: Family) returns (r: Option<nat>)
      requires Valid()
      modifies this
      ensures Valid()
      ensures Reads(r, ReadHead(f, old(Rest())), Rest())
    {
      var marker := ReadByte();
      if marker.None? {
        return None;
      }
      var m := marker.value;
      if f.fixBase <= m < f.fixBase + f.fixCount {
        return Some(m - f.fixBase);
      } else if marker == f.m8 {
        r := ReadNumber(1);
      } else if m == f.m16 {
        r := ReadNumber(2);
      } else if m == f.m32 {
        r := ReadNumber(4);
      } else {
        return None;
      }
    }

    method NextU64() returns (r: Option<nat>)
      requires Valid()
      modifies this
      ensures Valid()
      ensures Reads(r, ReadU64(old(Rest())), Rest())
    {
      var marker := ReadByte();
      if marker != Some(0xcf) {
        return None;
      }
      r := ReadNumber(8);
    }

    /** `rmp_read_bin` */
    method NextBin() returns (r: Option<Bytes>)
      requires Valid()
      modifies this
      ensures Valid()
      ensures Reads(r, ReadBin(old(Rest())), Rest())
    {
      var len := ReadLen(BIN);
      if len.None? {
        return None;
      }
      r := TrySlice(len.value);
    }

    /** `rmp_read_str` */
    method NextStr() returns (r: Option<Bytes>)
      requires Valid()
      modifies this
      ensures Valid()
      ensures Reads(r, ReadStr(old(Rest())), Rest())
    {
      var len := ReadLen(STR);
      if len.None? {
        return None;
      }
      r := TrySlice(len.value);
      if r.None? || !Utf8(r.value) {
        return None;
      }
    }
  }

  /** A read through a cursor returned what the parser on the remaining bytes says, and left what it leaves. */
  ghost predicate Reads<T>(r: Option<T>, p: Parsed<T>, rest: Bytes) {
    match p
    case Parsed(v, after) => r == Some(v) && rest == after
    case Failed => r == None
  }
}
