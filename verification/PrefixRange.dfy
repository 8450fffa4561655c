/** Prefix searches over byte strings in the key-value store, and the layout of its searchable metadata. */
module PrefixRange {
  import opened Common
  import opened ByteOrder
  import opened FixedWidth

  ghost predicate All(s: Bytes, b: byte) {
    forall i :: 0 <= i < |s| ==> s[i] == b
  }

  /** `bound` is `start` with byte `m` one higher and every later byte, all of which were 255, set to 0. */
  ghost predicate Carried(start: Bytes, bound: Bytes, m: nat) {
    && m < |start| == |bound| && start[m] < 255 && bound[m] == start[m] + 1
    && bound[..m] == start[..m] && All(start[m + 1..], 255) && All(bound[m + 1..], 0)
  }

  ghost predicate InRange(s: Bytes, start: Bytes, bound: Bytes) {
    !Less(s, start) && Less(s, bound)
  }

  /** `prefix_range`; none where it indexes into an empty vector, which is exactly when no byte is below 255. */
  method Bound(start: Bytes) returns (r: Option<Bytes>)
    ensures r == None <==> All(start, 255)
    ensures r.Some? ==> exists m :: Carried(start, r.value, m)
  {
    var result := new byte[|start|](i requires 0 <= i < |start| => start[i]);
    var i := |start|;
    while i > 0
      invariant 0 <= i <= |start| == result.Length
      invariant result[..i] == start[..i]
      invariant All(start[i..], 255) && All(result[i..], 0)
    {
      i := i - 1;
      ghost var below := start[i + 1..];
      assert start[i..] == [start[i]] + below;
      if result[i] < 255 {
        result[i] := result[i] + 1;
        assert result[..][..i] == start[..i] && result[..][i + 1..] == result[i + 1..];
        assert Carried(start, result[..], i);
        return Some(result[..]);
      } else {
        result[i] := 0;
        assert result[i..] == [0] + result[i + 1..];
      }
    }
    assert start[0..] == start;
    r := None;
  }

  lemma {:induction false} NotBelowMaximum(t: Bytes, top: Bytes)
    requires All(top, 255)
    ensures !Less(t, top) <==> top <= t
  {
    if top != [] && t != [] && t[0] == 255 {
      NotBelowMaximum(t[1..], top[1..]);
      assert t == [t[0]] + t[1..] && top == [top[0]] + top[1..];
      assert top <= t <==> top[1..] <= t[1..] by { PrefixTails(top, t); }
    }
  }

  lemma {:induction false} BelowMinimum(t: Bytes, zeros: Bytes)
    requires All(zeros, 0)
    ensures Less(t, zeros) <==> t < zeros
  {
    if zeros != [] && t != [] && t[0] == 0 {
      BelowMinimum(t[1..], zeros[1..]);
      PrefixTails(t, zeros);
    }
  }

  lemma PrefixTails(a: Bytes, b: Bytes)
    requires a != [] && b != [] && a[0] == b[0]
    ensures a <= b <==> a[1..] <= b[1..]
    ensures a < b <==> a[1..] < b[1..]
  {
    assert a == [a[0]] + a[1..] && b == [b[0]] + b[1..];
    if a[1..] <= b[1..] {
      assert b[1..][..|a| - 1] == a[1..];
      assert b[..|a|] == a;
    }
    if a <= b {
      assert b[..|a|] == a;
      assert b[1..][..|a| - 1] == a[1..];
    }
  }

  /**
   * Between a prefix and its bound lie exactly the strings that start with the prefix, and the strings shorter than it
   * that are a beginning of the bound but not of the prefix.
   */
  lemma {:induction false} RangeExactly(s: Bytes, start: Bytes, bound: Bytes, m: nat)
    requires Carried(start, bound, m)
    ensures InRange(s, start, bound) <==> start <= s || (s < bound && !(s <= start))
    decreases m
  {
    if s != [] {
      if m == 0 {
        RangeAtCarry(s, start, bound);
      } else {
        assert bound[..m][0] == start[..m][0];
        if s[0] == start[0] {
          CarriedTails(start, bound, m);
          RangeExactly(s[1..], start[1..], bound[1..], m - 1);
          PrefixTails(start, s);
          PrefixTails(s, bound);
          PrefixTails(s, start);
        }
      }
    }
  }

  lemma CarriedTails(start: Bytes, bound: Bytes, m: nat)
    requires Carried(start, bound, m) && m > 0
    ensures Carried(start[1..], bound[1..], m - 1)
  {
    assert bound[1..][..m - 1] == bound[..m][1..] && start[1..][..m - 1] == start[..m][1..];
    assert bound[1..][m..] == bound[m + 1..] && start[1..][m..] == start[m + 1..];
  }

  lemma RangeAtCarry(s: Bytes, start: Bytes, bound: Bytes)
    requires Carried(start, bound, 0) && s != []
    ensures InRange(s, start, bound) <==> start <= s || (s < bound && !(s <= start))
  {
    if s[0] == start[0] {
      NotBelowMaximum(s[1..], start[1..]);
      PrefixTails(start, s);
    } else if s[0] == bound[0] {
      BelowMinimum(s[1..], bound[1..]);
      PrefixTails(s, bound);
    }
  }

  /** So byte strings at least as long as the prefix are found exactly when they start with it. */
  method PrefixSearch(start: Bytes) returns (r: Option<Bytes>)
    ensures r == None <==> All(start, 255)
    ensures r.Some? ==> forall s: Bytes :: |s| >= |start| ==> (InRange(s, start, r.value) <==> start <= s)
    ensures r.Some? ==> forall s: Bytes :: InRange(s, start, r.value) <==> start <= s || (s < r.value && !(s <= start))
  {
    r := Bound(start);
    if r.Some? {
      ghost var m :| Carried(start, r.value, m);
      forall s: Bytes
        ensures InRange(s, start, r.value) <==> start <= s || (s < r.value && !(s <= start))
      {
        RangeExactly(s, start, r.value, m);
      }
    }
  }

  /** The second family is not empty: with a carry, the bound's own beginnings are found too. */
  lemma ShorterKeysSlipIn()
    ensures Carried([97, 255], [98, 0], 0) && InRange([98], [97, 255], [98, 0]) && !([97, 255] <= [98])
  {
    var start: Bytes, bound: Bytes := [97, 255], [98, 0];
    assert start[1..] == [255] && bound[1..] == [0] && start[..0] == bound[..0];
    assert Carried(start, bound, 0);
    RangeExactly([98], start, bound, 0);
    var s: Bytes := [98];
    assert s == bound[..1];
    assert s[0] != start[0];
  }

  // ---- metadata ----

  datatype KvMetadata = KvMetadata(prefix: Bytes, searchBytes: Bytes, metaBytes: Bytes)

  datatype KvError = InvalidMetadata

  ghost predicate Joinable(m: KvMetadata) {
    |m.prefix| == 3 && |m.searchBytes| <= 0xffff
  }

  ghost function Joined(m: KvMetadata): Bytes {
    m.prefix + LittleEndian(|m.searchBytes|, 2) + m.searchBytes + m.metaBytes
  }

  /** `join_prefix_with_meta`; none where it panics. */
  method JoinPrefixWithMeta(prefix: Bytes, searchBytes: Bytes, metaBytes: Option<Bytes>) returns (r: Option<Bytes>)
    requires |prefix| == 3
    ensures r == None <==> |searchBytes| > 0xffff
    ensures r.Some? ==>
      r.value == Joined(KvMetadata(prefix, searchBytes, if metaBytes.Some? then metaBytes.value else []))
  {
    if |searchBytes| > 0xffff {
      return None;
    }
    var bytes := prefix;
    bytes := bytes + LittleEndian(|searchBytes|, 2);
    bytes := bytes + searchBytes;
    if metaBytes.Some? {
      bytes := bytes + metaBytes.value;
    } else {
      assert bytes + [] == bytes;
    }
    r := Some(bytes);
  }

  function ReadMeta(meta: Bytes): Result<KvMetadata, KvError> {
    if |meta| < 5 then Err(InvalidMetadata)
    else
      var n := FromLittleEndian(meta[3..5]);
      if |meta| < 5 + n then Err(InvalidMetadata)
      else Ok(KvMetadata(meta[..3], meta[5..5 + n], meta[5 + n..]))
  }

  /** Metadata reads back as what was joined, and nothing else reads back at all. */
  lemma ReadsExactly(meta: Bytes, m: KvMetadata)
    ensures ReadMeta(meta) == Ok(m) <==> Joinable(m) && meta == Joined(m)
  {
    Limits();
    if |meta| >= 5 {
      FromLittleEndianFits(meta[3..5]);
      LittleEndianExactly(meta[3..5], FromLittleEndian(meta[3..5]));
    }
    if Joinable(m) && meta == Joined(m) {
      var width := LittleEndian(|m.searchBytes|, 2);
      assert meta[3..5] == width;
      LittleEndianExactly(width, |m.searchBytes|);
      assert meta[..3] == m.prefix && meta[5..5 + |m.searchBytes|] == m.searchBytes;
      assert meta[5 + |m.searchBytes|..] == m.metaBytes;
    }
    if ReadMeta(meta) == Ok(m) {
      assert meta == meta[..3] + meta[3..5] + m.searchBytes + m.metaBytes;
    }
  }
}
