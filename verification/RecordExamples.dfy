/** One record of each kind, byte by byte: the order of the fields, their markers and their names. */
module RecordExamples {
  import opened Common
  import opened FixedWidth
  import opened MessagePack
  import opened Names
  import opened Records
  import CompactRange
  import SavedSet

  lemma {:induction false} EightBytes(n: byte)
    ensures WriteU64(n) == [0xcf, 0, 0, 0, 0, 0, 0, 0, n]
  {
    ZeroBytes(7);
    assert BigEndian(n, 8) == BigEndian(0, 7) + [n];
    assert ZerosOf(7) == [0, 0, 0, 0, 0, 0, 0];
  }

  function ZerosOf(width: nat): Bytes {
    if width == 0 then [] else ZerosOf(width - 1) + [0]
  }

  lemma {:induction false} ZeroBytes(width: nat)
    ensures BigEndian(0, width) == ZerosOf(width)
  {
    if width > 0 {
      ZeroBytes(width - 1);
    }
  }

  lemma {:induction false} ShortBinary(v: Bytes)
    requires |v| < 256
    ensures WriteBin(v) == [0xc4, |v|] + v
  {
    assert BigEndian(|v|, 1) == BigEndian(|v| / 256, 0) + [|v| % 256];
  }

  lemma {:induction false} ShortString(v: Bytes)
    requires |v| < 32
    ensures WriteStr(v) == [0xa0 + |v|] + v
  {
  }

  lemma NamesAre()
    ensures Ascii("read_users") == [114, 101, 97, 100, 95, 117, 115, 101, 114, 115]
    ensures Ascii("all") == [97, 108, 108] && Ascii("login") == [108, 111, 103, 105, 110]
  {
  }

  lemma {:induction false} NameFields()
    ensures WriteStr(Ascii("read_users")) == [0xaa] + [114, 101, 97, 100, 95, 117, 115, 101, 114, 115]
    ensures WriteStr(Ascii("all")) == [0xa3] + [97, 108, 108] && WriteStr(Ascii("login")) == [0xa5] + [108, 111, 103, 105, 110]
  {
    NamesAre();
    ShortString(Ascii("read_users"));
    ShortString(Ascii("all"));
    ShortString(Ascii("login"));
  }

  lemma {:induction false} TargetsField(tail: Bytes)
    ensures WriteArrayLen(1) + StrsThen([[97]], tail) == [0x91] + ([0xa1, 97] + tail)
  {
    ShortString([97]);
    assert [0xa1] + [97] == [0xa1, 97];
    var none: seq<Bytes> := [];
    assert [[97]][1..] == none && StrsThen(none, tail) == tail;
  }

  lemma {:induction false} TailFields(c: ProofContent)
    requires c.expires == 5 && c.ephemeral == [1] && c.data == [2, 3]
    ensures ProofTail(c, []) == [0xcf, 0, 0, 0, 0, 0, 0, 0, 5] + ([0xc4, 1, 1] + ([0xc4, 2, 2, 3] + []))
  {
    EightBytes(5);
    ShortBinary([1]);
    ShortBinary([2, 3]);
    assert [0xc4, 1] + [1] == [0xc4, 1, 1] && [0xc4, 2] + [2, 3] == [0xc4, 2, 2, 3];
  }

  /** Reading users, over all targets but one listed, until 5, with one byte for the ephemeral token and two of data. */
  lemma {:induction false} ProofExample(c: ProofContent)
    requires c == ProofContent(ReadUsers, All, [[97]], 5, [1], [2, 3])
    ensures ProofThen(c, [])
         == [0x96] + (([0xaa] + [114, 101, 97, 100, 95, 117, 115, 101, 114, 115]) + (([0xa3] + [97, 108, 108])
            + ([0x91] + ([0xa1, 97] + ([0xcf, 0, 0, 0, 0, 0, 0, 0, 5] + ([0xc4, 1, 1] + ([0xc4, 2, 2, 3] + [])))))))
  {
    NameFields();
    TargetsField(ProofTail(c, []));
    TailFields(c);
    assert WriteArrayLen(6) == [0x96];
  }

  lemma {:induction false} EphemeralFields()
    ensures WriteStr([117]) == [0xa1, 117] && WriteU64(7) == [0xcf, 0, 0, 0, 0, 0, 0, 0, 7]
    ensures WriteBin([9]) == [0xc4, 1, 9] && WriteBin([8, 8]) == [0xc4, 2, 8, 8] && WriteArrayLen(5) == [0x95]
  {
    ShortString([117]);
    EightBytes(7);
    ShortBinary([9]);
    ShortBinary([8, 8]);
  }

  /** A login token of the user "u" until 7, with one byte of state and two of data. */
  lemma {:induction false} EphemeralExample(c: EphemeralContent)
    requires c == EphemeralContent([117], 7, [9], Login, [8, 8])
    ensures EphemeralThen(c, [])
         == [0x95] + ([0xa1, 117] + ([0xcf, 0, 0, 0, 0, 0, 0, 0, 7] + ([0xc4, 1, 9] + (([0xa5] + [108, 111, 103, 105, 110])
            + ([0xc4, 2, 8, 8] + [])))))
  {
    NameFields();
    EphemeralFields();
  }

  lemma {:induction false} MarkFields()
    ensures WriteBin([244]) == [0xc4, 1, 244] && WriteBin([133]) == [0xc4, 1, 133]
    ensures WriteBin([66]) == [0xc4, 1, 66] && WriteBin([55]) == [0xc4, 1, 55] && WriteBin([2, 1]) == [0xc4, 2, 2, 1]
  {
    ShortBinary([244]);
    ShortBinary([133]);
    ShortBinary([66]);
    ShortBinary([55]);
    ShortBinary([2, 1]);
  }

  /** A range from 1 to 2 with its two members that has no stamp. */
  lemma {:induction false} RangeExample(r: CompactRange.Range)
    requires r == CompactRange.Range(Some([2, 1]), 1, 2, CompactRange.Unknown)
    ensures SavedSet.RangeThen(r, [])
         == [0xc4, 1, 244] + ([0xc4, 2, 2, 1] + ([0xcf, 0, 0, 0, 0, 0, 0, 0, 1] + ([0xcf, 0, 0, 0, 0, 0, 0, 0, 2]
            + ([0xc4, 1, 55] + []))))
  {
    MarkFields();
    EightBytes(1);
    EightBytes(2);
  }

  /** A full range from 3 to 4 that is stamped 5. */
  lemma {:induction false} FullRangeExample(r: CompactRange.Range)
    requires r == CompactRange.Range(None, 3, 4, CompactRange.At(5))
    ensures SavedSet.RangeThen(r, [])
         == [0xc4, 1, 133] + ([0xcf, 0, 0, 0, 0, 0, 0, 0, 3] + ([0xcf, 0, 0, 0, 0, 0, 0, 0, 4]
            + ([0xc4, 1, 66] + ([0xcf, 0, 0, 0, 0, 0, 0, 0, 5] + []))))
  {
    MarkFields();
    EightBytes(3);
    EightBytes(4);
    EightBytes(5);
  }
}
