/** The constants of the wire formats, fixed by the tables and test vectors of the standards they come from. */
module WireFormats {
  import opened Common
  import opened Base64Url
  import opened FixedWidth
  import opened MessagePack

  // ---- base64url ----

  /** Table 2 of RFC 4648. */
  lemma {:induction false} CharIsAlphabet(v: nat)
    requires v < 64
    ensures Char(v) ==
      if v < 26 then 'A' as int + v
      else if v < 52 then 'a' as int + (v - 26)
      else if v < 62 then '0' as int + (v - 52)
      else if v == 62 then '-' as int
      else '_' as int
  {
  }

  /** "f" and "fo" of section 10 of RFC 4648, without the padding: "Zg" and "Zm8". */
  lemma {:induction false} ShortVectors()
    ensures Encode([102]) == [90, 103] && Encode([102, 111]) == [90, 109, 56]
  {
  }

  /** "foo" and the three bytes of the two last characters of the alphabet: "Zm9v" and "-_-_". */
  lemma {:induction false} TripletVectors()
    ensures EncodeThree(102, 111, 111) == [90, 109, 57, 118] && EncodeThree(98, 97, 114) == [89, 109, 70, 121]
    ensures EncodeThree(0xfb, 0xff, 0xbf) == [45, 95, 45, 95]
  {
  }

  /** Whole triplets first, and then the rest: "foob", "fooba" and "foobar" give "Zm9vYg", "Zm9vYmE" and "Zm9vYmFy". */
  lemma {:induction false} LongVectors()
    ensures Encode([102, 111, 111] + [98]) == [90, 109, 57, 118] + [89, 103]
    ensures Encode([102, 111, 111] + [98, 97]) == [90, 109, 57, 118] + [89, 109, 69]
    ensures Encode([102, 111, 111] + [98, 97, 114]) == [90, 109, 57, 118] + [89, 109, 70, 121]
  {
    TripletVectors();
    assert ([102, 111, 111] + [98])[3..] == [98];
    assert ([102, 111, 111] + [98, 97])[3..] == [98, 97];
    assert ([102, 111, 111] + [98, 97, 114])[3..] == [98, 97, 114];
    assert [98, 97, 114][3..] == [];
    assert Encode([98, 97, 114]) == [89, 109, 70, 121];
  }

  // ---- integers ----

  lemma {:induction false} BigEndianTwo(n: nat)
    ensures BigEndian(n, 1) == [n % 256] && BigEndian(n, 2) == [n / 256 % 256, n % 256]
  {
    assert BigEndian(n, 1) == BigEndian(n / 256, 0) + [n % 256];
    assert BigEndian(n / 256, 1) == BigEndian(n / 256 / 256, 0) + [n / 256 % 256];
    assert BigEndian(n, 2) == BigEndian(n / 256, 1) + [n % 256];
  }

  /** Network byte order: the highest digit first. */
  lemma {:induction false} BigEndianBytes(n: nat)
    ensures BigEndian(n, 2) == [n / 256 % 256, n % 256]
    ensures BigEndian(n, 4) == [n / 256 / 256 / 256 % 256, n / 256 / 256 % 256, n / 256 % 256, n % 256]
  {
    BigEndianTwo(n);
    BigEndianTwo(n / 256 / 256);
    assert BigEndian(n / 256, 3) == BigEndian(n / 256 / 256, 2) + [n / 256 % 256];
    assert BigEndian(n, 4) == BigEndian(n / 256, 3) + [n % 256];
  }

  /** The lowest digit first. */
  lemma {:induction false} LittleEndianBytes(n: nat)
    ensures LittleEndian(n, 4) == [n % 256, n / 256 % 256, n / 256 / 256 % 256, n / 256 / 256 / 256 % 256]
  {
    var m := n / 256;
    assert LittleEndian(m / 256 / 256, 1) == [m / 256 / 256 % 256];
    assert LittleEndian(m / 256, 2) == [m / 256 % 256, m / 256 / 256 % 256];
    assert LittleEndian(m, 3) == [m % 256, m / 256 % 256, m / 256 / 256 % 256];
  }

  // ---- MessagePack ----

  /** The str family of the MessagePack specification. */
  lemma {:induction false} StringHeads(n: nat)
    requires n < 0x1_0000_0000
    ensures WriteHead(STR, n) ==
      if n < 32 then [0xa0 + n] else if n < 256 then [0xd9] + BigEndian(n, 1)
      else if n < 0x1_0000 then [0xda] + BigEndian(n, 2) else [0xdb] + BigEndian(n, 4)
  {
  }

  lemma {:induction false} BinaryHeads(n: nat)
    requires n < 0x1_0000_0000
    ensures WriteHead(BIN, n) ==
      if n < 256 then [0xc4] + BigEndian(n, 1)
      else if n < 0x1_0000 then [0xc5] + BigEndian(n, 2) else [0xc6] + BigEndian(n, 4)
  {
  }

  lemma {:induction false} ArrayHeads(n: nat)
    requires n < 0x1_0000_0000
    ensures WriteHead(ARRAY, n) ==
      if n < 16 then [0x90 + n] else if n < 0x1_0000 then [0xdc] + BigEndian(n, 2) else [0xdd] + BigEndian(n, 4)
  {
  }

  lemma {:induction false} NumberBytes(n: nat)
    ensures WriteU64(n) == [0xcf] + BigEndian(n, 8)
  {
  }

  /** Lengths in longer forms than needed are read as well. */
  lemma {:induction false} LongFormsAreRead(n: nat, width: nat, rest: Bytes)
    requires n < Limit(width)
    ensures width == 1 ==>
      ReadHead(STR, [0xd9] + (BigEndian(n, 1) + rest)) == ReadHead(BIN, [0xc4] + (BigEndian(n, 1) + rest)) == Parsed(n, rest)
    ensures width == 2 ==>
      && ReadHead(STR, [0xda] + (BigEndian(n, 2) + rest)) == Parsed(n, rest)
      && ReadHead(BIN, [0xc5] + (BigEndian(n, 2) + rest)) == Parsed(n, rest)
      && ReadHead(ARRAY, [0xdc] + (BigEndian(n, 2) + rest)) == Parsed(n, rest)
    ensures width == 4 ==>
      && ReadHead(STR, [0xdb] + (BigEndian(n, 4) + rest)) == Parsed(n, rest)
      && ReadHead(BIN, [0xc6] + (BigEndian(n, 4) + rest)) == Parsed(n, rest)
      && ReadHead(ARRAY, [0xdd] + (BigEndian(n, 4) + rest)) == Parsed(n, rest)
  {
    UintBack(n, width, rest);
    var digits := BigEndian(n, width) + rest;
    assert forall b: byte :: ([b] + digits)[1..] == digits;
  }
}
