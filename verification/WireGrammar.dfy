/**
 * What the readers accept, as a grammar: heads of every form that the length fits, well-formed strings, and records of
 * the right fields in the right order, and nothing else.
 */
module WireGrammar {
  import opened Common
  import opened FixedWidth
  import opened MessagePack
  import opened Names
  import opened Records

  // ---- heads ----

  ghost predicate IsHead(f: Family, h: Bytes, n: nat) {
    || (n < f.fixCount && f.fixBase + n < 256 && h == [f.fixBase + n])
    || (f.m8.Some? && n < 0x100 && h == [f.m8.value] + BigEndian(n, 1))
    || (n < 0x1_0000 && h == [f.m16] + BigEndian(n, 2))
    || (n < 0x1_0000_0000 && h == [f.m32] + BigEndian(n, 4))
  }

  lemma {:induction false} UintReads(marker: byte, n: nat, width: nat, rest: Bytes)
    requires n < Limit(width)
    ensures var s := ([marker] + BigEndian(n, width)) + rest;
      s != [] && s[0] == marker && ReadUint(s[1..], width) == Parsed(n, rest)
  {
    UintBack(n, width, rest);
    assert (([marker] + BigEndian(n, width)) + rest)[1..] == BigEndian(n, width) + rest;
  }

  lemma {:induction false} HeadReads(f: Family, h: Bytes, n: nat, rest: Bytes)
    requires Distinct(f) && IsHead(f, h, n)
    ensures ReadHead(f, h + rest) == Parsed(n, rest)
  {
    Limits();
    if n < f.fixCount && h == [f.fixBase + n] {
      assert (h + rest)[1..] == rest;
    } else if f.m8.Some? && n < 0x100 && h == [f.m8.value] + BigEndian(n, 1) {
      UintReads(f.m8.value, n, 1, rest);
    } else if n < 0x1_0000 && h == [f.m16] + BigEndian(n, 2) {
      UintReads(f.m16, n, 2, rest);
    } else {
      UintReads(f.m32, n, 4, rest);
    }
  }

  lemma {:induction false} FromBigEndianFits(b: Bytes)
    ensures FromBigEndian(b) < Limit(|b|)
  {
    if b != [] {
      FromBigEndianFits(b[..|b| - 1]);
    }
  }

  lemma {:induction false} UintIs(s: Bytes, width: nat)
    requires s != [] && ReadUint(s[1..], width).Parsed?
    ensures var n := ReadUint(s[1..], width).value; var rest := ReadUint(s[1..], width).rest;
      n < Limit(width) && s == ([s[0]] + BigEndian(n, width)) + rest
  {
    var digits := s[1..][..width];
    FromBigEndianFits(digits);
    BigEndianExactly(digits, FromBigEndian(digits));
    assert s == [s[0]] + (digits + s[1..][width..]);
  }

  lemma {:induction false} HeadIs(f: Family, s: Bytes) returns (h: Bytes)
    requires Distinct(f) && ReadHead(f, s).Parsed?
    ensures IsHead(f, h, ReadHead(f, s).value) && s == h + ReadHead(f, s).rest
  {
    Limits();
    var n := ReadHead(f, s).value;
    if f.fixBase <= s[0] < f.fixBase + f.fixCount {
      h := [s[0]];
    } else {
      var width := if Some(s[0]) == f.m8 then 1 else if s[0] == f.m16 then 2 else 4;
      UintIs(s, width);
      h := [s[0]] + BigEndian(n, width);
    }
  }

  // ---- values ----

  ghost predicate IsString(b: Bytes, v: Bytes) {
    Utf8(v) && exists h :: IsHead(STR, h, |v|) && b == h + v
  }

  ghost predicate IsBinary(b: Bytes, v: Bytes) {
    exists h :: IsHead(BIN, h, |v|) && b == h + v
  }

  ghost predicate IsNumber(b: Bytes, n: nat) {
    n < 0x1_0000_0000_0000_0000 && b == [0xcf] + BigEndian(n, 8)
  }

  lemma TakeIs(s: Bytes, n: nat)
    requires Take(s, n).Parsed?
    ensures var v := Take(s, n).value; |v| == n && s == v + Take(s, n).rest
  {
  }

  lemma {:induction false} StringReads(b: Bytes, v: Bytes, rest: Bytes)
    requires IsString(b, v)
    ensures ReadStr(b + rest) == Parsed(v, rest)
  {
    var h :| IsHead(STR, h, |v|) && b == h + v;
    HeadReads(STR, h, |v|, v + rest);
    TakeBack(h, v, rest);
  }

  lemma {:induction false} StringIs(s: Bytes) returns (b: Bytes)
    requires ReadStr(s).Parsed?
    ensures IsString(b, ReadStr(s).value) && s == b + ReadStr(s).rest
  {
    var h := HeadIs(STR, s);
    var n, after := ReadHead(STR, s).value, ReadHead(STR, s).rest;
    TakeIs(after, n);
    b := h + Take(after, n).value;
    Associate(h, Take(after, n).value, Take(after, n).rest);
  }

  lemma {:induction false} BinaryReads(b: Bytes, v: Bytes, rest: Bytes)
    requires IsBinary(b, v)
    ensures ReadBin(b + rest) == Parsed(v, rest)
  {
    var h :| IsHead(BIN, h, |v|) && b == h + v;
    HeadReads(BIN, h, |v|, v + rest);
    TakeBack(h, v, rest);
  }

  lemma {:induction false} BinaryIs(s: Bytes) returns (b: Bytes)
    requires ReadBin(s).Parsed?
    ensures IsBinary(b, ReadBin(s).value) && s == b + ReadBin(s).rest
  {
    var h := HeadIs(BIN, s);
    var n, after := ReadHead(BIN, s).value, ReadHead(BIN, s).rest;
    TakeIs(after, n);
    b := h + Take(after, n).value;
    Associate(h, Take(after, n).value, Take(after, n).rest);
  }

  lemma {:induction false} NumberReads(b: Bytes, n: nat, rest: Bytes)
    requires IsNumber(b, n)
    ensures ReadU64(b + rest) == Parsed(n, rest)
  {
    Limits();
    UintReads(0xcf, n, 8, rest);
  }

  lemma {:induction false} NumberIs(s: Bytes) returns (b: Bytes)
    requires ReadU64(s).Parsed?
    ensures IsNumber(b, ReadU64(s).value) && s == b + ReadU64(s).rest
  {
    Limits();
    UintIs(s, 8);
    b := [s[0]] + BigEndian(ReadU64(s).value, 8);
  }

  /** A string is read if and only if the bytes begin with one, in any of its forms; so are the others. */
  lemma StringExactly(s: Bytes, v: Bytes, rest: Bytes)
    ensures ReadStr(s) == Parsed(v, rest) <==> exists b :: IsString(b, v) && s == b + rest
  {
    if ReadStr(s) == Parsed(v, rest) {
      var b := StringIs(s);
    }
    forall b | IsString(b, v) && s == b + rest
      ensures ReadStr(s) == Parsed(v, rest)
    {
      StringReads(b, v, rest);
    }
  }

  lemma BinaryExactly(s: Bytes, v: Bytes, rest: Bytes)
    ensures ReadBin(s) == Parsed(v, rest) <==> exists b :: IsBinary(b, v) && s == b + rest
  {
    if ReadBin(s) == Parsed(v, rest) {
      var b := BinaryIs(s);
    }
    forall b | IsBinary(b, v) && s == b + rest
      ensures ReadBin(s) == Parsed(v, rest)
    {
      BinaryReads(b, v, rest);
    }
  }

  // ---- lists of strings ----

  ghost predicate IsStrings(b: Bytes, vs: seq<Bytes>)
    decreases |vs|
  {
    if vs == [] then b == [] else exists h, t :: IsString(h, vs[0]) && IsStrings(t, vs[1..]) && b == h + t
  }

  lemma {:induction false} NextString(b: Bytes, vs: seq<Bytes>) returns (h: Bytes, t: Bytes)
    requires vs != [] && IsStrings(b, vs)
    ensures IsString(h, vs[0]) && IsStrings(t, vs[1..]) && b == h + t
  {
    h, t :| IsString(h, vs[0]) && IsStrings(t, vs[1..]) && b == h + t;
  }

  lemma {:induction false} OneMore(b: Bytes, h: Bytes, t: Bytes, vs: seq<Bytes>, rest: Bytes)
    requires vs != [] && IsString(h, vs[0]) && b == h + t
    requires ReadStrs(t + rest, |vs| - 1) == Parsed(vs[1..], rest)
    ensures ReadStrs(b + rest, |vs|) == Parsed(vs, rest)
  {
    StringReads(h, vs[0], t + rest);
    Associate(h, t, rest);
    assert vs == [vs[0]] + vs[1..];
  }

  lemma {:induction false} StringsRead(b: Bytes, vs: seq<Bytes>, rest: Bytes)
    requires IsStrings(b, vs)
    ensures ReadStrs(b + rest, |vs|) == Parsed(vs, rest)
    decreases |vs|
  {
    if vs == [] {
      assert b + rest == rest;
    } else {
      var h, t := NextString(b, vs);
      StringsRead(t, vs[1..], rest);
      OneMore(b, h, t, vs, rest);
    }
  }

  lemma {:induction false} StringsAre(s: Bytes, n: nat) returns (b: Bytes)
    requires ReadStrs(s, n).Parsed?
    ensures |ReadStrs(s, n).value| == n && IsStrings(b, ReadStrs(s, n).value) && s == b + ReadStrs(s, n).rest
    decreases n
  {
    if n == 0 {
      b := [];
    } else {
      var h := StringIs(s);
      var after := ReadStr(s).rest;
      var t := StringsAre(after, n - 1);
      b := h + t;
      var vs := ReadStrs(s, n).value;
      assert vs[0] == ReadStr(s).value && vs[1..] == ReadStrs(after, n - 1).value;
      Associate(h, t, ReadStrs(s, n).rest);
    }
  }

  // ---- proofs ----

  /** The bytes of a record's fields, in order. */
  datatype ProofFields = ProofFields(head: Bytes, action: Bytes, target: Bytes, count: Bytes, targets: Bytes,
                                     expires: Bytes, ephemeral: Bytes, data: Bytes)

  ghost predicate FieldsOf(p: ProofFields, c: ProofContent) {
    && IsHead(ARRAY, p.head, 6)
    && IsString(p.action, Ascii(ActionName(c.action))) && IsString(p.target, Ascii(TargetName(c.target)))
    && IsHead(ARRAY, p.count, |c.targets|) && IsStrings(p.targets, c.targets)
    && IsNumber(p.expires, c.expires) && IsBinary(p.ephemeral, c.ephemeral) && IsBinary(p.data, c.data)
  }

  function TailBytes(p: ProofFields, rest: Bytes): Bytes {
    p.expires + (p.ephemeral + (p.data + rest))
  }

  function ProofBytes(p: ProofFields, rest: Bytes): Bytes {
    p.head + (p.action + (p.target + (p.count + (p.targets + TailBytes(p, rest)))))
  }

  lemma {:induction false} TailReads(p: ProofFields, c: ProofContent, rest: Bytes)
    requires FieldsOf(p, c)
    ensures ReadProofTail(c.action, c.target, c.targets, TailBytes(p, rest)) == Parsed(c, rest)
  {
    NumberReads(p.expires, c.expires, p.ephemeral + (p.data + rest));
    BinaryReads(p.ephemeral, c.ephemeral, p.data + rest);
    BinaryReads(p.data, c.data, rest);
  }

  lemma {:induction false} TargetsRead(p: ProofFields, c: ProofContent, rest: Bytes)
    requires FieldsOf(p, c)
    ensures ReadTargets(c.action, c.target, p.count + (p.targets + TailBytes(p, rest))) == Parsed(c, rest)
  {
    HeadReads(ARRAY, p.count, |c.targets|, p.targets + TailBytes(p, rest));
    StringsRead(p.targets, c.targets, TailBytes(p, rest));
    TailReads(p, c, rest);
  }

  lemma {:induction false} NamedReads<T>(b: Bytes, name: Bytes, rest: Bytes, of: Bytes -> Option<T>, t: T)
    requires IsString(b, name) && of(name) == Some(t)
    ensures ReadNamed(b + rest, of) == Parsed(t, rest)
  {
    StringReads(b, name, rest);
  }

  lemma {:induction false} ProofReads(p: ProofFields, c: ProofContent, rest: Bytes, actionOf: Bytes -> Option<ActionType>,
                                      targetOf: Bytes -> Option<Target>)
    requires FieldsOf(p, c)
    requires actionOf(Ascii(ActionName(c.action))) == Some(c.action)
    requires targetOf(Ascii(TargetName(c.target))) == Some(c.target)
    ensures ReadProofBy(ProofBytes(p, rest), actionOf, targetOf) == Parsed(c, rest)
  {
    var s3 := p.count + (p.targets + TailBytes(p, rest));
    var s2 := p.target + s3;
    var s1 := p.action + s2;
    HeadReads(ARRAY, p.head, 6, s1);
    NamedReads(p.action, Ascii(ActionName(c.action)), s2, actionOf, c.action);
    NamedReads(p.target, Ascii(TargetName(c.target)), s3, targetOf, c.target);
    TargetsRead(p, c, rest);
    ReadInTurn(c, s1, s2, s3, rest, actionOf, targetOf);
  }

  lemma {:induction false} TailIs(a: ActionType, t: Target, targets: seq<Bytes>, s: Bytes)
    returns (expires: Bytes, ephemeral: Bytes, data: Bytes)
    requires ReadProofTail(a, t, targets, s).Parsed?
    ensures var c := ReadProofTail(a, t, targets, s).value; var rest := ReadProofTail(a, t, targets, s).rest;
      && c.action == a && c.target == t && c.targets == targets
      && IsNumber(expires, c.expires) && IsBinary(ephemeral, c.ephemeral) && IsBinary(data, c.data)
      && s == expires + (ephemeral + (data + rest))
  {
    expires := NumberIs(s);
    var s1 := ReadU64(s).rest;
    ephemeral := BinaryIs(s1);
    data := BinaryIs(ReadBin(s1).rest);
  }

  lemma {:induction false} TargetsAre(a: ActionType, t: Target, s: Bytes) returns (p: ProofFields)
    requires ReadTargets(a, t, s).Parsed?
    ensures var c := ReadTargets(a, t, s).value; var rest := ReadTargets(a, t, s).rest;
      && c.action == a && c.target == t
      && IsHead(ARRAY, p.count, |c.targets|) && IsStrings(p.targets, c.targets)
      && IsNumber(p.expires, c.expires) && IsBinary(p.ephemeral, c.ephemeral) && IsBinary(p.data, c.data)
      && s == p.count + (p.targets + TailBytes(p, rest))
  {
    var count := HeadIs(ARRAY, s);
    var s1 := ReadArrayLen(s).rest;
    var targets := StringsAre(s1, ReadArrayLen(s).value);
    var read := ReadStrs(s1, ReadArrayLen(s).value);
    var expires, ephemeral, data := TailIs(a, t, read.value, read.rest);
    p := ProofFields([], [], [], count, targets, expires, ephemeral, data);
  }

  lemma {:induction false} ProofIs(s: Bytes, actionOf: Bytes -> Option<ActionType>, targetOf: Bytes -> Option<Target>)
    returns (p: ProofFields)
    requires ReadProofBy(s, actionOf, targetOf).Parsed?
    requires forall name, a :: actionOf(name) == Some(a) ==> name == Ascii(ActionName(a))
    requires forall name, t :: targetOf(name) == Some(t) ==> name == Ascii(TargetName(t))
    ensures var read := ReadProofBy(s, actionOf, targetOf); FieldsOf(p, read.value) && s == ProofBytes(p, read.rest)
  {
    var head := HeadIs(ARRAY, s);
    var s1 := ReadArrayLen(s).rest;
    var action := StringIs(s1);
    var s2 := ReadStr(s1).rest;
    var target := StringIs(s2);
    var s3 := ReadStr(s2).rest;
    var q := TargetsAre(actionOf(ReadStr(s1).value).value, targetOf(ReadStr(s2).value).value, s3);
    p := q.(head := head, action := action, target := target);
  }

  /** A proof content is read if and only if the bytes begin with its six fields, in order and each in one of its forms. */
  lemma ProofExactly(s: Bytes, c: ProofContent, rest: Bytes)
    ensures ReadProof(s) == Parsed(c, rest) <==> exists p :: FieldsOf(p, c) && s == ProofBytes(p, rest)
  {
    if ReadProof(s) == Parsed(c, rest) {
      forall name, a | ActionFromName(name) == Some(a)
        ensures name == Ascii(ActionName(a))
      {
        ActionNamesExactly(name, a);
      }
      forall name, t | TargetFromName(name) == Some(t)
        ensures name == Ascii(TargetName(t))
      {
        TargetNamesExactly(name, t);
      }
      var p := ProofIs(s, ActionFromName, TargetFromName);
    }
    forall p | FieldsOf(p, c) && s == ProofBytes(p, rest)
      ensures ReadProof(s) == Parsed(c, rest)
    {
      ActionNamesExactly(Ascii(ActionName(c.action)), c.action);
      TargetNamesExactly(Ascii(TargetName(c.target)), c.target);
      ProofReads(p, c, rest, ActionFromName, TargetFromName);
    }
  }

  // ---- ephemerals ----

  datatype EphemeralFields = EphemeralFields(head: Bytes, user: Bytes, expires: Bytes, state: Bytes, name: Bytes, data: Bytes)

  ghost predicate EphemeralFieldsOf(p: EphemeralFields, c: EphemeralContent) {
    && IsHead(ARRAY, p.head, 5) && IsString(p.user, c.userId) && IsNumber(p.expires, c.expires)
    && IsBinary(p.state, c.state) && IsString(p.name, Ascii(KeyName(c.ephType))) && IsBinary(p.data, c.data)
  }

  function EphemeralBytes(p: EphemeralFields, rest: Bytes): Bytes {
    p.head + (p.user + (p.expires + (p.state + (p.name + (p.data + rest)))))
  }

  lemma {:induction false} EphemeralReads(p: EphemeralFields, c: EphemeralContent, rest: Bytes,
                                          typeOf: Bytes -> Option<EphemeralType>)
    requires EphemeralFieldsOf(p, c) && typeOf(Ascii(KeyName(c.ephType))) == Some(c.ephType)
    ensures ReadEphemeralBy(EphemeralBytes(p, rest), typeOf) == Content(c)
  {
    var s5 := p.data + rest;
    var s4 := p.name + s5;
    var s3 := p.state + s4;
    var s2 := p.expires + s3;
    HeadReads(ARRAY, p.head, 5, p.user + s2);
    StringReads(p.user, c.userId, s2);
    NumberReads(p.expires, c.expires, s3);
    BinaryReads(p.state, c.state, s4);
    StringReads(p.name, Ascii(KeyName(c.ephType)), s5);
    BinaryReads(p.data, c.data, rest);
  }

  lemma {:induction false} EphemeralIs(s: Bytes, typeOf: Bytes -> Option<EphemeralType>)
    returns (p: EphemeralFields, rest: Bytes)
    requires ReadEphemeralBy(s, typeOf).Content?
    requires forall name, t :: typeOf(name) == Some(t) ==> name == Ascii(KeyName(t))
    ensures EphemeralFieldsOf(p, ReadEphemeralBy(s, typeOf).content) && s == EphemeralBytes(p, rest)
  {
    var head := HeadIs(ARRAY, s);
    var s1 := ReadArrayLen(s).rest;
    var user := StringIs(s1);
    var s2 := ReadStr(s1).rest;
    var expires := NumberIs(s2);
    var s3 := ReadU64(s2).rest;
    var state := BinaryIs(s3);
    var s4 := ReadBin(s3).rest;
    var name := StringIs(s4);
    var s5 := ReadStr(s4).rest;
    var data := BinaryIs(s5);
    p, rest := EphemeralFields(head, user, expires, state, name, data), ReadBin(s5).rest;
  }

  /** An ephemeral content is read if and only if the bytes begin with its five fields, in order, each in one of its forms. */
  lemma EphemeralExactly(s: Bytes, c: EphemeralContent)
    ensures ReadEphemeral(s) == Content(c) <==> exists p, rest :: EphemeralFieldsOf(p, c) && s == EphemeralBytes(p, rest)
  {
    if ReadEphemeral(s) == Content(c) {
      forall name, t | FromKeyName(name) == Some(t)
        ensures name == Ascii(KeyName(t))
      {
        KeyNamesExactly(name, t);
      }
      var p, rest := EphemeralIs(s, FromKeyName);
    }
    forall p, rest | EphemeralFieldsOf(p, c) && s == EphemeralBytes(p, rest)
      ensures ReadEphemeral(s) == Content(c)
    {
      KeyNamesExactly(Ascii(KeyName(c.ephType)), c.ephType);
      EphemeralReads(p, c, rest, FromKeyName);
    }
  }
}
