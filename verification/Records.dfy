/** The two records that are stored as MessagePack arrays: the content of a proof and the content of an ephemeral. */
module Records {
  import opened Common
  import opened MessagePack
  import opened Names

  // ---- lists of strings ----

  ghost function StrsThen(ts: seq<Bytes>, rest: Bytes): Bytes {
    if ts == [] then rest else WriteStr(ts[0]) + StrsThen(ts[1..], rest)
  }

  ghost function ReadStrs(s: Bytes, n: nat): Parsed<seq<Bytes>> {
    if n == 0 then Parsed([], s)
    else
      match ReadStr(s)
      case Failed => Failed
      case Parsed(t, rest) => Prefixed([t], ReadStrs(rest, n - 1))
  }

  ghost function Prefixed(ts: seq<Bytes>, p: Parsed<seq<Bytes>>): Parsed<seq<Bytes>> {
    match p
    case Failed => Failed
    case Parsed(us, rest) => Parsed(ts + us, rest)
  }

  lemma PrefixedTwice(ts: seq<Bytes>, t: Bytes, p: Parsed<seq<Bytes>>)
    ensures Prefixed(ts, Prefixed([t], p)) == Prefixed(ts + [t], p)
    ensures Prefixed([], p) == p
  {
    match p
    case Failed =>
    case Parsed(us, rest) => assert ts + ([t] + us) == (ts + [t]) + us && [] + us == us;
  }

  ghost predicate Strings(ts: seq<Bytes>) {
    |ts| < U32 && forall i :: 0 <= i < |ts| ==> |ts[i]| < U32 && Utf8(ts[i])
  }

  lemma {:induction false} StrsBack(ts: seq<Bytes>, rest: Bytes)
    requires forall i :: 0 <= i < |ts| ==> |ts[i]| < U32 && Utf8(ts[i])
    ensures ReadStrs(StrsThen(ts, rest), |ts|) == Parsed(ts, rest)
    decreases |ts|
  {
    if ts != [] {
      StrBack(ts[0], StrsThen(ts[1..], rest));
      StrsBack(ts[1..], rest);
      assert ts == [ts[0]] + ts[1..];
    }
  }

  method WriteStrs(buf: Bytes, ts: seq<Bytes>, ghost rest: Bytes) returns (out: Bytes)
    ensures out + rest == buf + StrsThen(ts, rest)
  {
    out := buf;
    for i := 0 to |ts|
      invariant out + StrsThen(ts[i..], rest) == buf + StrsThen(ts, rest)
    {
      assert ts[i..][0] == ts[i] && ts[i..][1..] == ts[i + 1..];
      Associate(out, WriteStr(ts[i]), StrsThen(ts[i + 1..], rest));
      out := out + WriteStr(ts[i]);
    }
  }

  method NextStrs(cursor: Cursor, n: nat) returns (r: Option<seq<Bytes>>)
    requires cursor.Valid()
    modifies cursor
    ensures cursor.Valid()
    ensures Reads(r, ReadStrs(old(cursor.Rest()), n), cursor.Rest())
  {
    var ts: seq<Bytes> := [];
    ghost var whole := ReadStrs(cursor.Rest(), n);
    PrefixedTwice([], [], whole);
    for i := 0 to n
      invariant cursor.Valid()
      invariant whole == Prefixed(ts, ReadStrs(cursor.Rest(), n - i))
    {
      ghost var before := cursor.Rest();
      var t := cursor.NextStr();
      if t.None? {
        return None;
      }
      PrefixedTwice(ts, t.value, ReadStrs(cursor.Rest(), n - i - 1));
      ts := ts + [t.value];
    }
    assert ts + [] == ts;
    r := Some(ts);
  }

  // ---- names ----

  ghost function ReadNamed<T>(s: Bytes, of: Bytes -> Option<T>): Parsed<T> {
    match ReadStr(s)
    case Failed => Failed
    case Parsed(name, rest) => if of(name).None? then Failed else Parsed(of(name).value, rest)
  }

  method NextNamed<T>(cursor: Cursor, of: Bytes -> Option<T>) returns (r: Option<T>)
    requires cursor.Valid()
    modifies cursor
    ensures cursor.Valid()
    ensures Reads(r, ReadNamed(old(cursor.Rest()), of), cursor.Rest())
  {
    var name := cursor.NextStr();
    r := if name.None? then None else of(name.value);
  }

  // ---- proof content ----

  datatype ProofContent = ProofContent(action: ActionType, target: Target, targets: seq<Bytes>, expires: nat,
                                       ephemeral: Bytes, data: Bytes)

  datatype InvalidProof = InvalidProof

  ghost predicate ProofStorable(c: ProofContent) {
    Strings(c.targets) && c.expires < U64 && |c.ephemeral| < U32 && |c.data| < U32
  }

  /** The fields of a proof content in order, followed by other bytes. */
  ghost function ProofThen(c: ProofContent, rest: Bytes): Bytes {
    WriteArrayLen(6) + (WriteStr(Ascii(ActionName(c.action))) + (WriteStr(Ascii(TargetName(c.target)))
    + (WriteArrayLen(|c.targets|) + StrsThen(c.targets, ProofTail(c, rest)))))
  }

  ghost function ProofTail(c: ProofContent, rest: Bytes): Bytes {
    WriteU64(c.expires) + (WriteBin(c.ephemeral) + (WriteBin(c.data) + rest))
  }

  ghost function ReadProofTail(a: ActionType, t: Target, targets: seq<Bytes>, s: Bytes): Parsed<ProofContent> {
    match ReadU64(s)
    case Failed => Failed
    case Parsed(expires, s1) =>
      match ReadBin(s1)
      case Failed => Failed
      case Parsed(ephemeral, s2) =>
        match ReadBin(s2)
        case Failed => Failed
        case Parsed(data, s3) => Parsed(ProofContent(a, t, targets, expires, ephemeral, data), s3)
  }

  ghost function ReadTargets(a: ActionType, t: Target, s: Bytes): Parsed<ProofContent> {
    match ReadArrayLen(s)
    case Failed => Failed
    case Parsed(n, s1) =>
      match ReadStrs(s1, n)
      case Failed => Failed
      case Parsed(targets, s2) => ReadProofTail(a, t, targets, s2)
  }

  ghost function ReadTarget(a: ActionType, s: Bytes, targetOf: Bytes -> Option<Target>): Parsed<ProofContent> {
    match ReadNamed(s, targetOf)
    case Failed => Failed
    case Parsed(t, s1) => ReadTargets(a, t, s1)
  }

  ghost function ReadAction(s: Bytes, actionOf: Bytes -> Option<ActionType>, targetOf: Bytes -> Option<Target>)
    : Parsed<ProofContent>
  {
    match ReadNamed(s, actionOf)
    case Failed => Failed
    case Parsed(a, s1) => ReadTarget(a, s1, targetOf)
  }

  ghost function ReadProofBy(s: Bytes, actionOf: Bytes -> Option<ActionType>, targetOf: Bytes -> Option<Target>)
    : Parsed<ProofContent>
  {
    match ReadArrayLen(s)
    case Failed => Failed
    case Parsed(n, s1) => if n != 6 then Failed else ReadAction(s1, actionOf, targetOf)
  }

  /** What `ProofContent::deserialize` accepts; bytes after the last field are ignored. */
  ghost function ReadProof(s: Bytes): Parsed<ProofContent> {
    ReadProofBy(s, ActionFromName, TargetFromName)
  }

  lemma ProofTailBack(c: ProofContent, rest: Bytes)
    requires ProofStorable(c)
    ensures ReadProofTail(c.action, c.target, c.targets, ProofTail(c, rest)) == Parsed(c, rest)
  {
    U64Back(c.expires, WriteBin(c.ephemeral) + (WriteBin(c.data) + rest));
    BinBack(c.ephemeral, WriteBin(c.data) + rest);
    BinBack(c.data, rest);
  }

  lemma TargetsBack(c: ProofContent, rest: Bytes)
    requires ProofStorable(c)
    ensures ReadTargets(c.action, c.target, WriteArrayLen(|c.targets|) + StrsThen(c.targets, ProofTail(c, rest)))
         == Parsed(c, rest)
  {
    HeadBack(ARRAY, |c.targets|, StrsThen(c.targets, ProofTail(c, rest)));
    StrsBack(c.targets, ProofTail(c, rest));
    ProofTailBack(c, rest);
  }

  lemma NameBack(name: string, rest: Bytes)
    requires IsAscii(name) && |name| <= 14
    ensures ReadStr(WriteStr(Ascii(name)) + rest) == Parsed(Ascii(name), rest)
  {
    AsciiIsUtf8(Ascii(name));
    StrBack(Ascii(name), rest);
  }

  lemma NamedBack<T>(name: string, rest: Bytes, of: Bytes -> Option<T>, t: T)
    requires IsAscii(name) && |name| <= 14 && of(Ascii(name)) == Some(t)
    ensures ReadNamed(WriteStr(Ascii(name)) + rest, of) == Parsed(t, rest)
  {
    NameBack(name, rest);
  }

  lemma ReadInTurn(c: ProofContent, s1: Bytes, s2: Bytes, s3: Bytes, rest: Bytes, actionOf: Bytes -> Option<ActionType>,
                   targetOf: Bytes -> Option<Target>)
    requires ReadNamed(s1, actionOf) == Parsed(c.action, s2) && ReadNamed(s2, targetOf) == Parsed(c.target, s3)
    requires ReadTargets(c.action, c.target, s3) == Parsed(c, rest)
    ensures ReadAction(s1, actionOf, targetOf) == Parsed(c, rest)
  {
  }

  lemma ProofBackBy(c: ProofContent, rest: Bytes, actionOf: Bytes -> Option<ActionType>,
                    targetOf: Bytes -> Option<Target>)
    requires ProofStorable(c)
    requires actionOf(Ascii(ActionName(c.action))) == Some(c.action)
    requires targetOf(Ascii(TargetName(c.target))) == Some(c.target)
    ensures ReadProofBy(ProofThen(c, rest), actionOf, targetOf) == Parsed(c, rest)
  {
    var s3 := WriteArrayLen(|c.targets|) + StrsThen(c.targets, ProofTail(c, rest));
    var s2 := WriteStr(Ascii(TargetName(c.target))) + s3;
    var s1 := WriteStr(Ascii(ActionName(c.action))) + s2;
    HeadBack(ARRAY, 6, s1);
    NamedBack(ActionName(c.action), s2, actionOf, c.action);
    NamedBack(TargetName(c.target), s3, targetOf, c.target);
    TargetsBack(c, rest);
    ReadInTurn(c, s1, s2, s3, rest, actionOf, targetOf);
  }

  /** Reading a proof content undoes writing it, for all field sizes, whatever bytes follow. */
  lemma ProofBack(c: ProofContent, rest: Bytes)
    requires ProofStorable(c)
    ensures ReadProof(ProofThen(c, rest)) == Parsed(c, rest)
  {
    ActionNameBack(c.action);
    TargetNamesExactly(Ascii(TargetName(c.target)), c.target);
    ProofBackBy(c, rest, ActionFromName, TargetFromName);
  }

  method SerializeProof(c: ProofContent) returns (buf: Bytes)
    ensures buf == ProofThen(c, [])
  {
    ghost var s4 := ProofTail(c, []);
    ghost var s3 := StrsThen(c.targets, s4);
    ghost var s2 := WriteArrayLen(|c.targets|) + s3;
    ghost var s1 := WriteStr(Ascii(TargetName(c.target))) + s2;
    buf := WriteArrayLen(6);
    Associate(buf, WriteStr(Ascii(ActionName(c.action))), s1);
    buf := buf + WriteStr(Ascii(ActionName(c.action)));
    Associate(buf, WriteStr(Ascii(TargetName(c.target))), s2);
    buf := buf + WriteStr(Ascii(TargetName(c.target)));
    Associate(buf, WriteArrayLen(|c.targets|), s3);
    buf := buf + WriteArrayLen(|c.targets|);
    buf := WriteStrs(buf, c.targets, s4);
    Associate(buf, WriteU64(c.expires), WriteBin(c.ephemeral) + (WriteBin(c.data) + []));
    buf := buf + WriteU64(c.expires);
    Associate(buf, WriteBin(c.ephemeral), WriteBin(c.data) + []);
    buf := buf + WriteBin(c.ephemeral);
    Associate(buf, WriteBin(c.data), []);
    buf := buf + WriteBin(c.data);
  }

  method NextTargets(cursor: Cursor, action: ActionType, target: Target) returns (r: Option<ProofContent>)
    requires cursor.Valid()
    modifies cursor
    ensures cursor.Valid()
    ensures Reads(r, ReadTargets(action, target, old(cursor.Rest())), cursor.Rest())
  {
    var count := cursor.ReadLen(ARRAY);
    if count.None? {
      return None;
    }
    var targets := NextStrs(cursor, count.value);
    if targets.None? {
      return None;
    }
    var expires := cursor.NextU64();
    if expires.None? {
      return None;
    }
    var ephemeral := cursor.NextBin();
    if ephemeral.None? {
      return None;
    }
    var data := cursor.NextBin();
    if data.None? {
      return None;
    }
    r := Some(ProofContent(action, target, targets.value, expires.value, ephemeral.value, data.value));
  }

  method NextProof(cursor: Cursor, actionOf: Bytes -> Option<ActionType>, targetOf: Bytes -> Option<Target>)
    returns (r: Option<ProofContent>)
    requires cursor.Valid()
    modifies cursor
    ensures cursor.Valid()
    ensures Reads(r, ReadAction(old(cursor.Rest()), actionOf, targetOf), cursor.Rest())
  {
    var action := NextNamed(cursor, actionOf);
    if action.None? {
      return None;
    }
    var target := NextNamed(cursor, targetOf);
    if target.None? {
      return None;
    }
    r := NextTargets(cursor, action.value, target.value);
  }

  method NextProofRecord(cursor: Cursor, actionOf: Bytes -> Option<ActionType>, targetOf: Bytes -> Option<Target>)
    returns (r: Option<ProofContent>)
    requires cursor.Valid()
    modifies cursor
    ensures cursor.Valid()
    ensures Reads(r, ReadProofBy(old(cursor.Rest()), actionOf, targetOf), cursor.Rest())
  {
    var arrayLen := cursor.ReadLen(ARRAY);
    if arrayLen != Some(6) {
      return None;
    }
    r := NextProof(cursor, actionOf, targetOf);
  }

  method DeserializeProof(bytes: Bytes) returns (r: Result<ProofContent, InvalidProof>)
    ensures r == match ReadProof(bytes) case Parsed(c, _) => Ok(c) case Failed => Err(InvalidProof)
  {
    var cursor := new Cursor(bytes);
    var content := NextProofRecord(cursor, ActionFromName, TargetFromName);
    r := if content.Some? then Ok(content.value) else Err(InvalidProof);
  }

  method ProofRoundTrip(c: ProofContent) returns (bytes: Bytes, back: Result<ProofContent, InvalidProof>)
    requires ProofStorable(c)
    ensures back == Ok(c)
  {
    bytes := SerializeProof(c);
    ProofBack(c, []);
    back := DeserializeProof(bytes);
  }

  // ---- ephemeral content ----

  datatype EphemeralContent = EphemeralContent(userId: Bytes, expires: nat, state: Bytes, ephType: EphemeralType,
                                               data: Bytes)

  /** The type's name is read with `unwrap`, so a bad string there panics. */
  datatype EphemeralResult = Content(content: EphemeralContent) | InvalidEphemeral | Panic

  ghost predicate EphemeralStorable(c: EphemeralContent) {
    |c.userId| < U32 && Utf8(c.userId) && c.expires < U64 && |c.state| < U32 && |c.data| < U32
  }

  ghost function EphemeralThen(c: EphemeralContent, rest: Bytes): Bytes {
    WriteArrayLen(5) + (WriteStr(c.userId) + (WriteU64(c.expires) + (WriteBin(c.state)
    + (WriteStr(Ascii(KeyName(c.ephType))) + (WriteBin(c.data) + rest)))))
  }

  ghost function ReadType(userId: Bytes, expires: nat, state: Bytes, s: Bytes, typeOf: Bytes -> Option<EphemeralType>)
    : EphemeralResult
  {
    match ReadStr(s)
    case Failed => Panic
    case Parsed(name, s1) =>
      if typeOf(name).None? then InvalidEphemeral
      else
        match ReadBin(s1)
        case Failed => InvalidEphemeral
        case Parsed(data, _) => Content(EphemeralContent(userId, expires, state, typeOf(name).value, data))
  }

  ghost function ReadUser(s: Bytes, typeOf: Bytes -> Option<EphemeralType>): EphemeralResult {
    match ReadStr(s)
    case Failed => InvalidEphemeral
    case Parsed(userId, s1) =>
      match ReadU64(s1)
      case Failed => InvalidEphemeral
      case Parsed(expires, s2) =>
        match ReadBin(s2)
        case Failed => InvalidEphemeral
        case Parsed(state, s3) => ReadType(userId, expires, state, s3, typeOf)
  }

  ghost function ReadEphemeralBy(s: Bytes, typeOf: Bytes -> Option<EphemeralType>): EphemeralResult {
    match ReadArrayLen(s)
    case Failed => InvalidEphemeral
    case Parsed(n, s1) => if n != 5 then InvalidEphemeral else ReadUser(s1, typeOf)
  }

  ghost function ReadEphemeral(s: Bytes): EphemeralResult {
    ReadEphemeralBy(s, FromKeyName)
  }

  lemma EphemeralBackBy(c: EphemeralContent, rest: Bytes, typeOf: Bytes -> Option<EphemeralType>)
    requires EphemeralStorable(c) && typeOf(Ascii(KeyName(c.ephType))) == Some(c.ephType)
    ensures ReadEphemeralBy(EphemeralThen(c, rest), typeOf) == Content(c)
  {
    var s5 := WriteBin(c.data) + rest;
    var s4 := WriteStr(Ascii(KeyName(c.ephType))) + s5;
    var s3 := WriteBin(c.state) + s4;
    var s2 := WriteU64(c.expires) + s3;
    HeadBack(ARRAY, 5, WriteStr(c.userId) + s2);
    StrBack(c.userId, s2);
    U64Back(c.expires, s3);
    BinBack(c.state, s4);
    NameBack(KeyName(c.ephType), s5);
    BinBack(c.data, rest);
  }

  /** Reading an ephemeral content undoes writing it, for all field sizes, whatever bytes follow. */
  lemma EphemeralBack(c: EphemeralContent, rest: Bytes)
    requires EphemeralStorable(c)
    ensures ReadEphemeral(EphemeralThen(c, rest)) == Content(c)
  {
    KeyNamesExactly(Ascii(KeyName(c.ephType)), c.ephType);
    EphemeralBackBy(c, rest, FromKeyName);
  }

  /** Where the name of the type begins, if everything before it is well-formed. */
  ghost function BeforeType(s: Bytes): Parsed<()> {
    match ReadArrayLen(s)
    case Failed => Failed
    case Parsed(n, s1) =>
      match ReadStr(s1)
      case Failed => Failed
      case Parsed(_, s2) =>
        match ReadU64(s2)
        case Failed => Failed
        case Parsed(_, s3) =>
          match ReadBin(s3)
          case Failed => Failed
          case Parsed(_, s4) => if n == 5 then Parsed((), s4) else Failed
  }

  /**
   * Deserializing panics exactly when the fields up to the state are well-formed and no string can be read after them. A
   * readable string that names no type is an error, and what `serialize` wrote never panics.
   */
  lemma EphemeralPanicsExactly(s: Bytes)
    ensures ReadEphemeral(s) == Panic <==> BeforeType(s).Parsed? && ReadStr(BeforeType(s).rest).Failed?
    ensures forall c, rest :: EphemeralStorable(c) && s == EphemeralThen(c, rest) ==> ReadEphemeral(s) == Content(c)
  {
    forall c, rest | EphemeralStorable(c) && s == EphemeralThen(c, rest)
      ensures ReadEphemeral(s) == Content(c)
    {
      EphemeralBack(c, rest);
    }
    PanicsExactlyBy(s, FromKeyName);
  }

  lemma PanicsExactlyBy(s: Bytes, typeOf: Bytes -> Option<EphemeralType>)
    ensures ReadEphemeralBy(s, typeOf) == Panic <==> BeforeType(s).Parsed? && ReadStr(BeforeType(s).rest).Failed?
  {
  }

  method SerializeEphemeral(c: EphemeralContent) returns (buf: Bytes)
    ensures buf == EphemeralThen(c, [])
  {
    ghost var s4 := WriteBin(c.data) + [];
    ghost var s3 := WriteStr(Ascii(KeyName(c.ephType))) + s4;
    ghost var s2 := WriteBin(c.state) + s3;
    ghost var s1 := WriteU64(c.expires) + s2;
    buf := WriteArrayLen(5);
    Associate(buf, WriteStr(c.userId), s1);
    buf := buf + WriteStr(c.userId);
    Associate(buf, WriteU64(c.expires), s2);
    buf := buf + WriteU64(c.expires);
    Associate(buf, WriteBin(c.state), s3);
    buf := buf + WriteBin(c.state);
    Associate(buf, WriteStr(Ascii(KeyName(c.ephType))), s4);
    buf := buf + WriteStr(Ascii(KeyName(c.ephType)));
    Associate(buf, WriteBin(c.data), []);
    buf := buf + WriteBin(c.data);
  }

  method NextEphemeralType(cursor: Cursor, userId: Bytes, expires: nat, state: Bytes,
                           typeOf: Bytes -> Option<EphemeralType>)
    returns (r: EphemeralResult)
    requires cursor.Valid()
    modifies cursor
    ensures r == ReadType(userId, expires, state, old(cursor.Rest()), typeOf)
  {
    var name := cursor.NextStr();
    if name.None? {
      return Panic;
    }
    var ephType := typeOf(name.value);
    if ephType.None? {
      return InvalidEphemeral;
    }
    var data := cursor.NextBin();
    r := if data.None? then InvalidEphemeral
         else Content(EphemeralContent(userId, expires, state, ephType.value, data.value));
  }

  method NextEphemeral(cursor: Cursor, typeOf: Bytes -> Option<EphemeralType>) returns (r: EphemeralResult)
    requires cursor.Valid()
    modifies cursor
    ensures r == ReadEphemeralBy(old(cursor.Rest()), typeOf)
  {
    var arrayLen := cursor.ReadLen(ARRAY);
    if arrayLen != Some(5) {
      return InvalidEphemeral;
    }
    var userId := cursor.NextStr();
    if userId.None? {
      return InvalidEphemeral;
    }
    var expires := cursor.NextU64();
    if expires.None? {
      return InvalidEphemeral;
    }
    var state := cursor.NextBin();
    if state.None? {
      return InvalidEphemeral;
    }
    r := NextEphemeralType(cursor, userId.value, expires.value, state.value, typeOf);
  }

  method DeserializeEphemeral(bytes: Bytes) returns (r: EphemeralResult)
    ensures r == ReadEphemeral(bytes)
  {
    var cursor := new Cursor(bytes);
    r := NextEphemeral(cursor, FromKeyName);
  }

  method EphemeralRoundTrip(c: EphemeralContent) returns (bytes: Bytes, back: EphemeralResult)
    requires EphemeralStorable(c)
    ensures back == Content(c)
  {
    bytes := SerializeEphemeral(c);
    EphemeralBack(c, []);
    back := DeserializeEphemeral(bytes);
  }
}
