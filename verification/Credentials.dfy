/**
 * Registration, login, sessions and password change as a protocol of interleaved requests. Encryption is ideal: only
 * issued tokens and sessions decrypt. A request reads the user's file in one step and checks or issues in a later one;
 * `register_finish` reads and writes in one transaction.
 */
module Credentials {
  import opened Common
  import opened KeyWindow

  const COUNTER_EXPIRES: nat := 60
  const EXPIRE_TIME: nat := 30 * 24 * 60 * 60
  const CHANGE_AGE: nat := 600

  /** What a token is for, with the state it is bound to. */
  datatype Kind = NewUser | ChangePassword(fileHash: Bytes) | Login(count: nat, until: nat, fileHash: Bytes)

  /** `keyTime` decides the key under which the token is encrypted. */
  datatype Token = Token(user: Bytes, kind: Kind, keyTime: nat, expires: nat)

  datatype Session = Session(user: Bytes, issued: nat, expires: nat, fileHash: Bytes)

  /** The fixed parameters: the hash of password files, the reference time of the keys and how many keys are valid. */
  datatype Config = Config(hash: Bytes -> Bytes, refTime: nat, valid: nat)

  ghost predicate Injective(hash: Bytes -> Bytes) {
    forall a, b :: hash(a) == hash(b) ==> a == b
  }

  // ---- the checks ----

  ghost predicate Decrypts(cfg: Config, t: Token, now: nat) {
    var keys := Last(EPHEMERAL_INTERVAL, now, cfg.refTime, cfg.valid);
    var key := Compute(EPHEMERAL_INTERVAL, t.keyTime, cfg.refTime);
    keys.Some? && key.Some? && key.value in keys.value
  }

  predicate Expired(t: Token, now: nat) {
    now >= t.expires + LEEWAY
  }

  datatype Change = Store(file: Bytes) | Keep | NotFound | StateMismatch | InvalidType | Panic

  /** `user_change_ephemeral`: a new user's token never touches a stored file; a change token is a compare-and-swap. */
  function UserChange(hash: Bytes -> Bytes, t: Token, now: nat, stored: Option<Bytes>, file: Bytes): Change {
    match t.kind
    case NewUser =>
      if stored.Some? then Keep
      else if Expired(t, now) then Panic
      else Store(file)
    case ChangePassword(fileHash) =>
      if stored.None? then NotFound
      else if Expired(t, now) || hash(stored.value) != fileHash then StateMismatch
      else Store(file)
    case Login(_, _, _) => InvalidType
  }

  /** `login_finish`: the second check of `verify_state`, on the file read before. */
  predicate LoginAccepted(hash: Bytes -> Bytes, t: Token, now: nat, used: bool, file: Bytes) {
    t.kind.Login? && !Expired(t, now) && !used && hash(file) == t.kind.fileHash
  }

  /** `SessionContent::verify_max_age` */
  predicate SessionAccepted(hash: Bytes -> Bytes, s: Session, now: nat, maxAge: Option<nat>, file: Bytes) {
    (maxAge.Some? ==> now <= s.issued + maxAge.value) && s.fileHash == hash(file) && now < s.expires + LEEWAY
  }

  /** Only a change of password asks for a recent session. */
  function MaxAge(forChange: bool): Option<nat> {
    if forChange then Some(CHANGE_AGE) else None
  }

  // ---- the user table ----

  class UserTable {
    var users: map<Bytes, Bytes>

    constructor ()
      ensures users == map[]
    {
      users := map[];
    }

    /** `register_finish` inside its write transaction, after the token has been decrypted. */
    method RegisterFinish(hash: Bytes -> Bytes, t: Token, now: nat, file: Bytes) returns (r: Change)
      modifies this
      ensures r == UserChange(hash, t, now, old(Stored(t.user)), file)
      ensures r.Store? ==> users == old(users)[t.user := file]
      ensures !r.Store? ==> users == old(users)
      ensures t.kind.ChangePassword? && r.Store? ==> t.user in old(users) && hash(old(users)[t.user]) == t.kind.fileHash
      ensures t.kind.NewUser? && t.user in old(users) ==> r == Keep
    {
      var stored := Stored(t.user);
      r := UserChange(hash, t, now, stored, file);
      match r {
        case Store(f) => users := users[t.user := f];
        case Keep => users := users[t.user := stored.value];
        case _ =>
      }
    }

    function Stored(user: Bytes): Option<Bytes>
      reads this
    {
      if user in users then Some(users[user]) else None
    }
  }

  // ---- the protocol ----

  datatype Phase =
    | LoginRead(user: Bytes, file: Bytes)                             // `login_start` has read the file
    | FinishRead(token: Token, file: Bytes)                           // `login_finish` has decrypted and read
    | LoggedIn(user: Bytes, fileHash: Bytes)                          // `login_finish` has accepted; a session is next
    | SessionRead(session: Session, file: Bytes, forChange: bool, time: nat)  // the clock and then the file have been read
    | MayChange(user: Bytes, file: Bytes)                             // a change token for this file is next
    | Closed

  /** Something bound to a file hash was accepted for a user. */
  datatype Acceptance = Acceptance(user: Bytes, fileHash: Bytes)

  /** `files` keeps every file a user has had; the last one is stored now. */
  datatype State = State(files: map<Bytes, seq<Bytes>>, tokens: set<Token>, sessions: set<Session>, requests: seq<Phase>,
                         accepted: seq<Acceptance>)

  datatype Action =
    | StartRegister(user: Bytes, time: nat)
    | RegisterFinish(token: Token, time: nat, again: nat, file: Bytes)
    | BeginLogin(user: Bytes)
    | IssueLogin(id: nat, time: nat, count: nat)
    | BeginFinish(token: Token, time: nat)
    | CheckLogin(id: nat, time: nat, used: bool)
    | MakeSession(id: nat, time: nat)
    | BeginSession(session: Session, opens: bool, forChange: bool, time: nat)
    | CheckSession(id: nat)
    | BeginReset(user: Bytes)
    | IssueChange(id: nat, keyTime: nat, time: nat)

  const START := State(map[], {}, {}, [], [])

  function Current(files: map<Bytes, seq<Bytes>>, user: Bytes): Option<Bytes> {
    if user in files && files[user] != [] then Some(files[user][|files[user]| - 1]) else None
  }

  function Stored(files: map<Bytes, seq<Bytes>>, user: Bytes, file: Bytes): map<Bytes, seq<Bytes>> {
    files[user := (if user in files then files[user] else []) + [file]]
  }

  function With(s: State, p: Phase): State {
    State(s.files, s.tokens, s.sessions, s.requests + [p], s.accepted)
  }

  function At(s: State, id: nat, p: Phase): State
    requires id < |s.requests|
  {
    State(s.files, s.tokens, s.sessions, s.requests[id := p], s.accepted)
  }

  function Issue(s: State, t: Token): State {
    State(s.files, s.tokens + {t}, s.sessions, s.requests, s.accepted)
  }

  function Accept(s: State, user: Bytes, fileHash: Bytes): State {
    State(s.files, s.tokens, s.sessions, s.requests, s.accepted + [Acceptance(user, fileHash)])
  }

  ghost function ApplyRegister(cfg: Config, s: State, t: Token, time: nat, again: nat, file: Bytes): State {
    if t !in s.tokens || !Decrypts(cfg, t, time) then s
    else
      match UserChange(cfg.hash, t, again, Current(s.files, t.user), file)
      case Store(f) =>
        var next := State(Stored(s.files, t.user, f), s.tokens, s.sessions, s.requests, s.accepted);
        if t.kind.ChangePassword? then Accept(next, t.user, t.kind.fileHash) else next
      case _ => s
  }

  ghost function ApplyCheckLogin(cfg: Config, s: State, id: nat, time: nat, used: bool): State
    requires id < |s.requests| && s.requests[id].FinishRead?
  {
    var p := s.requests[id];
    if LoginAccepted(cfg.hash, p.token, time, used, p.file)
    then Accept(At(s, id, LoggedIn(p.token.user, cfg.hash(p.file))), p.token.user, p.token.kind.fileHash)
    else At(s, id, Closed)
  }

  ghost function ApplyMakeSession(s: State, id: nat, time: nat): State
    requires id < |s.requests| && s.requests[id].LoggedIn?
  {
    var p := s.requests[id];
    var made := Session(p.user, time, time + EXPIRE_TIME, p.fileHash);
    At(State(s.files, s.tokens, s.sessions + {made}, s.requests, s.accepted), id, Closed)
  }

  ghost function ApplyCheckSession(cfg: Config, s: State, id: nat): State
    requires id < |s.requests| && s.requests[id].SessionRead?
  {
    var p := s.requests[id];
    if SessionAccepted(cfg.hash, p.session, p.time, MaxAge(p.forChange), p.file)
    then
      Accept(At(s, id, if p.forChange then MayChange(p.session.user, p.file) else Closed), p.session.user,
             p.session.fileHash)
    else At(s, id, Closed)
  }

  ghost function Apply(cfg: Config, s: State, a: Action): State {
    match a
    case StartRegister(u, time) => Issue(s, Token(u, NewUser, time, time + EPHEMERAL_INTERVAL * 2))
    case RegisterFinish(t, time, again, file) => ApplyRegister(cfg, s, t, time, again, file)
    case BeginLogin(u) => if Current(s.files, u).Some? then With(s, LoginRead(u, Current(s.files, u).value)) else s
    case IssueLogin(id, time, count) =>
      if id < |s.requests| && s.requests[id].LoginRead? then
        var p := s.requests[id];
        Issue(At(s, id, Closed),
              Token(p.user, Login(count, time + COUNTER_EXPIRES, cfg.hash(p.file)), time, time + COUNTER_EXPIRES))
      else s
    case BeginFinish(t, time) =>
      if t in s.tokens && Decrypts(cfg, t, time) && Current(s.files, t.user).Some?
      then With(s, FinishRead(t, Current(s.files, t.user).value)) else s
    case CheckLogin(id, time, used) =>
      if id < |s.requests| && s.requests[id].FinishRead? then ApplyCheckLogin(cfg, s, id, time, used) else s
    case MakeSession(id, time) =>
      if id < |s.requests| && s.requests[id].LoggedIn? then ApplyMakeSession(s, id, time) else s
    case BeginSession(se, opens, forChange, time) =>
      if se in s.sessions && opens && Current(s.files, se.user).Some?
      then With(s, SessionRead(se, Current(s.files, se.user).value, forChange, time)) else s
    case CheckSession(id) =>
      if id < |s.requests| && s.requests[id].SessionRead? then ApplyCheckSession(cfg, s, id) else s
    case BeginReset(u) => if Current(s.files, u).Some? then With(s, MayChange(u, Current(s.files, u).value)) else s
    case IssueChange(id, keyTime, time) =>
      if id < |s.requests| && s.requests[id].MayChange? then
        var p := s.requests[id];
        Issue(At(s, id, Closed),
              Token(p.user, ChangePassword(cfg.hash(p.file)), keyTime, time + EPHEMERAL_INTERVAL * 2))
      else s
  }

  ghost function Run(cfg: Config, s: State, actions: seq<Action>): State
    decreases |actions|
  {
    if actions == [] then s else Run(cfg, Apply(cfg, s, actions[0]), actions[1..])
  }

  // ---- replacement ----

  /** What one step may do to a stored file. */
  ghost predicate Replaces(cfg: Config, s: State, a: Action, u: Bytes) {
    && a.RegisterFinish? && a.token in s.tokens && a.token.user == u && Decrypts(cfg, a.token, a.time)
    && a.token.kind.ChangePassword? && !Expired(a.token, a.again)
    && Current(s.files, u).Some? && a.token.kind.fileHash == cfg.hash(Current(s.files, u).value)
  }

  /** A stored file is replaced by a matching change token and by nothing else, and the old files are never rewritten. */
  lemma ReplacedExactly(cfg: Config, s: State, a: Action, u: Bytes)
    requires Current(s.files, u).Some?
    ensures var next := Apply(cfg, s, a);
      next.files[u] == if Replaces(cfg, s, a, u) then s.files[u] + [a.file] else s.files[u]
  {
  }

  /** A user without a file gets one from a new user's token, and from nothing else. */
  lemma RegisteredExactly(cfg: Config, s: State, a: Action, u: Bytes)
    requires u !in s.files
    ensures u in Apply(cfg, s, a).files <==>
      && a.RegisterFinish? && a.token in s.tokens && a.token.user == u && Decrypts(cfg, a.token, a.time)
      && a.token.kind.NewUser? && !Expired(a.token, a.again)
  {
  }

  /**
   * A session is accepted, and a change of password may follow, if and only if it is bound to the file that was read, has
   * not expired by the time that was read and, for a change, was made at most ten minutes before; else nothing is accepted.
   */
  lemma SessionCheckedExactly(cfg: Config, s: State, id: nat)
    requires id < |s.requests| && s.requests[id].SessionRead?
    ensures var p, next := s.requests[id], Apply(cfg, s, CheckSession(id));
      var good := && p.session.fileHash == cfg.hash(p.file) && p.time < p.session.expires + 10
                  && (p.forChange ==> p.time <= p.session.issued + 600);
      && next.accepted == s.accepted + (if good then [Acceptance(p.session.user, p.session.fileHash)] else [])
      && next.requests
         == s.requests[id := if good && p.forChange then MayChange(p.session.user, p.file) else Closed]
      && next.files == s.files && next.tokens == s.tokens && next.sessions == s.sessions
  {
  }

  lemma {:induction false} FilesOnlyGrow(cfg: Config, s: State, actions: seq<Action>, u: Bytes)
    requires Current(s.files, u).Some?
    ensures u in Run(cfg, s, actions).files && s.files[u] <= Run(cfg, s, actions).files[u]
    decreases |actions|
  {
    if actions != [] {
      ReplacedExactly(cfg, s, actions[0], u);
      FilesOnlyGrow(cfg, Apply(cfg, s, actions[0]), actions[1..], u);
    }
  }

  // ---- where hashes come from ----

  ghost predicate WasStored(cfg: Config, files: map<Bytes, seq<Bytes>>, u: Bytes, fileHash: Bytes) {
    u in files && exists i :: 0 <= i < |files[u]| && cfg.hash(files[u][i]) == fileHash
  }

  ghost predicate TokenOk(cfg: Config, files: map<Bytes, seq<Bytes>>, t: Token) {
    match t.kind
    case NewUser => true
    case ChangePassword(h) => WasStored(cfg, files, t.user, h)
    case Login(_, _, h) => WasStored(cfg, files, t.user, h)
  }

  ghost predicate PhaseOk(cfg: Config, files: map<Bytes, seq<Bytes>>, p: Phase) {
    match p
    case LoginRead(u, f) => WasStored(cfg, files, u, cfg.hash(f))
    case FinishRead(t, f) => WasStored(cfg, files, t.user, cfg.hash(f))
    case LoggedIn(u, h) => WasStored(cfg, files, u, h)
    case SessionRead(se, f, _, _) => WasStored(cfg, files, se.user, cfg.hash(f))
    case MayChange(u, f) => WasStored(cfg, files, u, cfg.hash(f))
    case Closed => true
  }

  ghost predicate Inv(cfg: Config, s: State) {
    && (forall u :: u in s.files ==> s.files[u] != [])
    && (forall t :: t in s.tokens ==> TokenOk(cfg, s.files, t))
    && (forall se :: se in s.sessions ==> WasStored(cfg, s.files, se.user, se.fileHash))
    && (forall i :: 0 <= i < |s.requests| ==> PhaseOk(cfg, s.files, s.requests[i]))
    && (forall i :: 0 <= i < |s.accepted| ==> WasStored(cfg, s.files, s.accepted[i].user, s.accepted[i].fileHash))
  }

  lemma CurrentWasStored(cfg: Config, files: map<Bytes, seq<Bytes>>, u: Bytes)
    requires Current(files, u).Some?
    ensures WasStored(cfg, files, u, cfg.hash(Current(files, u).value))
  {
    assert cfg.hash(files[u][|files[u]| - 1]) == cfg.hash(Current(files, u).value);
  }

  lemma StoredStaysStored(cfg: Config, files: map<Bytes, seq<Bytes>>, u: Bytes, f: Bytes, v: Bytes, h: Bytes)
    requires WasStored(cfg, files, v, h)
    ensures WasStored(cfg, Stored(files, u, f), v, h)
  {
    var i :| 0 <= i < |files[v]| && cfg.hash(files[v][i]) == h;
    assert cfg.hash(Stored(files, u, f)[v][i]) == h;
  }

  lemma RegisterKeepsInv(cfg: Config, s: State, t: Token, time: nat, again: nat, file: Bytes)
    requires Inv(cfg, s)
    ensures Inv(cfg, Apply(cfg, s, RegisterFinish(t, time, again, file)))
  {
    var next := Apply(cfg, s, RegisterFinish(t, time, again, file));
    if next.files != s.files {
      forall v, h | WasStored(cfg, s.files, v, h)
        ensures WasStored(cfg, next.files, v, h)
      {
        StoredStaysStored(cfg, s.files, t.user, file, v, h);
      }
    }
  }

  lemma WithKeepsInv(cfg: Config, s: State, u: Bytes, p: Phase)
    requires Inv(cfg, s) && Current(s.files, u).Some?
    requires WasStored(cfg, s.files, u, cfg.hash(Current(s.files, u).value)) ==> PhaseOk(cfg, s.files, p)
    ensures Inv(cfg, With(s, p))
  {
    CurrentWasStored(cfg, s.files, u);
  }

  lemma AtKeepsInv(cfg: Config, s: State, id: nat, p: Phase)
    requires Inv(cfg, s) && id < |s.requests| && PhaseOk(cfg, s.files, p)
    ensures Inv(cfg, At(s, id, p))
  {
  }

  lemma IssueKeepsInv(cfg: Config, s: State, t: Token)
    requires Inv(cfg, s) && TokenOk(cfg, s.files, t)
    ensures Inv(cfg, Issue(s, t))
  {
  }

  lemma AcceptKeepsInv(cfg: Config, s: State, u: Bytes, h: Bytes)
    requires Inv(cfg, s) && WasStored(cfg, s.files, u, h)
    ensures Inv(cfg, Accept(s, u, h))
  {
  }

  lemma ReadKeepsInv(cfg: Config, s: State, a: Action)
    requires Inv(cfg, s) && (a.BeginLogin? || a.BeginFinish? || a.BeginSession? || a.BeginReset?)
    ensures Inv(cfg, Apply(cfg, s, a))
  {
    var u := match a
             case BeginLogin(u) => u
             case BeginFinish(t, _) => t.user
             case BeginSession(se, _, _, _) => se.user
             case BeginReset(u) => u;
    if Apply(cfg, s, a) != s {
      var requests := Apply(cfg, s, a).requests;
      WithKeepsInv(cfg, s, u, requests[|requests| - 1]);
    }
  }

  lemma IssuingKeepsInv(cfg: Config, s: State, a: Action)
    requires Inv(cfg, s) && (a.StartRegister? || a.IssueLogin? || a.IssueChange?)
    ensures Inv(cfg, Apply(cfg, s, a))
  {
    match a
    case StartRegister(u, time) => IssueKeepsInv(cfg, s, Token(u, NewUser, time, time + EPHEMERAL_INTERVAL * 2));
    case IssueLogin(id, time, count) =>
      if id < |s.requests| && s.requests[id].LoginRead? {
        var p := s.requests[id];
        AtKeepsInv(cfg, s, id, Closed);
        IssueKeepsInv(cfg, At(s, id, Closed),
          Token(p.user, Login(count, time + COUNTER_EXPIRES, cfg.hash(p.file)), time, time + COUNTER_EXPIRES));
      }
    case IssueChange(id, keyTime, time) =>
      if id < |s.requests| && s.requests[id].MayChange? {
        var p := s.requests[id];
        AtKeepsInv(cfg, s, id, Closed);
        IssueKeepsInv(cfg, At(s, id, Closed),
          Token(p.user, ChangePassword(cfg.hash(p.file)), keyTime, time + EPHEMERAL_INTERVAL * 2));
      }
  }

  lemma CheckLoginKeepsInv(cfg: Config, s: State, id: nat, time: nat, used: bool)
    requires Inv(cfg, s) && id < |s.requests| && s.requests[id].FinishRead?
    ensures Inv(cfg, ApplyCheckLogin(cfg, s, id, time, used))
  {
    var p := s.requests[id];
    var closed := At(s, id, LoggedIn(p.token.user, cfg.hash(p.file)));
    AtKeepsInv(cfg, s, id, LoggedIn(p.token.user, cfg.hash(p.file)));
    AtKeepsInv(cfg, s, id, Closed);
    AcceptKeepsInv(cfg, closed, p.token.user, cfg.hash(p.file));
  }

  lemma CheckSessionKeepsInv(cfg: Config, s: State, id: nat)
    requires Inv(cfg, s) && id < |s.requests| && s.requests[id].SessionRead?
    ensures Inv(cfg, ApplyCheckSession(cfg, s, id))
  {
    var p := s.requests[id];
    var after := if p.forChange then MayChange(p.session.user, p.file) else Closed;
    AtKeepsInv(cfg, s, id, after);
    AtKeepsInv(cfg, s, id, Closed);
    AcceptKeepsInv(cfg, At(s, id, after), p.session.user, cfg.hash(p.file));
  }

  lemma StepKeepsInv(cfg: Config, s: State, a: Action)
    requires Inv(cfg, s)
    ensures Inv(cfg, Apply(cfg, s, a))
  {
    match a
    case RegisterFinish(t, time, again, file) => RegisterKeepsInv(cfg, s, t, time, again, file);
    case CheckLogin(id, time, used) =>
      if id < |s.requests| && s.requests[id].FinishRead? { CheckLoginKeepsInv(cfg, s, id, time, used); }
    case CheckSession(id) =>
      if id < |s.requests| && s.requests[id].SessionRead? { CheckSessionKeepsInv(cfg, s, id); }
    case MakeSession(id, time) =>
      if id < |s.requests| && s.requests[id].LoggedIn? { AtKeepsInv(cfg, s, id, Closed); }
    case StartRegister(_, _) => IssuingKeepsInv(cfg, s, a);
    case IssueLogin(_, _, _) => IssuingKeepsInv(cfg, s, a);
    case IssueChange(_, _, _) => IssuingKeepsInv(cfg, s, a);
    case _ => ReadKeepsInv(cfg, s, a);
  }

  lemma {:induction false} RunKeepsInv(cfg: Config, s: State, actions: seq<Action>)
    requires Inv(cfg, s)
    ensures Inv(cfg, Run(cfg, s, actions))
    decreases |actions|
  {
    if actions != [] {
      StepKeepsInv(cfg, s, actions[0]);
      RunKeepsInv(cfg, Apply(cfg, s, actions[0]), actions[1..]);
    }
  }

  /** Whatever is issued or accepted in any run is bound to a file that was really stored for that user. */
  lemma ReachableIsOk(cfg: Config, actions: seq<Action>)
    ensures Inv(cfg, Run(cfg, START, actions))
  {
    RunKeepsInv(cfg, START, actions);
  }
}
