/**
 * When a change of password ends the life of what was made under the old file, and which requests escape it. The requests
 * run together with the compact set that answers whether a number was used, and with a clock that does not run backwards.
 */
module CutOff {
  import opened Common
  import opened KeyWindow
  import opened CompactSpec
  import opened CompactRuns
  import opened Credentials
  import opened CredentialFlows
  import opened LoginOnce

  datatype World = World(state: State, ranges: seq<CompactRange.Range>)

  /** A step of some request, or a question to the set about a number of another kind. */
  datatype Event = Act(action: Action) | Ask(call: Call)

  /** The login token about which a step asks the set: `verify_state` looks at the expiry and the type first. */
  function Asked(s: State, a: Action): Option<Token> {
    if a.CheckLogin? && a.id < |s.requests| && s.requests[a.id].FinishRead?
      && s.requests[a.id].token.kind.Login? && !Expired(s.requests[a.id].token, a.time)
    then Some(s.requests[a.id].token) else None
  }

  predicate Counted(t: Token) {
    t.kind.Login? ==> t.kind.count >= 1
  }

  predicate HoldsCounted(p: Phase) {
    p.FinishRead? ==> Counted(p.token)
  }

  /** The set starts at 1, and so does the counter. */
  ghost predicate WorldOk(n: nat, w: World) {
    && Valid(n, w.ranges) && w.ranges[0].min == 1
    && (forall t :: t in w.state.tokens ==> Counted(t))
    && (forall i :: 0 <= i < |w.state.requests| ==> HoldsCounted(w.state.requests[i]))
  }

  /** The clock that a finishing login reads shows `now` or later, and the set answers it truthfully. */
  ghost predicate Possible(n: nat, now: nat, w: World, ev: Event)
    requires WorldOk(n, w)
  {
    match ev
    case Ask(c) => c.num >= 1
    case Act(a) =>
      && (a.IssueLogin? ==> a.count >= 1)
      && (a.CheckLogin? ==> a.time >= now)
      && (Asked(w.state, a).Some? ==>
            a.used == NumExists(n, w.ranges, TokenCall(Asked(w.state, a).value, a.time)).1)
  }

  ghost function Ranges(n: nat, now: nat, w: World, ev: Event): seq<CompactRange.Range>
    requires WorldOk(n, w) && Possible(n, now, w, ev)
  {
    match ev
    case Ask(c) => NumExists(n, w.ranges, c).0
    case Act(a) =>
      match Asked(w.state, a)
      case Some(t) => NumExists(n, w.ranges, TokenCall(t, a.time)).0
      case None => w.ranges
  }

  lemma ApplyKeepsCounted(cfg: Config, s: State, a: Action)
    requires forall t :: t in s.tokens ==> Counted(t)
    requires forall i :: 0 <= i < |s.requests| ==> HoldsCounted(s.requests[i])
    requires a.IssueLogin? ==> a.count >= 1
    ensures forall t :: t in Apply(cfg, s, a).tokens ==> Counted(t)
    ensures forall i :: 0 <= i < |Apply(cfg, s, a).requests| ==> HoldsCounted(Apply(cfg, s, a).requests[i])
  {
  }

  /** Whatever is asked, the ranges stay valid, and a number seen below their upper end stays so. */
  lemma RangesKeep(n: nat, now: nat, w: World, ev: Event)
    requires WorldOk(n, w) && Possible(n, now, w, ev)
    ensures var rs := Ranges(n, now, w, ev);
      Valid(n, rs) && rs[0].min == 1 && forall x :: Spent(w.ranges, x) ==> Spent(rs, x)
  {
    match ev
    case Ask(c) => NumExistsExactly(n, w.ranges, c);
    case Act(a) =>
      match Asked(w.state, a)
      case Some(t) => NumExistsExactly(n, w.ranges, TokenCall(t, a.time));
      case None =>
  }

  ghost function Next(cfg: Config, n: nat, now: nat, w: World, ev: Event): (next: World)
    requires WorldOk(n, w) && Possible(n, now, w, ev)
    ensures WorldOk(n, next)
  {
    RangesKeep(n, now, w, ev);
    match ev
    case Ask(_) => World(w.state, Ranges(n, now, w, ev))
    case Act(a) =>
      ApplyKeepsCounted(cfg, w.state, a);
      World(Apply(cfg, w.state, a), Ranges(n, now, w, ev))
  }

  /**
   * A finishing login asks the set, with the number and the expiry it was issued with and the time it has read, unless its
   * token has expired; one that is accepted has its number spent, if that lies below the upper end of the ranges.
   */
  lemma LoginSpendsNumber(cfg: Config, n: nat, now: nat, w: World, a: Action)
    requires WorldOk(n, w) && Possible(n, now, w, Act(a)) && a.CheckLogin?
    requires a.id < |w.state.requests| && w.state.requests[a.id].FinishRead? && w.state.requests[a.id].token.kind.Login?
    ensures var t := w.state.requests[a.id].token; var next := Next(cfg, n, now, w, Act(a));
      && 1 <= t.kind.count
      && next.ranges == (if a.time < t.expires + 10
                         then NumExists(n, w.ranges, Call(t.kind.count, t.kind.until, Some(a.time))).0 else w.ranges)
      && (next.state.accepted != w.state.accepted && t.kind.count < LastMax(w.ranges) ==> Spent(next.ranges, t.kind.count))
  {
    var t := w.state.requests[a.id].token;
    assert HoldsCounted(w.state.requests[a.id]);
    NumExistsExactly(n, w.ranges, TokenCall(t, a.time));
  }

  ghost predicate Runs(cfg: Config, n: nat, now: nat, w: World, events: seq<Event>, v: World)
    requires WorldOk(n, w)
    decreases |events|
  {
    if events == [] then v == w
    else Possible(n, now, w, events[0]) && Runs(cfg, n, now, Next(cfg, n, now, w, events[0]), events[1..], v)
  }

  /** In every state of the run the user's stored file is another one. */
  ghost predicate Away(cfg: Config, n: nat, now: nat, w: World, events: seq<Event>, u: Bytes, f: Bytes)
    requires WorldOk(n, w)
    decreases |events|
  {
    && Current(w.state.files, u) != Some(f)
    && (events != [] && Possible(n, now, w, events[0]) ==>
          Away(cfg, n, now, Next(cfg, n, now, w, events[0]), events[1..], u, f))
  }

  ghost predicate NoneAccepted(log: seq<Acceptance>, start: nat, u: Bytes, fileHash: Bytes) {
    forall i :: start <= i < |log| && log[i].user == u ==> log[i].fileHash != fileHash
  }

  /** The number is used, and remembered from here on. */
  ghost predicate Spent(rs: seq<CompactRange.Range>, num: nat) {
    |rs| > 0 && Seen(rs, num) && num < LastMax(rs)
  }

  /**
   * A request in flight that has read `f` and will pass: a login with an unexpired and unspent token bound to `f`, or a
   * session bound to `f` that is good for the time it has read: not expired and, for a change of password, at most ten
   * minutes old.
   */
  ghost predicate Races(cfg: Config, now: nat, rs: seq<CompactRange.Range>, p: Phase, u: Bytes, f: Bytes) {
    match p
    case FinishRead(t, file) =>
      && t.user == u && file == f && t.kind.Login? && t.kind.fileHash == cfg.hash(f)
      && now < t.expires + 10 && !Spent(rs, t.kind.count)
    case SessionRead(se, file, forChange, time) =>
      && se.user == u && file == f && se.fileHash == cfg.hash(f)
      && time < se.expires + 10 && (forChange ==> time <= se.issued + 600)
    case _ => false
  }

  ghost predicate Racing(cfg: Config, now: nat, w: World, u: Bytes, f: Bytes) {
    exists i :: 0 <= i < |w.state.requests| && Races(cfg, now, w.ranges, w.state.requests[i], u, f)
  }

  // ---- no such request: nothing is accepted ----

  /** A login that passes the check was a race before it, if its file is `f`. */
  lemma PassingRaces(cfg: Config, n: nat, now: nat, w: World, a: Action, u: Bytes, f: Bytes)
    requires WorldOk(n, w) && Possible(n, now, w, Act(a)) && Injective(cfg.hash)
    requires a.CheckLogin? && a.id < |w.state.requests| && w.state.requests[a.id].FinishRead?
    requires var p := w.state.requests[a.id];
      && p.token.user == u && p.token.kind.Login? && p.token.kind.fileHash == cfg.hash(f)
      && LoginAccepted(cfg.hash, p.token, a.time, a.used, p.file)
    ensures Races(cfg, now, w.ranges, w.state.requests[a.id], u, f)
  {
    NumExistsExactly(n, w.ranges, TokenCall(w.state.requests[a.id].token, a.time));
  }

  lemma StepAccepts(cfg: Config, n: nat, now: nat, w: World, a: Action, u: Bytes, f: Bytes)
    requires WorldOk(n, w) && Possible(n, now, w, Act(a))
    requires Injective(cfg.hash) && !Racing(cfg, now, w, u, f) && Current(w.state.files, u) != Some(f)
    ensures w.state.accepted <= Apply(cfg, w.state, a).accepted
    ensures NoneAccepted(Apply(cfg, w.state, a).accepted, |w.state.accepted|, u, cfg.hash(f))
  {
    var s := w.state;
    match a
    case CheckLogin(id, time, used) =>
      if id < |s.requests| && s.requests[id].FinishRead? {
        var p := s.requests[id];
        assert !Races(cfg, now, w.ranges, p, u, f);
        if p.token.user == u && LoginAccepted(cfg.hash, p.token, time, used, p.file)
          && p.token.kind.fileHash == cfg.hash(f) {
          PassingRaces(cfg, n, now, w, a, u, f);
        }
      }
    case CheckSession(id) => assert id < |s.requests| ==> !Races(cfg, now, w.ranges, s.requests[id], u, f);
    case _ =>
  }

  /** A request that reads now reads another file, and one that was no race does not become one. */
  lemma StepStartsNoRace(cfg: Config, s: State, a: Action, now: nat, rs: seq<CompactRange.Range>, u: Bytes, f: Bytes)
    requires Current(s.files, u) != Some(f)
    requires forall i :: 0 <= i < |s.requests| ==> !Races(cfg, now, rs, s.requests[i], u, f)
    ensures var next := Apply(cfg, s, a);
      forall i :: 0 <= i < |next.requests| ==> !Races(cfg, now, rs, next.requests[i], u, f)
  {
    var next := Apply(cfg, s, a);
    forall i | 0 <= i < |next.requests|
      ensures !Races(cfg, now, rs, next.requests[i], u, f)
    {
      assert i < |s.requests| ==> !Races(cfg, now, rs, s.requests[i], u, f);
    }
  }

  lemma EventKeeps(cfg: Config, n: nat, now: nat, w: World, ev: Event, u: Bytes, f: Bytes)
    requires WorldOk(n, w) && Possible(n, now, w, ev)
    requires Injective(cfg.hash) && !Racing(cfg, now, w, u, f) && Current(w.state.files, u) != Some(f)
    ensures var next := Next(cfg, n, now, w, ev);
      && !Racing(cfg, now, next, u, f) && w.state.accepted <= next.state.accepted
      && NoneAccepted(next.state.accepted, |w.state.accepted|, u, cfg.hash(f))
  {
    RangesKeep(n, now, w, ev);
    var rs := Ranges(n, now, w, ev);
    forall i | 0 <= i < |w.state.requests|
      ensures !Races(cfg, now, rs, w.state.requests[i], u, f)
    {
      assert !Races(cfg, now, w.ranges, w.state.requests[i], u, f);
    }
    if ev.Act? {
      StepAccepts(cfg, n, now, w, ev.action, u, f);
      StepStartsNoRace(cfg, w.state, ev.action, now, rs, u, f);
    }
  }

  lemma {:induction false} StaleIsRefused(cfg: Config, n: nat, now: nat, w: World, events: seq<Event>, v: World,
                                          u: Bytes, f: Bytes)
    requires WorldOk(n, w) && Runs(cfg, n, now, w, events, v) && Away(cfg, n, now, w, events, u, f)
    requires Injective(cfg.hash) && !Racing(cfg, now, w, u, f)
    ensures w.state.accepted <= v.state.accepted
    ensures NoneAccepted(v.state.accepted, |w.state.accepted|, u, cfg.hash(f))
    decreases |events|
  {
    if events != [] {
      EventKeeps(cfg, n, now, w, events[0], u, f);
      StaleIsRefused(cfg, n, now, Next(cfg, n, now, w, events[0]), events[1..], v, u, f);
    }
  }

  // ---- such a request passes ----

  lemma FirstEvent(cfg: Config, n: nat, now: nat, w: World, ev: Event, rest: seq<Event>, v: World, u: Bytes, f: Bytes)
    requires WorldOk(n, w) && Possible(n, now, w, ev) && Runs(cfg, n, now, Next(cfg, n, now, w, ev), rest, v)
    ensures Runs(cfg, n, now, w, [ev] + rest, v)
    ensures Current(w.state.files, u) != Some(f) && Away(cfg, n, now, Next(cfg, n, now, w, ev), rest, u, f) ==>
      Away(cfg, n, now, w, [ev] + rest, u, f)
  {
    assert ([ev] + rest)[1..] == rest;
  }

  ghost predicate Passed(w: World, v: World, u: Bytes, fileHash: Bytes) {
    v.state.accepted == w.state.accepted + [Acceptance(u, fileHash)]
  }

  lemma SessionPasses(cfg: Config, n: nat, now: nat, w: World, i: nat, u: Bytes, f: Bytes)
    returns (events: seq<Event>, v: World)
    requires WorldOk(n, w) && Current(w.state.files, u) != Some(f)
    requires i < |w.state.requests| && w.state.requests[i].SessionRead? && Races(cfg, now, w.ranges, w.state.requests[i], u, f)
    ensures Runs(cfg, n, now, w, events, v) && Away(cfg, n, now, w, events, u, f) && Passed(w, v, u, cfg.hash(f))
  {
    v := Next(cfg, n, now, w, Act(CheckSession(i)));
    events := [Act(CheckSession(i))] + [];
    FirstEvent(cfg, n, now, w, Act(CheckSession(i)), [], v, u, f);
  }

  lemma CheckPasses(cfg: Config, s: State, i: nat, now: nat)
    requires i < |s.requests| && s.requests[i].FinishRead?
    requires LoginAccepted(cfg.hash, s.requests[i].token, now, false, s.requests[i].file)
    ensures var next := Apply(cfg, s, CheckLogin(i, now, false)); var t := s.requests[i].token;
      next.files == s.files && next.accepted == s.accepted + [Acceptance(t.user, t.kind.fileHash)]
  {
  }

  lemma UnseenIsPossible(n: nat, now: nat, w: World, i: nat)
    requires WorldOk(n, w) && i < |w.state.requests| && w.state.requests[i].FinishRead?
    requires var t := w.state.requests[i].token; t.kind.Login? && !Seen(w.ranges, t.kind.count)
    ensures Possible(n, now, w, Act(CheckLogin(i, now, false)))
  {
    assert HoldsCounted(w.state.requests[i]);
    NumExistsExactly(n, w.ranges, TokenCall(w.state.requests[i].token, now));
  }

  /** A login whose number the set has not seen passes at once. */
  lemma UnseenPasses(cfg: Config, n: nat, now: nat, w: World, i: nat, u: Bytes, f: Bytes)
    returns (events: seq<Event>, v: World)
    requires WorldOk(n, w) && Current(w.state.files, u) != Some(f)
    requires i < |w.state.requests| && w.state.requests[i].FinishRead? && Races(cfg, now, w.ranges, w.state.requests[i], u, f)
    requires !Seen(w.ranges, w.state.requests[i].token.kind.count)
    ensures Runs(cfg, n, now, w, events, v) && Away(cfg, n, now, w, events, u, f) && Passed(w, v, u, cfg.hash(f))
  {
    var check := Act(CheckLogin(i, now, false));
    UnseenIsPossible(n, now, w, i);
    CheckPasses(cfg, w.state, i, now);
    v := Next(cfg, n, now, w, check);
    events := [check] + [];
    FirstEvent(cfg, n, now, w, check, [], v, u, f);
  }

  /** A used number on the upper end is forgotten by a question about the next one, and then the login passes. */
  lemma BoundaryPasses(cfg: Config, n: nat, now: nat, w: World, i: nat, u: Bytes, f: Bytes)
    returns (events: seq<Event>, v: World)
    requires WorldOk(n, w) && Current(w.state.files, u) != Some(f)
    requires i < |w.state.requests| && w.state.requests[i].FinishRead? && Races(cfg, now, w.ranges, w.state.requests[i], u, f)
    requires w.state.requests[i].token.kind.count == LastMax(w.ranges)
    ensures Runs(cfg, n, now, w, events, v) && Away(cfg, n, now, w, events, u, f) && Passed(w, v, u, cfg.hash(f))
  {
    var grow := Call(LastMax(w.ranges) + 1, 0, None);
    NumExistsExactly(n, w.ranges, grow);
    var next := Next(cfg, n, now, w, Ask(grow));
    var rest;
    rest, v := UnseenPasses(cfg, n, now, next, i, u, f);
    events := [Ask(grow)] + rest;
    FirstEvent(cfg, n, now, w, Ask(grow), rest, v, u, f);
  }

  lemma RacerPasses(cfg: Config, n: nat, now: nat, w: World, i: nat, u: Bytes, f: Bytes)
    returns (events: seq<Event>, v: World)
    requires WorldOk(n, w) && Current(w.state.files, u) != Some(f)
    requires i < |w.state.requests| && Races(cfg, now, w.ranges, w.state.requests[i], u, f)
    ensures Runs(cfg, n, now, w, events, v) && Away(cfg, n, now, w, events, u, f) && Passed(w, v, u, cfg.hash(f))
  {
    if w.state.requests[i].SessionRead? {
      events, v := SessionPasses(cfg, n, now, w, i, u, f);
    } else if !Seen(w.ranges, w.state.requests[i].token.kind.count) {
      events, v := UnseenPasses(cfg, n, now, w, i, u, f);
    } else {
      SeenBounds(w.ranges, w.state.requests[i].token.kind.count);
      events, v := BoundaryPasses(cfg, n, now, w, i, u, f);
    }
  }

  // ---- the cut-off ----

  /** From here on, in every run that stores other files only, nothing made under `f` is accepted. */
  ghost predicate Dead(cfg: Config, n: nat, now: nat, w: World, u: Bytes, f: Bytes)
    requires WorldOk(n, w)
  {
    forall events, v :: Runs(cfg, n, now, w, events, v) && Away(cfg, n, now, w, events, u, f) ==>
      NoneAccepted(v.state.accepted, |w.state.accepted|, u, cfg.hash(f))
  }

  /**
   * While another file is stored, no login, session or change of password bound to `f` is accepted in any interleaving,
   * if and only if no request in flight has read `f` and holds something bound to it that is still good: a session good
   * for the time it has read, or a login token that has neither expired nor been spent.
   */
  lemma CutOffExactly(cfg: Config, n: nat, now: nat, w: World, u: Bytes, f: Bytes)
    requires WorldOk(n, w) && Injective(cfg.hash) && Current(w.state.files, u) != Some(f)
    ensures Dead(cfg, n, now, w, u, f) <==> !Racing(cfg, now, w, u, f)
  {
    if Racing(cfg, now, w, u, f) {
      var i :| 0 <= i < |w.state.requests| && Races(cfg, now, w.ranges, w.state.requests[i], u, f);
      var events, v := RacerPasses(cfg, n, now, w, i, u, f);
      assert v.state.accepted[|w.state.accepted|] == Acceptance(u, cfg.hash(f));
    } else {
      forall events, v | Runs(cfg, n, now, w, events, v) && Away(cfg, n, now, w, events, u, f)
        ensures NoneAccepted(v.state.accepted, |w.state.accepted|, u, cfg.hash(f))
      {
        StaleIsRefused(cfg, n, now, w, events, v, u, f);
      }
    }
  }

  /** A change to another file kills what was made under the old one exactly when no such request is in flight. */
  lemma ChangeCutsOffExactly(cfg: Config, n: nat, now: nat, w: World, change: Action, u: Bytes)
    requires WorldOk(n, w) && Injective(cfg.hash)
    requires Replaces(cfg, w.state, change, u) && change.file != Current(w.state.files, u).value
    ensures var f := Current(w.state.files, u).value; var changed := Next(cfg, n, now, w, Act(change));
      && Current(changed.state.files, u) == Some(change.file)
      && (Dead(cfg, n, now, changed, u, f) <==> !Racing(cfg, now, w, u, f))
  {
    ReplacedExactly(cfg, w.state, change, u);
    CutOffExactly(cfg, n, now, Next(cfg, n, now, w, Act(change)), u, Current(w.state.files, u).value);
  }

  // ---- the race can happen ----

  lemma DecryptsAtOnce(cfg: Config, t: Token)
    requires cfg.valid > 0 && t.keyTime == cfg.refTime
    ensures Decrypts(cfg, t, cfg.refTime)
  {
    WindowExactly(EPHEMERAL_INTERVAL, cfg.refTime, cfg.refTime, cfg.valid, 0);
  }

  lemma Registers(cfg: Config, u: Bytes, f: Bytes, t: Token)
    requires cfg.valid > 0 && t == Token(u, NewUser, cfg.refTime, cfg.refTime + EPHEMERAL_INTERVAL * 2)
    ensures Run(cfg, START, [StartRegister(u, cfg.refTime), RegisterFinish(t, cfg.refTime, cfg.refTime, f)])
         == State(map[u := [f]], {t}, {}, [], [])
  {
    var now := cfg.refTime;
    DecryptsAtOnce(cfg, t);
    RunStep(cfg, START, StartRegister(u, now), [RegisterFinish(t, now, now, f)]);
    RunStep(cfg, Apply(cfg, START, StartRegister(u, now)), RegisterFinish(t, now, now, f), []);
    var none: map<Bytes, seq<Bytes>> := map[];
    assert [] + [f] == [f] && Stored(none, u, f) == none[u := [f]];
  }

  /** A login goes as far as reading the file. */
  lemma StartsLogin(cfg: Config, u: Bytes, f: Bytes, s: State, t: Token)
    requires cfg.valid > 0 && s.files == map[u := [f]] && s.requests == []
    requires t == Token(u, Login(1, cfg.refTime + COUNTER_EXPIRES, cfg.hash(f)), cfg.refTime, cfg.refTime + COUNTER_EXPIRES)
    ensures Run(cfg, s, [BeginLogin(u), IssueLogin(0, cfg.refTime, 1), BeginFinish(t, cfg.refTime)])
         == State(s.files, s.tokens + {t}, s.sessions, [Closed, FinishRead(t, f)], s.accepted)
  {
    var now := cfg.refTime;
    DecryptsAtOnce(cfg, t);
    var a := Apply(cfg, s, BeginLogin(u));
    var b := Apply(cfg, a, IssueLogin(0, now, 1));
    RunStep(cfg, s, BeginLogin(u), [IssueLogin(0, now, 1), BeginFinish(t, now)]);
    RunStep(cfg, a, IssueLogin(0, now, 1), [BeginFinish(t, now)]);
    RunStep(cfg, b, BeginFinish(t, now), []);
    assert a.requests == [LoginRead(u, f)];
    assert b.requests == [Closed] && b.tokens == s.tokens + {t};
  }

  /** A reset replaces the file; requests in flight keep what they have read. */
  lemma Changes(cfg: Config, u: Bytes, f: Bytes, g: Bytes, s: State, t: Token)
    requires cfg.valid > 0 && s.files == map[u := [f]]
    requires t == Token(u, ChangePassword(cfg.hash(f)), cfg.refTime, cfg.refTime + EPHEMERAL_INTERVAL * 2)
    ensures var actions := [BeginReset(u), IssueChange(|s.requests|, cfg.refTime, cfg.refTime),
                            RegisterFinish(t, cfg.refTime, cfg.refTime, g)];
      var after := Run(cfg, s, actions);
      Current(after.files, u) == Some(g) && after.requests == s.requests + [Closed]
  {
    var now := cfg.refTime;
    DecryptsAtOnce(cfg, t);
    var id := |s.requests|;
    var a := Apply(cfg, s, BeginReset(u));
    var b := Apply(cfg, a, IssueChange(id, now, now));
    RunStep(cfg, s, BeginReset(u), [IssueChange(id, now, now), RegisterFinish(t, now, now, g)]);
    RunStep(cfg, a, IssueChange(id, now, now), [RegisterFinish(t, now, now, g)]);
    RunStep(cfg, b, RegisterFinish(t, now, now, g), []);
    assert a.requests == s.requests + [MayChange(u, f)];
    assert b.requests == s.requests + [Closed] && t in b.tokens && b.files == s.files;
  }

  /** Steps that do not finish a login leave the set alone. */
  lemma {:induction false} ActsRun(cfg: Config, n: nat, now: nat, w: World, actions: seq<Action>)
    returns (events: seq<Event>)
    requires WorldOk(n, w) && forall a :: a in actions ==> !a.CheckLogin? && (a.IssueLogin? ==> a.count >= 1)
    ensures Runs(cfg, n, now, w, events, World(Run(cfg, w.state, actions), w.ranges))
    decreases |actions|
  {
    if actions == [] {
      events := [];
    } else {
      var next := Next(cfg, n, now, w, Act(actions[0]));
      var rest := ActsRun(cfg, n, now, next, actions[1..]);
      var v := World(Run(cfg, w.state, actions), w.ranges);
      events := [Act(actions[0])] + rest;
      FirstEvent(cfg, n, now, w, Act(actions[0]), rest, v, [], []);
    }
  }

  /** A run to a state in which a login has read `f`, and `g` is stored. */
  lemma StartsRace(cfg: Config, u: Bytes, f: Bytes, g: Bytes) returns (actions: seq<Action>)
    requires cfg.valid > 0
    ensures forall a :: a in actions ==> !a.CheckLogin? && (a.IssueLogin? ==> a.count >= 1)
    ensures var s := Run(cfg, START, actions); var until := cfg.refTime + COUNTER_EXPIRES;
      && Current(s.files, u) == Some(g) && |s.requests| > 1
      && s.requests[1] == FinishRead(Token(u, Login(1, until, cfg.hash(f)), cfg.refTime, until), f)
  {
    var now := cfg.refTime;
    var newUser := Token(u, NewUser, now, now + EPHEMERAL_INTERVAL * 2);
    var login := Token(u, Login(1, now + COUNTER_EXPIRES, cfg.hash(f)), now, now + COUNTER_EXPIRES);
    var change := Token(u, ChangePassword(cfg.hash(f)), now, now + EPHEMERAL_INTERVAL * 2);
    var first := [StartRegister(u, now), RegisterFinish(newUser, now, now, f)];
    var second := [BeginLogin(u), IssueLogin(0, now, 1), BeginFinish(login, now)];
    var third := [BeginReset(u), IssueChange(2, now, now), RegisterFinish(change, now, now, g)];
    Registers(cfg, u, f, newUser);
    StartsLogin(cfg, u, f, Run(cfg, START, first), login);
    Changes(cfg, u, f, g, Run(cfg, Run(cfg, START, first), second), change);
    actions := first + second + third;
    RunConcat(cfg, START, first, second);
    RunConcat(cfg, START, first + second, third);
  }

  /** The race is real: in some run a login is about to pass under a file that has been replaced meanwhile. */
  lemma RaceIsReachable(cfg: Config, n: nat, u: Bytes, f: Bytes, g: Bytes) returns (events: seq<Event>, w: World)
    requires cfg.valid > 0 && 2 <= n < 256
    ensures WorldOk(n, World(START, Fresh(n))) && Runs(cfg, n, cfg.refTime, World(START, Fresh(n)), events, w)
    ensures WorldOk(n, w) && Current(w.state.files, u) == Some(g) && Racing(cfg, cfg.refTime, w, u, f)
    ensures Injective(cfg.hash) && f != g ==> !Dead(cfg, n, cfg.refTime, w, u, f)
  {
    var actions := StartsRace(cfg, u, f, g);
    events := ActsRun(cfg, n, cfg.refTime, World(START, Fresh(n)), actions);
    w := World(Run(cfg, START, actions), Fresh(n));
    RunsKeepOk(cfg, n, cfg.refTime, World(START, Fresh(n)), events, w);
    FreshValid(n);
    assert Races(cfg, cfg.refTime, w.ranges, w.state.requests[1], u, f);
    if Injective(cfg.hash) && f != g {
      CutOffExactly(cfg, n, cfg.refTime, w, u, f);
    }
  }

  lemma {:induction false} RunsKeepOk(cfg: Config, n: nat, now: nat, w: World, events: seq<Event>, v: World)
    requires WorldOk(n, w) && Runs(cfg, n, now, w, events, v)
    ensures WorldOk(n, v)
    decreases |events|
  {
    if events != [] {
      RunsKeepOk(cfg, n, now, Next(cfg, n, now, w, events[0]), events[1..], v);
    }
  }
}
