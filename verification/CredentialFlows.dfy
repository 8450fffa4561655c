/**
 * One request after another, undisturbed: registering, logging in, using a session and changing the password, each with
 * the exact times at which it works.
 */
module CredentialFlows {
  import opened Common
  import opened Credentials

  lemma RunStep(cfg: Config, s: State, a: Action, rest: seq<Action>)
    ensures Run(cfg, s, [a] + rest) == Run(cfg, Apply(cfg, s, a), rest)
  {
    assert ([a] + rest)[1..] == rest;
  }

  lemma {:induction false} RunConcat(cfg: Config, s: State, a: seq<Action>, b: seq<Action>)
    ensures Run(cfg, s, a + b) == Run(cfg, Run(cfg, s, a), b)
    decreases |a|
  {
    if a == [] {
      assert a + b == b;
    } else {
      assert (a + b)[0] == a[0] && (a + b)[1..] == a[1..] + b;
      RunConcat(cfg, Apply(cfg, s, a[0]), a[1..], b);
    }
  }

  // ---- registering ----

  /** A new user's token works for twelve hours and ten seconds, where its key is still accepted. */
  lemma RegisterFlow(cfg: Config, s: State, u: Bytes, f: Bytes, start: nat, time: nat, again: nat)
    requires u !in s.files
    ensures var t := Token(u, NewUser, start, start + 43200);
      Run(cfg, s, [StartRegister(u, start), RegisterFinish(t, time, again, f)])
        == State(if Decrypts(cfg, t, time) && again < start + 43200 + 10 then s.files[u := [f]] else s.files,
                 s.tokens + {t}, s.sessions, s.requests, s.accepted)
  {
    var t := Token(u, NewUser, start, start + 43200);
    RunStep(cfg, s, StartRegister(u, start), [RegisterFinish(t, time, again, f)]);
    RunStep(cfg, Apply(cfg, s, StartRegister(u, start)), RegisterFinish(t, time, again, f), []);
    assert [] + [f] == [f];
  }

  // ---- logging in ----

  lemma Closing(requests: seq<Phase>, p: Phase, q: Phase)
    ensures (requests + [p])[|requests| := q] == requests + [q]
  {
  }

  function LoginToken(cfg: Config, u: Bytes, f: Bytes, start: nat, count: nat): Token {
    Token(u, Login(count, start + 60, cfg.hash(f)), start, start + 60)
  }

  lemma IssuesToken(cfg: Config, s: State, id: nat, u: Bytes, f: Bytes, start: nat, count: nat)
    requires id < |s.requests| && s.requests[id] == LoginRead(u, f)
    ensures Apply(cfg, s, IssueLogin(id, start, count))
         == State(s.files, s.tokens + {LoginToken(cfg, u, f, start, count)}, s.sessions, s.requests[id := Closed], s.accepted)
  {
  }

  lemma BeginsLogin(cfg: Config, s: State, u: Bytes, f: Bytes)
    requires Current(s.files, u) == Some(f)
    ensures Apply(cfg, s, BeginLogin(u))
         == State(s.files, s.tokens, s.sessions, s.requests + [LoginRead(u, f)], s.accepted)
  {
  }

  lemma IssueFlow(cfg: Config, s: State, u: Bytes, f: Bytes, start: nat, count: nat)
    requires Current(s.files, u) == Some(f)
    ensures Run(cfg, s, [BeginLogin(u), IssueLogin(|s.requests|, start, count)])
         == State(s.files, s.tokens + {LoginToken(cfg, u, f, start, count)}, s.sessions, s.requests + [Closed], s.accepted)
  {
    var id := |s.requests|;
    var a := Apply(cfg, s, BeginLogin(u));
    BeginsLogin(cfg, s, u, f);
    IssuesToken(cfg, a, id, u, f, start, count);
    RunStep(cfg, s, BeginLogin(u), [IssueLogin(id, start, count)]);
    RunStep(cfg, a, IssueLogin(id, start, count), []);
    Closing(s.requests, LoginRead(u, f), Closed);
  }

  /** A login token works for a minute and ten seconds, where its key is accepted, once, and under the file it was made for. */
  lemma FinishFlow(cfg: Config, s: State, t: Token, f: Bytes, time: nat, again: nat, used: bool)
    requires t in s.tokens && t.kind.Login? && Current(s.files, t.user) == Some(f)
    ensures var next := Run(cfg, s, [BeginFinish(t, time), CheckLogin(|s.requests|, again, used)]);
      var good := again < t.expires + 10 && !used && t.kind.fileHash == cfg.hash(f);
      var decrypts := Decrypts(cfg, t, time);
      && next.files == s.files && next.tokens == s.tokens && next.sessions == s.sessions
      && (!decrypts ==> next == s)
      && (decrypts && good ==>
            && next.requests == s.requests + [LoggedIn(t.user, cfg.hash(f))]
            && next.accepted == s.accepted + [Acceptance(t.user, cfg.hash(f))])
      && (decrypts && !good ==> next.requests == s.requests + [Closed] && next.accepted == s.accepted)
  {
    var id := |s.requests|;
    var a := Apply(cfg, s, BeginFinish(t, time));
    RunStep(cfg, s, BeginFinish(t, time), [CheckLogin(id, again, used)]);
    RunStep(cfg, a, CheckLogin(id, again, used), []);
    Closing(s.requests, FinishRead(t, f), Closed);
    Closing(s.requests, FinishRead(t, f), LoggedIn(t.user, cfg.hash(f)));
  }

  // ---- sessions ----

  lemma MakeFlow(cfg: Config, s: State, id: nat, u: Bytes, h: Bytes, made: nat)
    requires id < |s.requests| && s.requests[id] == LoggedIn(u, h)
    ensures Run(cfg, s, [MakeSession(id, made)])
         == State(s.files, s.tokens, s.sessions + {Session(u, made, made + 2592000, h)}, s.requests[id := Closed], s.accepted)
  {
    RunStep(cfg, s, MakeSession(id, made), []);
  }

  /**
   * A session works for thirty days and ten seconds under the file it was made for, and for a change of password in its
   * first ten minutes.
   */
  lemma SessionFlow(cfg: Config, s: State, se: Session, f: Bytes, forChange: bool, time: nat)
    requires se in s.sessions && Current(s.files, se.user) == Some(f)
    ensures var good := && se.fileHash == cfg.hash(f) && time < se.expires + 10
                        && (forChange ==> time <= se.issued + 600);
      Run(cfg, s, [BeginSession(se, true, forChange, time), CheckSession(|s.requests|)])
        == State(s.files, s.tokens, s.sessions,
                 s.requests + [if good && forChange then MayChange(se.user, f) else Closed],
                 s.accepted + (if good then [Acceptance(se.user, cfg.hash(f))] else []))
  {
    var id := |s.requests|;
    var begin := BeginSession(se, true, forChange, time);
    var a := Apply(cfg, s, begin);
    RunStep(cfg, s, begin, [CheckSession(id)]);
    RunStep(cfg, a, CheckSession(id), []);
    SessionCheckedExactly(cfg, a, id);
    Closing(s.requests, SessionRead(se, f, forChange, time), Closed);
    Closing(s.requests, SessionRead(se, f, forChange, time), MayChange(se.user, f));
    assert s.accepted + [] == s.accepted;
  }

  // ---- changing ----

  lemma ResetFlow(cfg: Config, s: State, u: Bytes, f: Bytes)
    requires Current(s.files, u) == Some(f)
    ensures Run(cfg, s, [BeginReset(u)])
         == State(s.files, s.tokens, s.sessions, s.requests + [MayChange(u, f)], s.accepted)
  {
    RunStep(cfg, s, BeginReset(u), []);
  }

  lemma IssuesChange(cfg: Config, s: State, id: nat, u: Bytes, f: Bytes, keyTime: nat, start: nat)
    requires id < |s.requests| && s.requests[id] == MayChange(u, f)
    ensures Apply(cfg, s, IssueChange(id, keyTime, start))
         == State(s.files, s.tokens + {Token(u, ChangePassword(cfg.hash(f)), keyTime, start + 43200)}, s.sessions,
                  s.requests[id := Closed], s.accepted)
  {
  }

  /** A change token works for twelve hours and ten seconds, where its key is accepted and the file is still the same. */
  lemma ChangeFlow(cfg: Config, s: State, id: nat, u: Bytes, f: Bytes, stored: Bytes, g: Bytes, keyTime: nat, start: nat,
                   time: nat, again: nat)
    requires id < |s.requests| && s.requests[id] == MayChange(u, f) && Current(s.files, u) == Some(stored)
    ensures var t := Token(u, ChangePassword(cfg.hash(f)), keyTime, start + 43200);
      var good := Decrypts(cfg, t, time) && again < start + 43200 + 10 && cfg.hash(stored) == cfg.hash(f);
      Run(cfg, s, [IssueChange(id, keyTime, start), RegisterFinish(t, time, again, g)])
        == State(if good then s.files[u := s.files[u] + [g]] else s.files, s.tokens + {t}, s.sessions,
                 s.requests[id := Closed], s.accepted + (if good then [Acceptance(u, cfg.hash(f))] else []))
  {
    var t := Token(u, ChangePassword(cfg.hash(f)), keyTime, start + 43200);
    var a := Apply(cfg, s, IssueChange(id, keyTime, start));
    IssuesChange(cfg, s, id, u, f, keyTime, start);
    RunStep(cfg, s, IssueChange(id, keyTime, start), [RegisterFinish(t, time, again, g)]);
    RunStep(cfg, a, RegisterFinish(t, time, again, g), []);
    assert s.accepted + [] == s.accepted;
  }

  // ---- all of it ----

  /** The clock at the steps of one login that opens a session for a change of password. */
  datatype Times = Times(start: nat, decrypt: nat, check: nat, made: nat, used: nat)

  /**
   * From any state in which the user has a file: a login, a session and its use for a change end with the change allowed if
   * and only if every step comes in time.
   */
  lemma LoginToChange(cfg: Config, s: State, u: Bytes, f: Bytes, count: nat, c: Times) returns (actions: seq<Action>)
    requires Current(s.files, u) == Some(f)
    requires Decrypts(cfg, LoginToken(cfg, u, f, c.start, count), c.decrypt) && c.check < c.start + 70
    ensures var t := Run(cfg, s, actions);
      && t.files == s.files && |t.requests| == |s.requests| + 3
      && (t.requests[|s.requests| + 2] == MayChange(u, f) <==> c.used <= c.made + 600)
  {
    var token := LoginToken(cfg, u, f, c.start, count);
    var first := [BeginLogin(u), IssueLogin(|s.requests|, c.start, count)];
    IssueFlow(cfg, s, u, f, c.start, count);
    var s1 := Run(cfg, s, first);
    var second := [BeginFinish(token, c.decrypt), CheckLogin(|s1.requests|, c.check, false)];
    FinishFlow(cfg, s1, token, f, c.decrypt, c.check, false);
    var s2 := Run(cfg, s1, second);
    var third := [MakeSession(|s1.requests|, c.made)];
    MakeFlow(cfg, s2, |s1.requests|, u, cfg.hash(f), c.made);
    var s3 := Run(cfg, s2, third);
    var se := Session(u, c.made, c.made + 2592000, cfg.hash(f));
    var fourth := [BeginSession(se, true, true, c.used), CheckSession(|s3.requests|)];
    SessionFlow(cfg, s3, se, f, true, c.used);
    actions := first + second + third + fourth;
    RunConcat(cfg, s, first, second);
    RunConcat(cfg, s, first + second, third);
    RunConcat(cfg, s, first + second + third, fourth);
  }
}
