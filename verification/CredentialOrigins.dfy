/** Where what is accepted comes from: only tokens that were issued and sessions that were made, and those only from logins. */
module CredentialOrigins {
  import opened Common
  import opened Credentials

  /** A request in flight presents something the server handed out. */
  predicate Presents(s: State, p: Phase) {
    && (p.FinishRead? ==> p.token in s.tokens)
    && (p.SessionRead? ==> p.session in s.sessions)
    && (p.LoggedIn? ==> Acceptance(p.user, p.fileHash) in s.accepted)
  }

  /** Sessions are made after an accepted login of their user under the file they are bound to. */
  ghost predicate Origins(s: State) {
    && (forall i :: 0 <= i < |s.requests| ==> Presents(s, s.requests[i]))
    && (forall se :: se in s.sessions ==> Acceptance(se.user, se.fileHash) in s.accepted)
  }

  /** Nothing that was handed out or accepted is taken back. */
  ghost predicate Keeps(s: State, t: State) {
    s.tokens <= t.tokens && s.sessions <= t.sessions && s.accepted <= t.accepted
  }

  lemma StepKeeps(cfg: Config, s: State, a: Action)
    ensures Keeps(s, Apply(cfg, s, a))
  {
  }

  lemma PresentsLater(s: State, t: State, p: Phase)
    requires Keeps(s, t) && Presents(s, p)
    ensures Presents(t, p)
  {
  }

  lemma NewRequestPresents(cfg: Config, s: State, a: Action, i: nat)
    requires Origins(s) && i < |Apply(cfg, s, a).requests|
    requires i < |s.requests| ==> Apply(cfg, s, a).requests[i] != s.requests[i]
    ensures Presents(Apply(cfg, s, a), Apply(cfg, s, a).requests[i])
  {
    assert i < |s.requests| ==> Presents(s, s.requests[i]);
  }

  lemma NewSessionAccepted(cfg: Config, s: State, a: Action, se: Session)
    requires Origins(s) && se in Apply(cfg, s, a).sessions && se !in s.sessions
    ensures Acceptance(se.user, se.fileHash) in s.accepted
  {
    assert a.MakeSession? && Presents(s, s.requests[a.id]);
  }

  lemma StepKeepsOrigins(cfg: Config, s: State, a: Action)
    requires Origins(s)
    ensures Origins(Apply(cfg, s, a))
  {
    var t := Apply(cfg, s, a);
    StepKeeps(cfg, s, a);
    forall i | 0 <= i < |t.requests|
      ensures Presents(t, t.requests[i])
    {
      if i < |s.requests| && t.requests[i] == s.requests[i] {
        PresentsLater(s, t, s.requests[i]);
      } else {
        NewRequestPresents(cfg, s, a, i);
      }
    }
    forall se | se in t.sessions
      ensures Acceptance(se.user, se.fileHash) in t.accepted
    {
      if se !in s.sessions {
        NewSessionAccepted(cfg, s, a, se);
      }
      assert Acceptance(se.user, se.fileHash) in s.accepted;
    }
  }

  lemma {:induction false} RunKeepsOrigins(cfg: Config, s: State, actions: seq<Action>)
    requires Origins(s)
    ensures Origins(Run(cfg, s, actions))
    decreases |actions|
  {
    if actions != [] {
      StepKeepsOrigins(cfg, s, actions[0]);
      RunKeepsOrigins(cfg, Apply(cfg, s, actions[0]), actions[1..]);
    }
  }

  /** A token or a session that the server handed out to the user, bound to the file hash. */
  ghost predicate Bearer(s: State, u: Bytes, h: Bytes) {
    || (exists t :: t in s.tokens && t.user == u && (t.kind.Login? || t.kind.ChangePassword?) && t.kind.fileHash == h)
    || (exists se :: se in s.sessions && se.user == u && se.fileHash == h)
  }

  lemma StepAcceptsBearers(cfg: Config, s: State, a: Action)
    requires Origins(s) && Apply(cfg, s, a).accepted != s.accepted
    ensures var log := Apply(cfg, s, a).accepted;
      && |log| == |s.accepted| + 1 && log[..|s.accepted|] == s.accepted
      && Bearer(s, log[|s.accepted|].user, log[|s.accepted|].fileHash)
  {
    match a
    case CheckLogin(id, _, _) => assert Presents(s, s.requests[id]);
    case CheckSession(id) => assert Presents(s, s.requests[id]);
    case _ =>
  }

  /**
   * In every run, whatever a step accepts is a token that was issued or a session that was made, to that user and bound to
   * that file; and sessions exist only where a login was accepted before.
   */
  lemma NothingForged(cfg: Config, actions: seq<Action>, a: Action)
    ensures var s := Run(cfg, START, actions); var log := Apply(cfg, s, a).accepted;
      && (log != s.accepted ==>
            && |log| == |s.accepted| + 1 && log[..|s.accepted|] == s.accepted
            && Bearer(s, log[|s.accepted|].user, log[|s.accepted|].fileHash))
      && (forall se :: se in s.sessions ==> Acceptance(se.user, se.fileHash) in s.accepted)
  {
    RunKeepsOrigins(cfg, START, actions);
    var s := Run(cfg, START, actions);
    if Apply(cfg, s, a).accepted != s.accepted {
      StepAcceptsBearers(cfg, s, a);
    }
  }
}
