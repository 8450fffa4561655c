/** The `unwrap` in the new-user branch of `user_change_ephemeral`, over all runs of the credential protocol. */
module RegisterPanic {
  import opened Common
  import opened KeyWindow
  import opened Credentials

  ghost predicate NewUserTimes(s: State) {
    forall t :: t in s.tokens && t.kind.NewUser? ==> t.expires == t.keyTime + EPHEMERAL_INTERVAL * 2
  }

  lemma {:induction false} RunKeepsTimes(cfg: Config, s: State, actions: seq<Action>)
    requires NewUserTimes(s)
    ensures NewUserTimes(Run(cfg, s, actions))
    decreases |actions|
  {
    if actions != [] {
      var next := Apply(cfg, s, actions[0]);
      assert forall t :: t in next.tokens && t !in s.tokens && t.kind.NewUser? ==>
        t.expires == t.keyTime + EPHEMERAL_INTERVAL * 2;
      RunKeepsTimes(cfg, next, actions[1..]);
    }
  }

  /** What `register_finish` does with a token in a state, when its two clock readings are `time` and `again`. */
  function Outcome(cfg: Config, s: State, t: Token, again: nat, file: Bytes): Change {
    UserChange(cfg.hash, t, again, Current(s.files, t.user), file)
  }

  /** In no reachable state does `register_finish` panic, if its clock readings are at most `gap` seconds apart. */
  ghost predicate NeverPanics(cfg: Config, gap: nat) {
    forall actions, t, time: nat, again: nat, file ::
      t in Run(cfg, START, actions).tokens && Decrypts(cfg, t, time) && again <= time + gap ==>
        Outcome(cfg, Run(cfg, START, actions), t, again, file) != Panic
  }

  lemma NoPanic(cfg: Config, gap: nat, actions: seq<Action>, t: Token, time: nat, again: nat, file: Bytes)
    requires cfg.valid == 0 || cfg.valid * EPHEMERAL_INTERVAL + gap <= 2 * EPHEMERAL_INTERVAL + LEEWAY
    requires t in Run(cfg, START, actions).tokens && Decrypts(cfg, t, time) && again <= time + gap
    ensures Outcome(cfg, Run(cfg, START, actions), t, again, file) != Panic
  {
    RunKeepsTimes(cfg, START, actions);
    WindowExactly(EPHEMERAL_INTERVAL, time, cfg.refTime, cfg.valid, (t.keyTime - cfg.refTime) / EPHEMERAL_INTERVAL);
    if t.keyTime <= time {
      AcceptedIsUnexpired(cfg.refTime, cfg.valid, t.keyTime, time, again, gap);
    }
  }

  lemma SomePanic(cfg: Config, gap: nat, u: Bytes, file: Bytes)
    requires cfg.valid > 0 && cfg.valid * EPHEMERAL_INTERVAL + gap > 2 * EPHEMERAL_INTERVAL + LEEWAY
    ensures !NeverPanics(cfg, gap)
  {
    var actions := [StartRegister(u, cfg.refTime)];
    var t := Token(u, NewUser, cfg.refTime, cfg.refTime + EPHEMERAL_INTERVAL * 2);
    assert actions[1..] == [];
    var s := Apply(cfg, START, actions[0]);
    assert Run(cfg, START, actions) == s && t in s.tokens;
    AcceptedToTheLast(EPHEMERAL_INTERVAL, cfg.refTime, cfg.valid);
    var time := cfg.refTime + (cfg.valid * EPHEMERAL_INTERVAL - 1);
    assert Decrypts(cfg, t, time);
    assert Outcome(cfg, Run(cfg, START, actions), t, time + gap, file) == Panic;
  }

  /**
   * The `unwrap` is safe if and only if the key of a token never outlives the token by more than the leeway allows. With
   * the default of two valid keys that is: if the two clock readings are at most `LEEWAY` seconds apart.
   */
  lemma NeverPanicsExactly(cfg: Config, gap: nat)
    ensures NeverPanics(cfg, gap) <==>
      cfg.valid == 0 || cfg.valid * EPHEMERAL_INTERVAL + gap <= 2 * EPHEMERAL_INTERVAL + LEEWAY
    ensures cfg.valid == 2 ==> (NeverPanics(cfg, gap) <==> gap <= LEEWAY)
    ensures cfg.valid > 2 ==> !NeverPanics(cfg, gap)
  {
    if cfg.valid == 0 || cfg.valid * EPHEMERAL_INTERVAL + gap <= 2 * EPHEMERAL_INTERVAL + LEEWAY {
      forall actions, t, time: nat, again: nat, file |
        t in Run(cfg, START, actions).tokens && Decrypts(cfg, t, time) && again <= time + gap
        ensures Outcome(cfg, Run(cfg, START, actions), t, again, file) != Panic
      {
        NoPanic(cfg, gap, actions, t, time, again, file);
      }
    } else {
      SomePanic(cfg, gap, [], []);
    }
  }
}
