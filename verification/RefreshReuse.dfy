/** Reuse detection: when the presentation of a consumed refresh token revokes its family, over every interleaving. */
module RefreshReuse {
  import opened RefreshTable
  import opened RefreshProtocol

  function Start(): State {
    State(Table(map[], 0), map[], {}, map[], [], {})
  }

  /** A request that has not found its row: all it can still do, or has done, is to revoke the family or to fail otherwise. */
  ghost predicate OnlyRevokes(s: State, r: Request) {
    match r
    case Decrypted(_, _) => true
    case Missing(_) => true
    case Done(token, outcome) => outcome == OtherError || (outcome == InvalidRefresh && token.familyId in s.revoked)
    case _ => false
  }

  /** A request that had read its row before it went. */
  predicate Fails(r: Request) {
    r.Read? || r.Checked? || (r.Done? && !r.outcome.Success?)
  }

  lemma StepOfRevoker(s: State, step: Step, req: nat)
    requires Inv(s) && Apply(s, step).Some? && req in s.requests
    requires s.requests[req].token.id !in s.table.rows && OnlyRevokes(s, s.requests[req])
    ensures var t := Apply(s, step).value; req in t.requests && OnlyRevokes(t, t.requests[req])
  {
    assert s.revoked <= Apply(s, step).value.revoked;
  }

  lemma StepOfFailure(s: State, step: Step, req: nat)
    requires Apply(s, step).Some? && req in s.requests
    requires s.requests[req].token.id !in s.table.rows && Fails(s.requests[req])
    ensures var t := Apply(s, step).value; req in t.requests && Fails(t.requests[req])
  {
  }

  lemma StepKeepsToken(s: State, step: Step, req: nat)
    requires Apply(s, step).Some? && req in s.requests
    ensures var t := Apply(s, step).value; req in t.requests && t.requests[req].token == s.requests[req].token
  {
  }

  lemma {:induction false} RunOfReplay(s: State, steps: seq<Step>, t: State, req: nat)
    requires Inv(s) && Runs(s, steps, t) && req in s.requests
    ensures req in t.requests && t.requests[req].token == s.requests[req].token
    ensures s.requests[req].token.id !in s.table.rows && OnlyRevokes(s, s.requests[req]) ==> OnlyRevokes(t, t.requests[req])
    ensures s.requests[req].token.id !in s.table.rows && Fails(s.requests[req]) ==> Fails(t.requests[req])
    decreases |steps|
  {
    if steps != [] {
      assert RequestOk(s, s.requests[req]) && TokenOk(s, s.requests[req].token);
      StepKeepsInv(s, steps[0]);
      StepIsLater(s, steps[0]);
      StepKeepsToken(s, steps[0], req);
      if s.requests[req].token.id !in s.table.rows {
        if OnlyRevokes(s, s.requests[req]) {
          StepOfRevoker(s, steps[0], req);
        }
        if Fails(s.requests[req]) {
          StepOfFailure(s, steps[0], req);
        }
      }
      RunOfReplay(Apply(s, steps[0]).value, steps[1..], t, req);
    }
  }

  lemma BeginsDecrypted(s: State, step: Step, req: nat)
    requires Apply(s, step).Some? && req !in s.requests
    ensures var t := Apply(s, step).value; req in t.requests ==> t.requests[req].Decrypted?
  {
  }

  /**
   * A token whose row is gone, presented in any interleaving: a request that has not read by then, or begins later, ends
   * with its family revoked, unless it ends in some other error; one that had read the row before never succeeds.
   */
  lemma {:induction false} ReplayRevokesFamily(s: State, steps: seq<Step>, t: State, req: nat)
    requires Inv(s) && Runs(s, steps, t) && req in t.requests
    requires t.requests[req].token.id < s.table.nextId && t.requests[req].token.id !in s.table.rows
    ensures req !in s.requests || OnlyRevokes(s, s.requests[req]) ==> OnlyRevokes(t, t.requests[req])
    ensures req in s.requests && Fails(s.requests[req]) ==> Fails(t.requests[req])
    decreases |steps|
  {
    if req in s.requests {
      RunOfReplay(s, steps, t, req);
    } else if steps != [] {
      StepKeepsInv(s, steps[0]);
      StepIsLater(s, steps[0]);
      BeginsDecrypted(s, steps[0], req);
      ReplayRevokesFamily(Apply(s, steps[0]).value, steps[1..], t, req);
    }
  }

  /** A request that has ended keeps its outcome, whatever runs after it. */
  lemma {:induction false} OutcomeIsFinal(s: State, steps: seq<Step>, t: State, req: nat)
    requires Runs(s, steps, t) && req in s.requests && s.requests[req].Done?
    ensures req in t.requests && t.requests[req] == s.requests[req]
    decreases |steps|
  {
    if steps != [] {
      OutcomeIsFinal(Apply(s, steps[0]).value, steps[1..], t, req);
    }
  }

  // ---- exactly when a presentation revokes ----

  /** In this run the request looks for its row when that is gone. */
  ghost predicate ReadsTooLate(s: State, steps: seq<Step>, req: nat)
    decreases |steps|
  {
    && steps != [] && Apply(s, steps[0]).Some?
    && (|| (steps[0] == ReadRow(req) && s.requests[req].token.id !in s.table.rows)
        || ReadsTooLate(Apply(s, steps[0]).value, steps[1..], req))
  }

  predicate HasRead(s: State, req: nat) {
    req in s.requests && !s.requests[req].Decrypted?
  }

  predicate EndsUnforced(t: State, req: nat) {
    req in t.requests && t.requests[req].Done? && t.requests[req].outcome != OtherError
  }

  /** What the rest of a run can do for a request that has read. */
  lemma {:induction false} RestOfRun(s: State, steps: seq<Step>, t: State, req: nat)
    requires Runs(s, steps, t) && HasRead(s, req) && EndsUnforced(t, req)
    ensures s.requests[req].Done? ==> t.requests[req] == s.requests[req]
    ensures !ReadsTooLate(s, steps, req)
    ensures DeleteFamily(req) in steps <==> s.requests[req].Missing?
    decreases |steps|
  {
    if steps != [] {
      RestOfRun(Apply(s, steps[0]).value, steps[1..], t, req);
      assert steps == [steps[0]] + steps[1..];
    }
  }

  lemma {:induction false} RevokesExactly(s: State, steps: seq<Step>, t: State, req: nat)
    requires Runs(s, steps, t) && !HasRead(s, req) && EndsUnforced(t, req)
    ensures DeleteFamily(req) in steps <==> ReadsTooLate(s, steps, req)
    decreases |steps|
  {
    if steps != [] {
      var u := Apply(s, steps[0]).value;
      assert steps == [steps[0]] + steps[1..];
      if HasRead(u, req) {
        RestOfRun(u, steps[1..], t, req);
      } else {
        RevokesExactly(u, steps[1..], t, req);
      }
    }
  }

  lemma {:induction false} DeleteRevokes(s: State, steps: seq<Step>, t: State, req: nat)
    requires Inv(s) && Runs(s, steps, t) && DeleteFamily(req) in steps
    ensures req in t.requests && t.requests[req].token.familyId in t.revoked
    decreases |steps|
  {
    var u := Apply(s, steps[0]).value;
    StepKeepsInv(s, steps[0]);
    if steps[0] == DeleteFamily(req) {
      RunKeeps(u, steps[1..], t);
      RunOfReplay(u, steps[1..], t, req);
    } else {
      assert steps == [steps[0]] + steps[1..];
      DeleteRevokes(u, steps[1..], t, req);
    }
  }

  /**
   * Reuse is detected, and the family revoked, exactly when the presenting request read after the row was gone; a request
   * that had read before, and lost the race, leaves the family alone.
   */
  lemma ReuseDetectedExactly(s: State, steps: seq<Step>, t: State, req: nat)
    requires Inv(s) && Runs(s, steps, t) && !HasRead(s, req) && EndsUnforced(t, req)
    ensures DeleteFamily(req) in steps <==> ReadsTooLate(s, steps, req)
    ensures ReadsTooLate(s, steps, req) ==> t.requests[req].token.familyId in t.revoked
  {
    RevokesExactly(s, steps, t, req);
    if DeleteFamily(req) in steps {
      DeleteRevokes(s, steps, t, req);
    }
  }

  // ---- the race that goes undetected ----

  lemma RunsStep(s: State, step: Step, rest: seq<Step>, t: State)
    requires Apply(s, step).Some? && Runs(Apply(s, step).value, rest, t)
    ensures Runs(s, [step] + rest, t)
  {
    assert ([step] + rest)[1..] == rest;
  }

  lemma {:induction false} RunsConcat(s: State, a: seq<Step>, t: State, b: seq<Step>, u: State)
    requires Runs(s, a, t) && Runs(t, b, u)
    ensures Runs(s, a + b, u)
    decreases |a|
  {
    if a == [] {
      assert a + b == b;
    } else {
      assert (a + b)[0] == a[0] && (a + b)[1..] == a[1..] + b;
      RunsConcat(Apply(s, a[0]).value, a[1..], t, b, u);
    }
  }

  /** A family and two requests with its first token. */
  lemma TwoPresent(f: string, av: string, iv: string, now: nat) returns (steps: seq<Step>, t: State)
    ensures var row := FirstRow(f, av, iv, now); var token := Token(0, f, "");
      && Runs(Start(), steps, t)
      && t.table == Table(map[0 := row], 1) && t.consumed == [] && t.revoked == {}
      && t.requests == map[0 := Decrypted(token, now), 1 := Decrypted(token, now)]
  {
    var token := Token(0, f, "");
    var a := Apply(Start(), NewFamily(f, av, iv, now)).value;
    assert a.table == Table(map[0 := FirstRow(f, av, iv, now)], 1) && token in a.issued;
    var b := Apply(a, Begin(0, token, now)).value;
    t := Apply(b, Begin(1, token, now)).value;
    RunsStep(b, Begin(1, token, now), [], t);
    RunsStep(a, Begin(0, token, now), [Begin(1, token, now)], t);
    steps := [NewFamily(f, av, iv, now)] + ([Begin(0, token, now)] + [Begin(1, token, now)]);
    RunsStep(Start(), NewFamily(f, av, iv, now), [Begin(0, token, now)] + [Begin(1, token, now)], t);
  }

  /** Both read and check before either rotates. */
  lemma BothPass(s: State, token: Token, row: Row, now: nat) returns (steps: seq<Step>, t: State)
    requires s.requests == map[0 := Decrypted(token, now), 1 := Decrypted(token, now)]
    requires token.id in s.table.rows && s.table.rows[token.id] == row && Acceptable(row, token, now)
    ensures Runs(s, steps, t) && t.table == s.table && t.consumed == s.consumed && t.revoked == s.revoked
    ensures t.requests == map[0 := Checked(token, now, row), 1 := Checked(token, now, row)]
  {
    var a := Apply(s, ReadRow(0)).value;
    var b := Apply(a, ReadRow(1)).value;
    var c := Apply(b, CheckRow(0)).value;
    t := Apply(c, CheckRow(1)).value;
    RunsStep(c, CheckRow(1), [], t);
    RunsStep(b, CheckRow(0), [CheckRow(1)], t);
    RunsStep(a, ReadRow(1), [CheckRow(0)] + [CheckRow(1)], t);
    steps := [ReadRow(0)] + ([ReadRow(1)] + ([CheckRow(0)] + [CheckRow(1)]));
    RunsStep(s, ReadRow(0), [ReadRow(1)] + ([CheckRow(0)] + [CheckRow(1)]), t);
  }

  /** The first to rotate wins; the second gets an error and leaves the family alone. */
  lemma OneWins(s: State, token: Token, row: Row, now: nat, n1: string, n2: string) returns (steps: seq<Step>, t: State)
    requires s.requests == map[0 := Checked(token, now, row), 1 := Checked(token, now, row)]
    requires s.table == Table(map[0 := row], 1) && token.id == 0 && s.consumed == []
    ensures Runs(s, steps, t) && t.revoked == s.revoked && t.consumed == [0]
    ensures 1 in t.requests && t.requests[1] == Done(token, NoRowError)
    ensures 1 in t.table.rows && t.table.rows[1].familyId == row.familyId
  {
    var a := Apply(s, RotateRow(0, n1)).value;
    assert a.table.rows.Keys == {1} && a.requests[1] == Checked(token, now, row);
    t := Apply(a, RotateRow(1, n2)).value;
    RunsStep(a, RotateRow(1, n2), [], t);
    steps := [RotateRow(0, n1)] + [RotateRow(1, n2)];
    RunsStep(s, RotateRow(0, n1), [RotateRow(1, n2)], t);
  }

  /**
   * From an empty table, at any time that a fresh token is good: one request consumes the token, another presents it and
   * ends in an error, and yet no family is revoked and the family's new row is alive.
   */
  lemma RaceGoesUndetected(f: string, av: string, iv: string, now: nat, n1: string, n2: string)
    returns (steps: seq<Step>, t: State)
    requires EARLIEST_IAT <= now < 0x8000_0000 - REFRESH_EXP - GRACE_PERIOD
    ensures Runs(Start(), steps, t) && t.consumed == [0] && t.revoked == {}
    ensures 1 in t.requests && t.requests[1] == Done(Token(0, f, ""), NoRowError)
    ensures 1 in t.table.rows && t.table.rows[1].familyId == f
  {
    var token, row := Token(0, f, ""), FirstRow(f, av, iv, now);
    var first, a := TwoPresent(f, av, iv, now);
    assert Acceptable(row, token, now);
    var second, b := BothPass(a, token, row, now);
    var third, c := OneWins(b, token, row, now, n1, n2);
    RunsConcat(Start(), first, a, second, b);
    RunsConcat(Start(), first + second, b, third, c);
    steps, t := first + second + third, c;
  }
}
