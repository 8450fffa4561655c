/** Families do not disturb each other: whose rows a step may touch, and which families are alive after any run. */
module RefreshFamilies {
  import opened Common
  import opened RefreshTable
  import opened RefreshProtocol
  import opened RefreshReuse

  /** The family for which a step works. */
  function FamilyOf(s: State, step: Step): Option<string> {
    match step
    case NewFamily(f, _, _, _) => Some(f)
    case Begin(_, token, _) => Some(token.familyId)
    case ReadRow(req) => RequestFamily(s, req)
    case CheckRow(req) => RequestFamily(s, req)
    case DeleteFamily(req) => RequestFamily(s, req)
    case RotateRow(req, _) => RequestFamily(s, req)
    case Fail(req) => RequestFamily(s, req)
  }

  function RequestFamily(s: State, req: nat): Option<string> {
    if req in s.requests then Some(s.requests[req].token.familyId) else None
  }

  predicate RowOf(s: State, id: nat, f: string) {
    id in s.table.rows && s.table.rows[id].familyId == f
  }

  /** A step leaves the rows of every other family exactly as they were. */
  lemma FamiliesAreIsolated(s: State, step: Step, f: string)
    requires Inv(s) && Apply(s, step).Some? && FamilyOf(s, step) != Some(f)
    ensures var t := Apply(s, step).value;
      && (forall id :: RowOf(t, id, f) <==> RowOf(s, id, f))
      && (forall id :: RowOf(s, id, f) ==> t.table.rows[id] == s.table.rows[id])
      && (f in t.revoked <==> f in s.revoked)
  {
    if step.RotateRow? {
      var r := s.requests[step.req];
      assert RequestOk(s, r) && TokenOk(s, r.token);
    }
    if step.DeleteFamily? {
      assert RequestOk(s, s.requests[step.req]);
    }
  }

  /** A row goes in a step if and only if it is the row that a refresh replaces, or one of a family being revoked. */
  lemma RowGoesExactly(s: State, step: Step, id: nat)
    requires Inv(s) && Apply(s, step).Some? && id in s.table.rows
    ensures id !in Apply(s, step).value.table.rows <==>
      || (step.RotateRow? && s.requests[step.req].token.id == id)
      || (step.DeleteFamily? && s.requests[step.req].token.familyId == s.table.rows[id].familyId)
  {
  }

  ghost predicate Alive(s: State, f: string) {
    exists id :: RowOf(s, id, f)
  }

  /** Families that have not been revoked have a row. */
  ghost predicate UnrevokedAlive(s: State) {
    forall f :: f in s.origins && f !in s.revoked ==> Alive(s, f)
  }

  lemma OwnStepKeepsAlive(s: State, step: Step, f: string)
    requires Inv(s) && Apply(s, step).Some? && FamilyOf(s, step) == Some(f)
    requires f in s.origins && f !in s.revoked ==> Alive(s, f)
    ensures var t := Apply(s, step).value; f in t.origins && f !in t.revoked ==> Alive(t, f)
  {
    var t := Apply(s, step).value;
    if f in t.origins && f !in t.revoked {
      match step {
        case NewFamily(_, av, iv, now) => assert RowOf(t, s.table.nextId, f);
        case RotateRow(req, nonce) =>
          var r := s.requests[req];
          assert RequestOk(s, r) && TokenOk(s, r.token);
          var id :| RowOf(s, id, f);
          if r.token.id in s.table.rows {
            assert RowOf(t, s.table.nextId, f);
          } else {
            assert RowOf(t, id, f);
          }
        case DeleteFamily(_) =>
        case _ =>
          var id :| RowOf(s, id, f);
          assert RowOf(t, id, f);
      }
    }
  }

  lemma StepKeepsAlive(s: State, step: Step)
    requires Inv(s) && UnrevokedAlive(s) && Apply(s, step).Some?
    ensures UnrevokedAlive(Apply(s, step).value)
  {
    var t := Apply(s, step).value;
    forall f | f in t.origins && f !in t.revoked
      ensures Alive(t, f)
    {
      if FamilyOf(s, step) == Some(f) {
        OwnStepKeepsAlive(s, step, f);
      } else {
        FamiliesAreIsolated(s, step, f);
        assert f in s.origins && Alive(s, f);
        var id :| RowOf(s, id, f);
        assert RowOf(t, id, f);
      }
    }
  }

  lemma {:induction false} RunKeepsAlive(s: State, steps: seq<Step>, t: State)
    requires Inv(s) && UnrevokedAlive(s) && Runs(s, steps, t)
    ensures Inv(t) && UnrevokedAlive(t)
    decreases |steps|
  {
    if steps != [] {
      StepKeepsInv(s, steps[0]);
      StepKeepsAlive(s, steps[0]);
      RunKeepsAlive(Apply(s, steps[0]).value, steps[1..], t);
    }
  }

  /** After any run from the empty table a family has exactly one row if it has not been revoked, and none if it has. */
  lemma FamilyLivesExactly(steps: seq<Step>, t: State, f: string)
    requires Runs(Start(), steps, t) && f in t.origins
    ensures Alive(t, f) <==> f !in t.revoked
    ensures forall a, b :: RowOf(t, a, f) && RowOf(t, b, f) ==> a == b
  {
    InitialInv();
    RunKeepsAlive(Start(), steps, t);
    if f in t.revoked {
      assert NoRowOf(t, f);
    }
  }

  /** A family is revoked only in a step of one of its own requests, which has found its row gone. */
  lemma RevokedOnlyByOwnReplay(s: State, step: Step, f: string)
    requires Inv(s) && Apply(s, step).Some? && f !in s.revoked
    ensures f in Apply(s, step).value.revoked <==>
      step.DeleteFamily? && s.requests[step.req].token.familyId == f && s.requests[step.req].Missing?
    ensures f in Apply(s, step).value.revoked ==> s.requests[step.req].token.id !in s.table.rows
  {
    if step.DeleteFamily? {
      assert RequestOk(s, s.requests[step.req]);
    }
  }

  // ---- which tokens are refreshed ----

  /**
   * Undisturbed, and for any token, forged or not: it is refreshed if and only if it names a row with its nonce and family
   * that was issued in time and has not expired; a row that does not match is left alone, and a missing one revokes the family.
   */
  lemma AnyTokenRefreshesExactly(t: Table, token: Token, now: nat, nonce: string)
    ensures var (after, outcome) := RefreshAlone(t, token, now, nonce);
      var good := && token.id in t.rows && t.rows[token.id].nonce == token.nonce
                  && t.rows[token.id].familyId == token.familyId
                  && 1640690242 <= t.rows[token.id].iat <= now && now <= WrapI32(t.rows[token.id].exp + 180);
      && (outcome.Success? <==> good) && (!good ==> outcome == InvalidRefresh)
      && (good ==>
            && outcome.token == Token(t.nextId, token.familyId, nonce) && after.nextId == t.nextId + 1
            && after.rows == (t.rows - {token.id})[t.nextId := t.rows[token.id].(nonce := nonce, iat := WrapI32(now))])
      && (!good && token.id in t.rows ==> after == t)
      && (token.id !in t.rows ==>
            forall id :: id in after.rows <==> id in t.rows && t.rows[id].familyId != token.familyId)
  {
  }

  // ---- how long a family can be refreshed ----

  /** A row's values for the family, and the times at which it may still be refreshed. */
  ghost predicate BornAt(s: State, f: string, born: nat) {
    f in s.origins && s.origins[f].exp == born + 3600
  }

  lemma CreationFixesExpiry(s: State, f: string, av: string, iv: string, now: nat)
    requires f !in s.origins && now < 0x8000_0000 - 3600
    ensures BornAt(Apply(s, NewFamily(f, av, iv, now)).value, f, now)
  {
  }

  /** Rotation does not extend a family: in every run all refreshes pass the check within 63 minutes of its creation. */
  lemma FamilyExpires(s: State, steps: seq<Step>, t: State, req: nat, born: nat)
    requires Inv(s) && Runs(s, steps, t) && req in t.requests && t.requests[req].Checked?
    requires born < 0x8000_0000 - 3780 && BornAt(s, t.requests[req].token.familyId, born)
    ensures t.requests[req].now <= born + 3780 && 1640690242 <= t.requests[req].row.iat <= t.requests[req].now
  {
    RunKeeps(s, steps, t);
    CheckedInTime(t, req, born);
  }

  lemma CheckedInTime(t: State, req: nat, born: nat)
    requires Inv(t) && req in t.requests && t.requests[req].Checked?
    requires born < 0x8000_0000 - 3780 && BornAt(t, t.requests[req].token.familyId, born)
    ensures t.requests[req].now <= born + 3780 && 1640690242 <= t.requests[req].row.iat <= t.requests[req].now
  {
    assert RequestOk(t, t.requests[req]);
  }

  /** A token of a new family is good from its creation for 63 minutes, and not longer. */
  lemma NewTokenIsGoodExactly(t: Table, f: string, av: string, iv: string, born: nat, now: nat, nonce: string)
    requires 1640690242 <= born < 0x8000_0000 - 3780
    ensures var token := Token(t.nextId, f, "");
      RefreshAlone(Insert(t, FirstRow(f, av, iv, born)), token, now, nonce).1
        == if born <= now <= born + 3780 then Success(Token(t.nextId + 1, f, nonce)) else InvalidRefresh
  {
  }

  /** So is the token of a refresh, from that refresh on, to the same end. */
  lemma RotatedTokenIsGoodExactly(t: Table, id: nat, row: Row, born: nat, at: nat, nonce: string, now: nat, next: string)
    requires id in t.rows && t.rows[id] == row && row.exp == born + 3600
    requires 1640690242 <= at < 0x8000_0000 && born < 0x8000_0000 - 3780
    ensures var (table, _) := Rotate(t, id, NewRefresh(row, nonce, at));
      RefreshAlone(table, Token(t.nextId, row.familyId, nonce), now, next).1.Success? <==> at <= now <= born + 3780
  {
  }
}
