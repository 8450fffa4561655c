/**
 * Refresh-token rotation with reuse detection (section 6 of RFC 6749, section 4.14.2 of RFC 9700): any number of refresh
 * requests, each a read, a check and one transaction, interleaved in every order over one table.
 */
module RefreshProtocol {
  import opened Common
  import opened RefreshTable

  const REFRESH_EXP: int := 1 * 60 * 60
  const GRACE_PERIOD: int := 3 * 60
  const EARLIEST_IAT: int := 1640690242

  /** `as i32`, and what an i32 addition leaves after wrapping. */
  function WrapI32(x: int): int {
    (x + 0x8000_0000) % 0x1_0000_0000 - 0x8000_0000
  }

  /** The decrypted content of a refresh token; only tokens handed out by the server decrypt. */
  datatype Token = Token(id: nat, familyId: string, nonce: string)

  /** What is fixed when a family is created. */
  datatype Origin = Origin(accessValue: string, idTokenValue: string, exp: int)

  datatype Outcome = Success(token: Token) | InvalidRefresh | NoRowError | OtherError

  /** Where one refresh request is. */
  datatype Request =
    | Decrypted(token: Token, now: nat)
    | Read(token: Token, now: nat, row: Row)
    | Missing(token: Token)
    | Checked(token: Token, now: nat, row: Row)
    | Done(token: Token, outcome: Outcome)

  datatype State = State(
    table: Table,
    origins: map<string, Origin>,
    issued: set<Token>,
    requests: map<nat, Request>,
    consumed: seq<nat>,      // row ids, in the order in which successful refreshes replaced them
    revoked: set<string>)    // families for which delete_family has run

  datatype Step =
    | NewFamily(familyId: string, accessValue: string, idTokenValue: string, now: nat)
    | Begin(req: nat, token: Token, now: nat)
    | ReadRow(req: nat)
    | CheckRow(req: nat)
    | DeleteFamily(req: nat)
    | RotateRow(req: nat, nonce: string)
    | Fail(req: nat)

  function FirstRow(familyId: string, accessValue: string, idTokenValue: string, now: nat): Row {
    Row(familyId, accessValue, idTokenValue, WrapI32(now), WrapI32(WrapI32(now) + REFRESH_EXP), "")
  }

  /** `new_refresh`: a new nonce and issue time, all else kept. */
  function NewRefresh(before: Row, nonce: string, now: nat): Row {
    before.(nonce := nonce, iat := WrapI32(now))
  }

  predicate Acceptable(row: Row, token: Token, now: nat) {
    && row.nonce == token.nonce && row.familyId == token.familyId
    && !(row.iat > now || row.iat < EARLIEST_IAT)
    && !(now > WrapI32(row.exp + GRACE_PERIOD))
  }

  function SetRequest(s: State, req: nat, r: Request): State {
    s.(requests := s.requests[req := r])
  }

  /** The state after a step, or None when the step is not possible. */
  function Apply(s: State, step: Step): Option<State> {
    match step
    case NewFamily(f, av, iv, now) =>
      if f in s.origins then None
      else
        var row := FirstRow(f, av, iv, now);
        Some(s.(table := Insert(s.table, row),
                origins := s.origins[f := Origin(av, iv, row.exp)],
                issued := s.issued + {Token(s.table.nextId, f, row.nonce)}))
    case Begin(req, token, now) =>
      if req in s.requests || token !in s.issued then None
      else Some(SetRequest(s, req, Decrypted(token, now)))
    case ReadRow(req) =>
      if req !in s.requests || !s.requests[req].Decrypted? then None
      else
        var r := s.requests[req];
        Some(SetRequest(s, req,
          if r.token.id in s.table.rows then Read(r.token, r.now, s.table.rows[r.token.id]) else Missing(r.token)))
    case CheckRow(req) =>
      if req !in s.requests || !s.requests[req].Read? then None
      else
        var r := s.requests[req];
        Some(SetRequest(s, req,
          if Acceptable(r.row, r.token, r.now) then Checked(r.token, r.now, r.row) else Done(r.token, InvalidRefresh)))
    case DeleteFamily(req) =>
      if req !in s.requests || !s.requests[req].Missing? then None
      else
        var token := s.requests[req].token;
        Some(SetRequest(s, req, Done(token, InvalidRefresh))
             .(table := DeleteFamilyRows(s.table, token.familyId), revoked := s.revoked + {token.familyId}))
    case RotateRow(req, nonce) =>
      if req !in s.requests || !s.requests[req].Checked? then None
      else
        var r := s.requests[req];
        (match Rotate(s.table, r.token.id, NewRefresh(r.row, nonce, r.now))
         case (_, Err(NoRow)) => Some(SetRequest(s, req, Done(r.token, NoRowError)))
         case (table, Ok(id)) =>
           var token := Token(id, r.row.familyId, nonce);
           Some(SetRequest(s, req, Done(r.token, Success(token)))
                .(table := table, issued := s.issued + {token}, consumed := s.consumed + [r.token.id])))
    case Fail(req) =>
      if req !in s.requests || s.requests[req].Done? then None
      else Some(SetRequest(s, req, Done(s.requests[req].token, OtherError)))
  }

  // ---- the invariant ----

  ghost predicate FromOrigin(origins: map<string, Origin>, row: Row) {
    row.familyId in origins && origins[row.familyId] == Origin(row.accessValue, row.idTokenValue, row.exp)
  }

  ghost predicate RowsOk(s: State) {
    && IdsBelow(s.table)
    && forall id :: id in s.table.rows ==> FromOrigin(s.origins, s.table.rows[id])
  }

  /** No family has two live rows. */
  ghost predicate OneLiveRow(s: State) {
    forall a, b :: a in s.table.rows && b in s.table.rows && s.table.rows[a].familyId == s.table.rows[b].familyId
      ==> a == b
  }

  /** A token that was handed out names the row it was made with, for as long as that row lives. */
  ghost predicate TokenOk(s: State, t: Token) {
    && t.id < s.table.nextId && t.familyId in s.origins
    && (t.id in s.table.rows ==> s.table.rows[t.id].familyId == t.familyId && s.table.rows[t.id].nonce == t.nonce)
  }

  ghost predicate TokensOk(s: State) {
    forall t :: t in s.issued ==> TokenOk(s, t)
  }

  ghost predicate RequestOk(s: State, r: Request) {
    && r.token in s.issued
    && (r.Read? || r.Checked? ==>
          FromOrigin(s.origins, r.row) && (r.token.id in s.table.rows ==> s.table.rows[r.token.id] == r.row))
    && (r.Checked? ==> Acceptable(r.row, r.token, r.now))
    && (r.Missing? ==> r.token.id !in s.table.rows)
  }

  ghost predicate RequestsOk(s: State) {
    forall q :: q in s.requests ==> RequestOk(s, s.requests[q])
  }

  /** Consumed ids are gone for good, and no id is consumed twice. */
  ghost predicate ConsumedOk(s: State) {
    && (forall i :: 0 <= i < |s.consumed| ==> s.consumed[i] < s.table.nextId && s.consumed[i] !in s.table.rows)
    && (forall i, j :: 0 <= i < j < |s.consumed| ==> s.consumed[i] != s.consumed[j])
  }

  ghost predicate NoRowOf(s: State, familyId: string) {
    forall id :: id in s.table.rows ==> s.table.rows[id].familyId != familyId
  }

  ghost predicate RevokedOk(s: State) {
    forall f :: f in s.revoked ==> f in s.origins && NoRowOf(s, f)
  }

  ghost predicate Inv(s: State) {
    RowsOk(s) && OneLiveRow(s) && TokensOk(s) && RequestsOk(s) && ConsumedOk(s) && RevokedOk(s)
  }

  lemma InitialInv()
    ensures Inv(State(Table(map[], 0), map[], {}, map[], [], {}))
  {
  }

  /** The row that replaces another has its family, a fresh id, and the values fixed at the family's creation. */
  lemma RotateTable(s: State, req: nat, nonce: string)
    requires Inv(s) && Apply(s, RotateRow(req, nonce)).Some? && s.requests[req].token.id in s.table.rows
    ensures var t, r := Apply(s, RotateRow(req, nonce)).value, s.requests[req];
      var row := NewRefresh(r.row, nonce, r.now);
      && t.table.rows == (s.table.rows - {r.token.id})[s.table.nextId := row]
      && s.table.rows[r.token.id] == r.row && RowsOk(t) && OneLiveRow(t)
  {
    var t := Apply(s, RotateRow(req, nonce)).value;
    var r := s.requests[req];
    assert RequestOk(s, r);
    var row := NewRefresh(r.row, nonce, r.now);
    assert t.table.rows == (s.table.rows - {r.token.id})[s.table.nextId := row];
    assert FromOrigin(t.origins, row);
    forall a | a in t.table.rows && a != s.table.nextId
      ensures t.table.rows[a].familyId != row.familyId
    {
      assert a in s.table.rows && a != r.token.id;
    }
  }

  lemma RotateKeepsRequest(s: State, req: nat, nonce: string, q: nat)
    requires Inv(s) && Apply(s, RotateRow(req, nonce)).Some?
    requires q in s.requests && q != req && s.requests[req].token.id in s.table.rows
    ensures var t := Apply(s, RotateRow(req, nonce)).value;
      q in t.requests && t.requests[q] == s.requests[q] && RequestOk(t, t.requests[q])
  {
    RotateTable(s, req, nonce);
    assert RequestOk(s, s.requests[q]) && RequestOk(s, s.requests[req]);
    assert TokenOk(s, s.requests[q].token);
  }

  lemma RotateKeepsTokens(s: State, req: nat, nonce: string)
    requires Inv(s) && Apply(s, RotateRow(req, nonce)).Some? && s.requests[req].token.id in s.table.rows
    ensures TokensOk(Apply(s, RotateRow(req, nonce)).value)
  {
    var t := Apply(s, RotateRow(req, nonce)).value;
    RotateTable(s, req, nonce);
    assert RequestOk(s, s.requests[req]);
    forall k | k in t.issued
      ensures TokenOk(t, k)
    {
      if k in s.issued {
        assert TokenOk(s, k);
      }
    }
  }

  lemma RotateKeepsInv(s: State, req: nat, nonce: string)
    requires Inv(s) && Apply(s, RotateRow(req, nonce)).Some?
    ensures Inv(Apply(s, RotateRow(req, nonce)).value)
  {
    var t := Apply(s, RotateRow(req, nonce)).value;
    var r := s.requests[req];
    assert RequestOk(s, r);
    if r.token.id in s.table.rows {
      RotateTable(s, req, nonce);
      forall q | q in t.requests
        ensures RequestOk(t, t.requests[q])
      {
        if q != req {
          RotateKeepsRequest(s, req, nonce, q);
        }
      }
      RotateKeepsTokens(s, req, nonce);
      assert !NoRowOf(s, r.row.familyId);
    }
  }

  lemma NewFamilyKeepsInv(s: State, f: string, av: string, iv: string, now: nat)
    requires Inv(s) && f !in s.origins
    ensures Inv(Apply(s, NewFamily(f, av, iv, now)).value)
  {
    var t := Apply(s, NewFamily(f, av, iv, now)).value;
    forall q | q in t.requests
      ensures RequestOk(t, t.requests[q])
    {
      assert RequestOk(s, s.requests[q]);
      assert TokenOk(s, s.requests[q].token);
    }
    forall k | k in t.issued
      ensures TokenOk(t, k)
    {
      if k in s.issued {
        assert TokenOk(s, k);
      }
    }
  }

  /** Every step of every request keeps the invariant. */
  lemma StepKeepsInv(s: State, step: Step)
    requires Inv(s) && Apply(s, step).Some?
    ensures Inv(Apply(s, step).value)
  {
    var t := Apply(s, step).value;
    match step {
      case NewFamily(f, av, iv, now) => NewFamilyKeepsInv(s, f, av, iv, now);
      case RotateRow(req, nonce) => RotateKeepsInv(s, req, nonce);
      case DeleteFamily(req) =>
        assert RequestOk(s, s.requests[req]);
        forall q | q in t.requests
          ensures RequestOk(t, t.requests[q])
        {
          assert RequestOk(s, s.requests[q]);
        }
        forall k | k in t.issued
          ensures TokenOk(t, k)
        {
          assert TokenOk(s, k);
        }
      case Begin(req, token, now) => RequestStepKeepsInv(s, t, req);
      case ReadRow(req) => RequestStepKeepsInv(s, t, req);
      case CheckRow(req) => RequestStepKeepsInv(s, t, req);
      case Fail(req) => RequestStepKeepsInv(s, t, req);
    }
  }

  lemma RequestStepKeepsInv(s: State, t: State, req: nat)
    requires Inv(s) && req in t.requests && t == s.(requests := s.requests[req := t.requests[req]])
    requires RequestOk(s, t.requests[req])
    ensures Inv(t)
  {
    forall q | q in t.requests
      ensures RequestOk(t, t.requests[q])
    {
      if q != req {
        assert RequestOk(s, s.requests[q]);
      }
    }
    forall k | k in t.issued
      ensures TokenOk(t, k)
    {
      assert TokenOk(s, k);
    }
    forall f | f in t.revoked
      ensures NoRowOf(t, f)
    {
      assert NoRowOf(s, f);
    }
  }

  // ---- runs ----

  ghost predicate Runs(s: State, steps: seq<Step>, t: State)
    decreases |steps|
  {
    if steps == [] then t == s
    else Apply(s, steps[0]).Some? && Runs(Apply(s, steps[0]).value, steps[1..], t)
  }

  /** What no step ever takes back. */
  ghost predicate Later(s: State, t: State) {
    && s.revoked <= t.revoked && s.issued <= t.issued && s.consumed <= t.consumed
    && s.table.nextId <= t.table.nextId
    && (forall f :: f in s.origins ==> f in t.origins && t.origins[f] == s.origins[f])
    && (forall id :: id < s.table.nextId && id !in s.table.rows ==> id !in t.table.rows)
    && (forall id :: id in s.table.rows && id in t.table.rows ==> t.table.rows[id] == s.table.rows[id])
  }

  lemma StepIsLater(s: State, step: Step)
    requires Inv(s) && Apply(s, step).Some?
    ensures Later(s, Apply(s, step).value)
  {
  }

  lemma {:induction false} RunKeeps(s: State, steps: seq<Step>, t: State)
    requires Inv(s) && Runs(s, steps, t)
    ensures Inv(t) && Later(s, t)
    decreases |steps|
  {
    if steps != [] {
      var u := Apply(s, steps[0]).value;
      StepKeepsInv(s, steps[0]);
      StepIsLater(s, steps[0]);
      RunKeeps(u, steps[1..], t);
    }
  }

  /**
   * Once `delete_family` has run for a family, no row of it exists after any further interleaving, and no refresh of
   * it, whether in flight by then or started later, succeeds.
   */
  lemma RevokedFamilyStaysDead(s: State, steps: seq<Step>, t: State, req: nat, nonce: string)
    requires Inv(s) && Runs(s, steps, t)
    ensures forall f :: f in s.revoked ==> NoRowOf(t, f)
    ensures Apply(t, RotateRow(req, nonce)).Some? && t.requests[req].token.familyId in s.revoked ==>
      Apply(t, RotateRow(req, nonce)).value == SetRequest(t, req, Done(t.requests[req].token, NoRowError))
  {
    RunKeeps(s, steps, t);
    if Apply(t, RotateRow(req, nonce)).Some? && t.requests[req].token.familyId in s.revoked {
      assert RequestOk(t, t.requests[req]);
      assert TokenOk(t, t.requests[req].token);
      assert NoRowOf(t, t.requests[req].token.familyId);
    }
  }

  /** In every reachable state a live row carries what its family was created with, and is the family's only one. */
  lemma LiveRowIsUniqueAndUnchanged(s: State, steps: seq<Step>, t: State, f: string, id: nat)
    requires Inv(s) && Runs(s, steps, t)
    requires f in s.origins && id in t.table.rows && t.table.rows[id].familyId == f
    ensures var row := t.table.rows[id];
      && Origin(row.accessValue, row.idTokenValue, row.exp) == s.origins[f]
      && (forall other :: other in t.table.rows && t.table.rows[other].familyId == f ==> other == id)
  {
    RunKeeps(s, steps, t);
    assert FromOrigin(t.origins, t.table.rows[id]);
  }

  /** No row id is ever consumed by two successful refreshes. */
  lemma EachIdConsumedOnce(s: State, steps: seq<Step>, t: State, i: nat, j: nat)
    requires Inv(s) && Runs(s, steps, t)
    requires i < |t.consumed| && j < |t.consumed| && t.consumed[i] == t.consumed[j]
    ensures i == j
  {
    RunKeeps(s, steps, t);
  }

  /** A successful refresh consumes its own row and leaves exactly one live row, the one the returned token names. */
  lemma SuccessRotates(s: State, req: nat, nonce: string)
    requires Inv(s) && req in s.requests && s.requests[req].Checked?
    requires s.requests[req].token.id in s.table.rows
    ensures var r := s.requests[req]; var t := Apply(s, RotateRow(req, nonce)).value;
      && t.requests[req].Done? && t.requests[req].outcome.Success?
      && var token := t.requests[req].outcome.token;
      && token.id !in s.table.rows && token.familyId == r.token.familyId && token.nonce == nonce
      && r.token.id !in t.table.rows && t.consumed == s.consumed + [r.token.id]
      && token.id in t.table.rows && token in t.issued
      && t.table.rows[token.id] == s.table.rows[r.token.id].(nonce := nonce, iat := WrapI32(r.now))
      && (forall id :: id in t.table.rows && t.table.rows[id].familyId == token.familyId ==> id == token.id)
  {
    RotateKeepsInv(s, req, nonce);
    assert RequestOk(s, s.requests[req]);
  }

  // ---- one request on its own ----

  /** What `refresh_all_tokens` does to the table, and answers, when nothing runs in between. */
  function RefreshAlone(t: Table, token: Token, now: nat, nonce: string): (Table, Outcome) {
    if token.id !in t.rows then (DeleteFamilyRows(t, token.familyId), InvalidRefresh)
    else
      var row := t.rows[token.id];
      if Acceptable(row, token, now) then
        (Rotate(t, token.id, NewRefresh(row, nonce, now)).0, Success(Token(t.nextId, row.familyId, nonce)))
      else (t, InvalidRefresh)
  }

  method RefreshAllTokens(store: Store, token: Token, now: nat, nonce: string) returns (outcome: Outcome)
    modifies store
    ensures (store.Now(), outcome) == RefreshAlone(old(store.Now()), token, now, nonce)
  {
    var saved := store.RetrieveById(token.id);
    if saved.None? {
      store.DeleteByColumn(token.familyId);
      return InvalidRefresh;
    }
    var row := saved.value;
    if row.nonce != token.nonce || row.familyId != token.familyId {
      return InvalidRefresh;
    }
    if row.iat > now || row.iat < EARLIEST_IAT {
      return InvalidRefresh;
    }
    if now > WrapI32(row.exp + GRACE_PERIOD) {
      return InvalidRefresh;
    }
    var newId := store.DeleteInsertReturnIdTransaction(token.id, NewRefresh(row, nonce, now));
    outcome := match newId
               case Ok(id) => Success(Token(id, row.familyId, nonce))
               case Err(NoRow) => NoRowError;
  }

  method NewTokenFamily(store: Store, familyId: string, accessValue: string, idTokenValue: string, now: nat)
    returns (token: Token)
    modifies store
    ensures store.Now() == Insert(old(store.Now()), FirstRow(familyId, accessValue, idTokenValue, now))
    ensures token == Token(old(store.nextId), familyId, "")
  {
    var row := FirstRow(familyId, accessValue, idTokenValue, now);
    var id := store.InsertReturnId(row);
    token := Token(id, row.familyId, row.nonce);
  }

  /** The steps of one request with nothing in between add up to `RefreshAlone`. */
  lemma UndisturbedRun(s: State, req: nat, token: Token, now: nat, nonce: string) returns (steps: seq<Step>, t: State)
    requires req !in s.requests && token in s.issued
    ensures Runs(s, steps, t) && req in t.requests
    ensures t.requests[req].Done?
    ensures RefreshAlone(s.table, token, now, nonce) == (t.table, t.requests[req].outcome)
  {
    var a := Apply(s, Begin(req, token, now)).value;
    var b := Apply(a, ReadRow(req)).value;
    if token.id !in s.table.rows {
      t := Apply(b, DeleteFamily(req)).value;
      steps := [Begin(req, token, now), ReadRow(req), DeleteFamily(req)];
      assert Runs(b, [DeleteFamily(req)], t);
      assert steps[1..] == [ReadRow(req), DeleteFamily(req)] && steps[1..][1..] == [DeleteFamily(req)];
    } else {
      var c := Apply(b, CheckRow(req)).value;
      if c.requests[req].Checked? {
        t := Apply(c, RotateRow(req, nonce)).value;
        steps := [Begin(req, token, now), ReadRow(req), CheckRow(req), RotateRow(req, nonce)];
        assert Runs(c, [RotateRow(req, nonce)], t);
        assert steps[1..][1..][1..] == [RotateRow(req, nonce)];
      } else {
        t := c;
        steps := [Begin(req, token, now), ReadRow(req), CheckRow(req)];
        assert Runs(c, [], t) && steps[1..][1..][1..] == [];
      }
      assert Runs(b, steps[1..][1..], t);
      assert steps[1..][0] == ReadRow(req);
    }
    assert Runs(a, steps[1..], t);
  }

  /** Undisturbed, a token of a live row is refreshed exactly when the row's times allow it. */
  lemma LiveTokenRefreshesExactly(s: State, token: Token, now: nat, nonce: string)
    requires Inv(s) && token in s.issued && token.id in s.table.rows
    ensures var row := s.table.rows[token.id];
      RefreshAlone(s.table, token, now, nonce).1.Success? <==>
        EARLIEST_IAT <= row.iat <= now && now <= WrapI32(row.exp + GRACE_PERIOD)
  {
    assert TokenOk(s, token);
  }
}
