/** The names under which actions, targets and ephemeral types are stored. */
module Names {
  import opened Common

  predicate IsAscii(s: string) {
    forall i :: 0 <= i < |s| ==> s[i] < 128 as char
  }

  function Ascii(s: string): (b: Bytes)
    requires IsAscii(s)
    ensures |b| == |s| && forall i :: 0 <= i < |b| ==> b[i] == s[i] as int
  {
    seq(|s|, i requires 0 <= i < |s| => s[i] as int)
  }

  datatype ActionType =
    | ResetPassword | DeleteClaims | SetClaims | AddClaims | MergeClaims | ReadUsers | ReadPassword | DeleteUser

  function ActionName(a: ActionType): (s: string)
    ensures IsAscii(s) && |s| <= 14
  {
    match a
    case ResetPassword => "reset_password"
    case DeleteClaims => "delete_claims"
    case SetClaims => "set_claims"
    case AddClaims => "add_claims"
    case MergeClaims => "merge_claims"
    case ReadUsers => "read_users"
    case ReadPassword => "read_password"
    case DeleteUser => "delete_user"
  }

  function ActionFromName(name: Bytes): Option<ActionType> {
    if name == Ascii("reset_password") then Some(ResetPassword)
    else if name == Ascii("delete_claims") then Some(DeleteClaims)
    else if name == Ascii("set_claims") then Some(SetClaims)
    else if name == Ascii("add_claims") then Some(AddClaims)
    else if name == Ascii("merge_claims") then Some(MergeClaims)
    else if name == Ascii("read_users") then Some(ReadUsers)
    else if name == Ascii("read_password") then Some(ReadPassword)
    else if name == Ascii("delete_user") then Some(DeleteUser)
    else None
  }

  lemma ActionNameRead(name: Bytes)
    ensures var a := ActionFromName(name); a.Some? ==> name == Ascii(ActionName(a.value))
  {
  }

  lemma EarlierNameBack(a: ActionType)
    requires a.ResetPassword? || a.DeleteClaims? || a.SetClaims? || a.AddClaims?
    ensures ActionFromName(Ascii(ActionName(a))) == Some(a)
  {
    assert Ascii("set_claims")[0] != Ascii("add_claims")[0];
  }

  lemma LaterNameBack(a: ActionType)
    requires a.MergeClaims? || a.ReadUsers? || a.ReadPassword? || a.DeleteUser?
    ensures ActionFromName(Ascii(ActionName(a))) == Some(a)
  {
    assert Ascii("delete_claims")[0] != Ascii("read_password")[0];
    assert Ascii("set_claims")[0] != Ascii("read_users")[0] && Ascii("add_claims")[0] != Ascii("read_users")[0];
  }

  /** Names of one length differ in their first letter. */
  lemma ActionNameBack(a: ActionType)
    ensures ActionFromName(Ascii(ActionName(a))) == Some(a)
  {
    if a.ResetPassword? || a.DeleteClaims? || a.SetClaims? || a.AddClaims? {
      EarlierNameBack(a);
    } else {
      LaterNameBack(a);
    }
  }

  lemma ActionNamesExactly(name: Bytes, a: ActionType)
    ensures ActionFromName(name) == Some(a) <==> name == Ascii(ActionName(a))
  {
    ActionNameRead(name);
    ActionNameBack(a);
  }

  datatype Target = Select | Range | All

  function TargetName(t: Target): (s: string)
    ensures IsAscii(s) && |s| <= 14
  {
    match t
    case Select => "select"
    case Range => "range"
    case All => "all"
  }

  function TargetFromName(name: Bytes): Option<Target> {
    if name == Ascii("select") then Some(Select)
    else if name == Ascii("range") then Some(Range)
    else if name == Ascii("all") then Some(All)
    else None
  }

  lemma TargetNamesExactly(name: Bytes, t: Target)
    ensures TargetFromName(name) == Some(t) <==> name == Ascii(TargetName(t))
  {
  }

  datatype EphemeralType = NewUser | ChangePassword | SetPassword | Login | ProofToken

  function KeyName(t: EphemeralType): (s: string)
    ensures IsAscii(s) && |s| <= 14
  {
    match t
    case NewUser => "new_user"
    case ChangePassword => "change_pass"
    case SetPassword => "set_pass"
    case Login => "login"
    case ProofToken => "proof_token"
  }

  function FromKeyName(name: Bytes): Option<EphemeralType> {
    if name == Ascii("new_user") then Some(NewUser)
    else if name == Ascii("change_pass") then Some(ChangePassword)
    else if name == Ascii("set_pass") then Some(SetPassword)
    else if name == Ascii("login") then Some(Login)
    else if name == Ascii("proof_token") then Some(ProofToken)
    else None
  }

  lemma KeyNamesExactly(name: Bytes, t: EphemeralType)
    ensures FromKeyName(name) == Some(t) <==> name == Ascii(KeyName(t))
  {
    assert Ascii("change_pass")[0] != Ascii("proof_token")[0] && Ascii("new_user")[0] != Ascii("set_pass")[0];
  }
}
