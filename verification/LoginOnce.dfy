/** A login token against the compact set that remembers used numbers: how often it can be accepted. */
module LoginOnce {
  import opened Common
  import opened CompactSpec
  import opened CompactRuns
  import opened Credentials

  /** What `verify_state` asks the set about a login token. */
  function TokenCall(t: Token, time: nat): Call
    requires t.kind.Login?
  {
    Call(t.kind.count, t.kind.until, Some(time))
  }

  /** `login_finish` with its question to the set, which is asked only about an unexpired login token. */
  ghost predicate AcceptedWith(hash: Bytes -> Bytes, n: nat, rs: seq<CompactRange.Range>, t: Token, time: nat, file: Bytes)
    requires t.kind.Login? && Addable(n, rs, t.kind.count)
  {
    LoginAccepted(hash, t, time, NumExists(n, rs, TokenCall(t, time)).1, file)
  }

  /** No later presentation of the token is accepted, whatever the set is asked in between, by whichever requests. */
  ghost predicate NeverAgain(hash: Bytes -> Bytes, n: nat, rs: seq<CompactRange.Range>, t: Token)
    requires t.kind.Login? && Addable(n, rs, t.kind.count)
  {
    forall calls, time: nat, file
      {:trigger LoginAccepted(hash, t, time, NumExists(n, After(n, rs, calls), TokenCall(t, time)).1, file)} ::
      CallsOk(rs[0].min, calls) ==>
        !LoginAccepted(hash, t, time, NumExists(n, After(n, rs, calls), TokenCall(t, time)).1, file)
  }

  lemma SeenIsNeverAgain(hash: Bytes -> Bytes, n: nat, rs: seq<CompactRange.Range>, t: Token)
    requires t.kind.Login? && Addable(n, rs, t.kind.count) && NeverAcceptedAgain(n, rs, t.kind.count)
    ensures NeverAgain(hash, n, rs, t)
  {
    forall calls, time: nat, file | CallsOk(rs[0].min, calls)
      ensures !LoginAccepted(hash, t, time, NumExists(n, After(n, rs, calls), TokenCall(t, time)).1, file)
    {
      assert NumExists(n, After(n, rs, calls), TokenCall(t, time)).1;
    }
  }

  lemma UnseenIsAgain(hash: Bytes -> Bytes, n: nat, rs: seq<CompactRange.Range>, t: Token, time: nat, file: Bytes)
    requires t.kind.Login? && Addable(n, rs, t.kind.count) && !NeverAcceptedAgain(n, rs, t.kind.count)
    requires LoginAccepted(hash, t, time, false, file)
    ensures !NeverAgain(hash, n, rs, t)
  {
    var calls, again: Call :|
      CallsOk(rs[0].min, calls) && again.num == t.kind.count && !NumExists(n, After(n, rs, calls), again).1;
    NumExistsExactly(n, After(n, rs, calls), again);
    NumExistsExactly(n, After(n, rs, calls), TokenCall(t, time));
    assert LoginAccepted(hash, t, time, NumExists(n, After(n, rs, calls), TokenCall(t, time)).1, file);
  }

  /**
   * An accepted login token is never accepted again, through any calls of other requests to the set, if and only if its
   * number lay below the upper end of the ranges when it was accepted.
   */
  lemma AcceptedOnceExactly(hash: Bytes -> Bytes, n: nat, rs: seq<CompactRange.Range>, t: Token, time: nat, file: Bytes)
    requires t.kind.Login? && Addable(n, rs, t.kind.count) && AcceptedWith(hash, n, rs, t, time, file)
    ensures Addable(n, NumExists(n, rs, TokenCall(t, time)).0, t.kind.count)
    ensures NeverAgain(hash, n, NumExists(n, rs, TokenCall(t, time)).0, t) <==> t.kind.count < LastMax(rs)
  {
    var c := TokenCall(t, time);
    NumExistsExactly(n, rs, c);
    CompactRuns.AcceptedOnceExactly(n, rs, c);
    var ss := NumExists(n, rs, c).0;
    if NeverAcceptedAgain(n, ss, c.num) {
      SeenIsNeverAgain(hash, n, ss, t);
    } else {
      UnseenIsAgain(hash, n, ss, t, time, file);
    }
  }
}
