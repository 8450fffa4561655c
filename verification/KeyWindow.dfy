/** Keys derived from the time: which key is in use at a moment, and which keys are accepted at a later one. */
module KeyWindow {
  import opened Arith
  import opened Common

  const EPHEMERAL_INTERVAL: nat := 6 * 60 * 60
  const LEEWAY: nat := 10

  /** `a - b` on `u64`; none where it underflows. */
  function Minus(a: nat, b: nat): Option<nat> {
    if a < b then None else Some(a - b)
  }

  /** `EphemeralKey::compute`: the key is fixed by the number of whole intervals since the reference time. */
  function Compute(interval: nat, now: nat, refTime: nat): Option<nat>
    requires interval > 0
  {
    match Minus(now, refTime)
    case None => None
    case Some(passed) => Some(passed / interval)
  }

  /** The keys for `i = count - 1` down to 0; none where one of the subtractions underflows. */
  function KeysBack(interval: nat, now: nat, refTime: nat, count: nat): Option<seq<nat>>
    requires interval > 0
  {
    if count == 0 then Some([])
    else
      match Minus(now, (count - 1) * interval)
      case None => None
      case Some(at) =>
        match (Compute(interval, at, refTime), KeysBack(interval, now, refTime, count - 1))
        case (Some(key), Some(keys)) => Some([key] + keys)
        case _ => None
  }

  /** `EphemeralKey::last` */
  function Last(interval: nat, now: nat, refTime: nat, amountValid: nat): Option<seq<nat>>
    requires interval > 0
  {
    match Minus(now, refTime)
    case None => None
    case Some(passed) =>
      var available := passed / interval + 1;
      KeysBack(interval, now, refTime, if amountValid < available then amountValid else available)
  }

  lemma DivMono(x: nat, y: nat, n: nat)
    requires n > 0
    ensures x <= y ==> x / n <= y / n
  {
    assert x == n * (x / n) + x % n && y == n * (y / n) + y % n;
    MulGap(n, y / n, x / n);
  }

  lemma GoBack(passed: nat, k: nat, interval: nat)
    requires interval > 0 && k <= passed / interval
    ensures k * interval <= passed && (passed - k * interval) / interval == passed / interval - k
  {
    assert passed == interval * (passed / interval) + passed % interval;
    MulGap(interval, k, passed / interval);
    ModShift(passed - k * interval, k, interval);
  }

  lemma {:induction false} KeysBackAre(interval: nat, now: nat, refTime: nat, count: nat)
    requires interval > 0 && now >= refTime && count <= (now - refTime) / interval + 1
    ensures KeysBack(interval, now, refTime, count)
         == Some(seq(count, i requires 0 <= i < count => (now - refTime) / interval + 1 - count + i))
  {
    if count == 0 {
      assert seq(0, i requires 0 <= i < 0 => (now - refTime) / interval + 1 + i) == [];
    } else {
      var passed := now - refTime;
      GoBack(passed, count - 1, interval);
      assert now - (count - 1) * interval - refTime == passed - (count - 1) * interval;
      KeysBackAre(interval, now, refTime, count - 1);
      assert seq(count, i requires 0 <= i < count => passed / interval + 1 - count + i)
          == [passed / interval + 1 - count]
           + seq(count - 1, i requires 0 <= i < count - 1 => passed / interval + 1 - (count - 1) + i);
    }
  }

  /**
   * With the reference time not in the future nothing underflows, and the accepted keys are those of the current
   * interval and of the `valid - 1` intervals before it.
   */
  lemma WindowExactly(interval: nat, now: nat, refTime: nat, valid: nat, key: nat)
    requires interval > 0 && now >= refTime
    ensures var keys := Last(interval, now, refTime, valid);
      var current := (now - refTime) / interval;
      keys.Some? && (key in keys.value <==> key <= current && current - key < valid)
  {
    var current := (now - refTime) / interval;
    var count := if valid < current + 1 then valid else current + 1;
    KeysBackAre(interval, now, refTime, count);
    var keys := Last(interval, now, refTime, valid).value;
    if key <= current && current - key < valid {
      assert keys[key - (current + 1 - count)] == key;
    }
  }

  /** A reference time in the future makes both functions underflow. */
  lemma FutureReferenceUnderflows(interval: nat, now: nat, refTime: nat, valid: nat)
    requires interval > 0
    ensures (Last(interval, now, refTime, valid) == None <==> now < refTime)
    ensures (Compute(interval, now, refTime) == None <==> now < refTime)
  {
    if now >= refTime {
      WindowExactly(interval, now, refTime, valid, 0);
    }
  }

  ghost predicate Accepted(interval: nat, refTime: nat, valid: nat, t: nat, now: nat)
    requires interval > 0 && refTime <= t <= now
  {
    var keys := Last(interval, now, refTime, valid);
    keys.Some? && Compute(interval, t, refTime).value in keys.value
  }

  /** A key used at `t` is accepted at `now` exactly when fewer than `valid` interval boundaries lie between. */
  lemma AcceptedExactly(interval: nat, refTime: nat, valid: nat, t: nat, now: nat)
    requires interval > 0 && refTime <= t <= now
    ensures Accepted(interval, refTime, valid, t, now) <==> (now - refTime) / interval - (t - refTime) / interval < valid
    ensures valid > 0 && now - t <= (valid - 1) * interval ==> Accepted(interval, refTime, valid, t, now)
    ensures now - t >= valid * interval ==> !Accepted(interval, refTime, valid, t, now)
  {
    WindowExactly(interval, now, refTime, valid, (t - refTime) / interval);
    Boundaries(t - refTime, now - refTime, interval, valid);
  }

  lemma Boundaries(a: nat, b: nat, interval: nat, valid: nat)
    requires interval > 0 && a <= b
    ensures a / interval <= b / interval
    ensures valid > 0 && b - a <= (valid - 1) * interval ==> b / interval - a / interval < valid
    ensures b - a >= valid * interval ==> b / interval - a / interval >= valid
  {
    DivMono(a, b, interval);
    if valid > 0 {
      ModShift(a, valid - 1, interval);
      DivMono(b, interval * (valid - 1) + a, interval);
    }
    ModShift(a, valid, interval);
    DivMono(interval * valid + a, b, interval);
  }

  /**
   * A token made with `create` lives for two intervals and its key for `valid`. Where the key is accepted, the token is
   * unexpired at every second reading of the clock that is late by no more than the difference and the leeway.
   */
  lemma AcceptedIsUnexpired(refTime: nat, valid: nat, t: nat, now: nat, again: nat, gap: nat)
    requires refTime <= t <= now && again <= now + gap
    requires Accepted(EPHEMERAL_INTERVAL, refTime, valid, t, now)
    requires valid * EPHEMERAL_INTERVAL + gap <= 2 * EPHEMERAL_INTERVAL + LEEWAY
    ensures again < t + EPHEMERAL_INTERVAL * 2 + LEEWAY
  {
    AcceptedExactly(EPHEMERAL_INTERVAL, refTime, valid, t, now);
  }

  lemma OneLess(interval: nat, valid: nat)
    requires interval > 0 && valid > 0
    ensures valid * interval - 1 == interval * (valid - 1) + (interval - 1) && valid * interval == interval * valid
  {
    assert interval * valid == interval * (valid - 1) + interval;
  }

  lemma LastSecond(interval: nat, valid: nat)
    requires interval > 0 && valid > 0
    ensures valid * interval >= 1 && (valid * interval - 1) / interval == valid - 1
    ensures valid * interval / interval == valid && 0 / interval == 0
  {
    OneLess(interval, valid);
    DivModUnique(valid * interval - 1, interval, valid - 1, interval - 1);
    DivModUnique(valid * interval, interval, valid, 0);
    DivModUnique(0, interval, 0, 0);
  }

  /** A key taken into use at the reference time is accepted up to the last second of `valid` intervals. */
  lemma AcceptedToTheLast(interval: nat, refTime: nat, valid: nat)
    requires interval > 0 && valid > 0
    ensures valid * interval >= 1
    ensures Accepted(interval, refTime, valid, refTime, refTime + (valid * interval - 1))
    ensures !Accepted(interval, refTime, valid, refTime, refTime + valid * interval)
  {
    LastSecond(interval, valid);
    AcceptedFromReference(interval, refTime, valid, valid * interval - 1);
    AcceptedFromReference(interval, refTime, valid, valid * interval);
  }

  lemma AcceptedFromReference(interval: nat, refTime: nat, valid: nat, age: nat)
    requires interval > 0 && 0 / interval == 0
    ensures Accepted(interval, refTime, valid, refTime, refTime + age) <==> age / interval < valid
  {
    AcceptedExactly(interval, refTime, valid, refTime, refTime + age);
  }

  // ---- session keys ----

  /** The session keys of one application, the key in use last. */
  class SessionKeys<K(==)> {
    const keys: array<K>

    constructor (initial: seq<K>)
      requires initial != []
      ensures fresh(keys) && keys[..] == initial
    {
      keys := new K[|initial|](i requires 0 <= i < |initial| => initial[i]);
    }

    method Rotate(key: K)
      requires keys.Length > 0
      modifies keys
      ensures keys[..] == old(keys[1..]) + [key]
    {
      var n := keys.Length;
      for i := 0 to n - 1
        invariant keys[..i] == old(keys[1..])[..i]
        invariant forall j :: i <= j < n ==> keys[j] == old(keys[j])
      {
        keys[i] := keys[i + 1];
      }
      keys[n - 1] := key;
    }

    method Invalidate(invalid: K, key: K)
      requires keys.Length > 0
      modifies keys
      ensures keys[..] == AfterInvalidate(old(keys[..]), invalid, key)
      ensures keys[keys.Length - 1] == key
      ensures invalid !in old(keys[..]) ==> keys[..] == old(keys[1..]) + [key]
      ensures forall i :: 0 <= i < keys.Length && old(keys[i]) == invalid && invalid !in old(keys[..i]) ==>
        keys[..] == old(keys[..i]) + old(keys[i + 1..]) + [key]
    {
      var n := keys.Length;
      ghost var was := keys[..];
      var at := 0;
      while at < n && keys[at] != invalid
        invariant 0 <= at <= n && invalid !in was[..at] && keys[..] == was
      {
        at := at + 1;
      }
      FirstIs(was, invalid, at);
      if at == n {
        Rotate(key);
      } else {
        for i := at to n - 1
          invariant forall j :: 0 <= j < at ==> keys[j] == was[j]
          invariant forall j :: at <= j < i ==> keys[j] == was[j + 1]
          invariant forall j :: i <= j < n ==> keys[j] == was[j]
        {
          keys[i] := keys[i + 1];
        }
        keys[n - 1] := key;
        Shifted(was, keys[..], at, key);
      }
    }
  }

  lemma Shifted<K>(was: seq<K>, now: seq<K>, at: nat, key: K)
    requires at < |was| == |now| && now[|now| - 1] == key
    requires forall j :: 0 <= j < at ==> now[j] == was[j]
    requires forall j :: at <= j < |now| - 1 ==> now[j] == was[j + 1]
    ensures now == was[..at] + was[at + 1..] + [key]
  {
  }

  ghost function FirstAt<K>(s: seq<K>, k: K): (i: nat)
    ensures i <= |s| && k !in s[..i] && (i < |s| ==> s[i] == k)
  {
    if s == [] || s[0] == k then 0
    else
      assert s == [s[0]] + s[1..];
      1 + FirstAt(s[1..], k)
  }

  lemma FirstIs<K>(s: seq<K>, k: K, i: nat)
    requires i <= |s| && k !in s[..i] && (i < |s| ==> s[i] == k)
    ensures FirstAt(s, k) == i
  {
    var f := FirstAt(s, k);
    forall j | 0 <= j < i
      ensures s[j] != k
    {
      assert s[..i][j] == s[j];
    }
    forall j | 0 <= j < f
      ensures s[j] != k
    {
      assert s[..f][j] == s[j];
    }
  }

  /** The invalid key is taken out, or the oldest key where it is not there; the new key comes last. */
  ghost function AfterInvalidate<K>(s: seq<K>, invalid: K, key: K): (r: seq<K>)
    requires s != []
    ensures |r| == |s|
  {
    var i := FirstAt(s, invalid);
    if i == |s| then s[1..] + [key] else s[..i] + s[i + 1..] + [key]
  }

  datatype KeyChange<K> = Rotated(key: K) | Invalidated(invalid: K, key: K)

  ghost function AfterChanges<K>(s: seq<K>, changes: seq<KeyChange<K>>): seq<K>
    requires s != []
    decreases |changes|
  {
    if changes == [] then s
    else
      AfterChanges(match changes[0]
                   case Rotated(k) => s[1..] + [k]
                   case Invalidated(i, k) => AfterInvalidate(s, i, k), changes[1..])
  }

  ghost predicate NeverBrought<K>(changes: seq<KeyChange<K>>, k: K) {
    forall i :: 0 <= i < |changes| ==> changes[i].key != k
  }

  /**
   * An invalidated key is accepted no more through all later changes that do not bring it back, if and only if it was
   * held at most once: `invalidate_session_key` takes out the first copy.
   */
  lemma {:induction false} InvalidatedStaysOutExactly<K(!new)>(s: seq<K>, invalid: K, key: K)
    requires s != [] && key != invalid
    ensures (forall later :: NeverBrought(later, invalid) ==>
               invalid !in AfterChanges(AfterInvalidate(s, invalid, key), later))
      <==> multiset(s)[invalid] <= 1
  {
    var r := AfterInvalidate(s, invalid, key);
    InvalidateTakesOne(s, invalid, key);
    if multiset(s)[invalid] <= 1 {
      forall later | NeverBrought(later, invalid)
        ensures invalid !in AfterChanges(r, later)
      {
        StaysOut(r, invalid, later);
      }
    } else {
      var none: seq<KeyChange<K>> := [];
      assert NeverBrought(none, invalid) && AfterChanges(r, none) == r;
      assert invalid in multiset(r);
    }
  }

  lemma InvalidateTakesOne<K>(s: seq<K>, invalid: K, key: K)
    requires s != [] && key != invalid
    ensures invalid in AfterInvalidate(s, invalid, key) <==> multiset(s)[invalid] > 1
  {
    var r := AfterInvalidate(s, invalid, key);
    var i := FirstAt(s, invalid);
    assert invalid in r <==> multiset(r)[invalid] > 0;
    if i == |s| {
      assert s[..i] == s;
      assert s == [s[0]] + s[1..];
    } else {
      assert s == s[..i] + [s[i]] + s[i + 1..];
    }
  }

  lemma {:induction false} StaysOut<K>(s: seq<K>, invalid: K, later: seq<KeyChange<K>>)
    requires s != [] && invalid !in s && NeverBrought(later, invalid)
    ensures invalid !in AfterChanges(s, later)
    decreases |later|
  {
    if later != [] {
      StaysOut(match later[0]
               case Rotated(k) => s[1..] + [k]
               case Invalidated(i, k) => AfterInvalidate(s, i, k), invalid, later[1..]);
    }
  }
}
