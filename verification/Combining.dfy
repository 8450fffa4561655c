/** `combine_encode`: the base64url encoding of several slices, written piece by piece into one buffer. */
module Combining {
  import opened Common
  import opened Base64Url

  datatype Encoded = Encoded(text: Bytes) | Panic

  ghost function Flatten(inputs: seq<Bytes>): Bytes {
    if inputs == [] then [] else Flatten(inputs[..|inputs| - 1]) + inputs[|inputs| - 1]
  }

  /** The slice with index `i` is a single byte and meets a single left-over byte. */
  ghost predicate TrapAt(inputs: seq<Bytes>, i: int) {
    0 <= i < |inputs| && |inputs[i]| == 1 && |Flatten(inputs[..i])| % 3 == 1
  }

  ghost predicate Trap(inputs: seq<Bytes>) {
    exists i :: TrapAt(inputs, i)
  }

  ghost predicate NoTrapBefore(inputs: seq<Bytes>, k: nat) {
    forall i :: 0 <= i < k ==> !TrapAt(inputs, i)
  }

  lemma TrapsSoFar(inputs: seq<Bytes>, k: nat)
    requires k < |inputs| && NoTrapBefore(inputs, k)
    ensures |inputs[k]| == 1 && |Flatten(inputs[..k])| % 3 == 1 ==> Trap(inputs)
    ensures !(|inputs[k]| == 1 && |Flatten(inputs[..k])| % 3 == 1) ==> NoTrapBefore(inputs, k + 1)
  {
    assert TrapAt(inputs, k) <==> |inputs[k]| == 1 && |Flatten(inputs[..k])| % 3 == 1;
  }

  lemma FlattenNext(inputs: seq<Bytes>, k: nat)
    requires k < |inputs|
    ensures Flatten(inputs[..k + 1]) == Flatten(inputs[..k]) + inputs[k]
  {
    assert inputs[..k + 1][..k] == inputs[..k];
  }

  lemma {:induction false} FlattenGrows(inputs: seq<Bytes>, k: nat)
    requires k <= |inputs|
    ensures |Flatten(inputs[..k])| <= |Flatten(inputs)|
    decreases |inputs| - k
  {
    if k < |inputs| {
      FlattenNext(inputs, k);
      FlattenGrows(inputs, k + 1);
    } else {
      assert inputs[..k] == inputs;
    }
  }

  lemma {:induction false} EncodeNext(s: Bytes)
    requires |s| >= 3
    ensures Encode(s) == EncodeThree(s[0], s[1], s[2]) + Encode(s[3..])
  {
  }

  /** Encoding may be done piecewise wherever the pieces are whole triplets. */
  lemma {:induction false} EncodeConcat(a: Bytes, b: Bytes)
    requires |a| % 3 == 0
    ensures Encode(a + b) == Encode(a) + Encode(b)
  {
    if a == [] {
      assert a + b == b;
    } else {
      EncodeNext(a + b);
      EncodeNext(a);
      assert (a + b)[3..] == a[3..] + b;
      EncodeConcat(a[3..], b);
      Associate(EncodeThree(a[0], a[1], a[2]), Encode(a[3..]), Encode(b));
    }
  }

  ghost function Whole(s: Bytes): (t: Bytes)
    ensures |t| == |s| / 3 * 3
  {
    s[..|s| / 3 * 3]
  }

  ghost function Rest(s: Bytes): (t: Bytes)
    ensures |t| == |s| % 3
  {
    s[|s| / 3 * 3..]
  }

  lemma WholeIs(front: Bytes, tail: Bytes)
    requires |front| % 3 == 0 && |tail| < 3
    ensures Whole(front + tail) == front && Rest(front + tail) == tail
  {
    Thirds(|front|, |tail|);
  }

  lemma Thirds(a: nat, tail: nat)
    requires a % 3 == 0 && tail < 3
    ensures (a + tail) / 3 * 3 == a
  {
  }

  lemma WholeAndRest(s: Bytes)
    ensures s == Whole(s) + Rest(s) && Encode(s) == Encode(Whole(s)) + Encode(Rest(s))
  {
    EncodeConcat(Whole(s), Rest(s));
  }

  lemma NextThird(left: nat, taken: nat, others: nat)
    requires left % 3 + taken == 3
    ensures (left + taken) % 3 == 0 && (left + taken) / 3 == left / 3 + 1 <= (left + taken + others) / 3
  {
  }

  /** The left-over bytes and the first bytes of a slice make one more triplet. */
  lemma Fill(done: Bytes, piece: Bytes)
    requires |Rest(done)| + |piece| == 3
    ensures var triplet := Rest(done) + piece;
      && Rest(done + piece) == [] && Encode(Whole(done + piece)) == Encode(Whole(done)) + Encode(triplet)
      && |Encode(triplet)| == 4
  {
    var front, triplet := Whole(done), Rest(done) + piece;
    assert done == front + Rest(done);
    Associate(front, Rest(done), piece);
    assert |front + triplet| % 3 == 0;
    assert (front + triplet) + [] == front + triplet;
    WholeIs(front + triplet, []);
    EncodeConcat(front, triplet);
  }

  lemma ThirdsAdd(a: nat, b: nat, tail: nat)
    requires a % 3 == 0 && b % 3 == 0 && tail < 3
    ensures (a + b) % 3 == 0 && (a + b + tail) / 3 * 4 == a / 3 * 4 + b / 3 * 4
  {
  }

  /** With nothing left over, the triplets of a slice follow directly, and its tail is left over. */
  lemma Align(done: Bytes, aligned: Bytes, tail: Bytes)
    requires Rest(done) == [] && |aligned| % 3 == 0 && |tail| < 3
    ensures var all := done + (aligned + tail);
      && Rest(all) == tail && Encode(Whole(all)) == Encode(Whole(done)) + Encode(aligned)
      && |all| / 3 * 4 == |done| / 3 * 4 + |aligned| / 3 * 4 && |Encode(aligned)| == |aligned| / 3 * 4
  {
    assert |done| % 3 == 0;
    assert done + [] == done;
    WholeIs(done, []);
    ThirdsAdd(|done|, |aligned|, |tail|);
    Associate(done, aligned, tail);
    WholeIs(done + aligned, tail);
    EncodeConcat(done, aligned);
  }

  lemma AlignSlice(done: Bytes, slice: Bytes, aligned: Bytes, tail: Bytes)
    requires Rest(done) == [] && aligned == slice[..|slice| / 3 * 3] && tail == slice[|slice| / 3 * 3..]
    ensures var all := done + slice;
      && Rest(all) == tail && Encode(Whole(all)) == Encode(Whole(done)) + Encode(aligned)
      && |all| / 3 * 4 == |done| / 3 * 4 + |slice| / 3 * 4 && |aligned| % 3 == 0 && |Encode(aligned)| == |slice| / 3 * 4
  {
    RoundDown(|slice|);
    assert slice == aligned + tail;
    Align(done, aligned, tail);
  }

  lemma RoundDown(k: nat)
    ensures k / 3 * 3 <= k && (k / 3 * 3) % 3 == 0 && k - k / 3 * 3 < 3 && (k / 3 * 3) / 3 == k / 3
  {
  }

  ghost function Zeros(n: nat): (z: Bytes)
    ensures |z| == n && forall i :: 0 <= i < n ==> z[i] == 0
  {
    seq(n, _ => 0)
  }

  /** `encode_slice` of whole triplets into a slice of the buffer that has exactly their size. */
  method EncodeSlice(buf: array<byte>, at: nat, bytes: Bytes)
    requires |bytes| % 3 == 0 && at + |Encode(bytes)| <= buf.Length
    modifies buf
    ensures buf[..at + |Encode(bytes)|] == old(buf[..at]) + Encode(bytes)
    ensures buf[at + |Encode(bytes)|..] == old(buf[at + |Encode(bytes)|..])
  {
    var text := Encode(bytes);
    for i := 0 to |text|
      invariant buf[..at] == old(buf[..at])
      invariant buf[at..at + i] == text[..i]
      invariant buf[at + |text|..] == old(buf[at + |text|..])
    {
      buf[at + i] := text[i];
      assert buf[at..at + i + 1] == buf[at..at + i] + [text[i]];
    }
    assert buf[..at + |text|] == buf[..at] + buf[at..at + |text|];
  }

  /** The buffer up to `position` and the left-over bytes stand for the bytes consumed so far; the rest is untouched. */
  ghost predicate Written(text: Bytes, position: nat, remaining: Bytes, done: Bytes) {
    && position <= |text| && remaining == Rest(done) && text[..position] == Encode(Whole(done))
    && text[position..] == Zeros(|text| - position)
  }

  lemma WrittenSize(text: Bytes, position: nat, remaining: Bytes, done: Bytes)
    requires Written(text, position, remaining, done)
    ensures position == |done| / 3 * 4 && position <= |text|
  {
    assert |text[..position]| == position;
  }

  lemma Overwritten(before: Bytes, text: Bytes, position: nat, next: nat)
    requires position <= next <= |before| == |text| && before[position..] == Zeros(|before| - position)
    requires text[next..] == before[next..]
    ensures text[next..] == Zeros(|text| - next)
  {
    assert before[next..] == before[position..][next - position..];
  }

  /** The left-over bytes are completed to a triplet and written (util.rs:97-107). */
  method WriteTriplet(buf: array<byte>, position: nat, remaining: Bytes, taken: Bytes, ghost done: Bytes)
    returns (ok: bool)
    requires Written(buf[..], position, remaining, done) && |remaining| + |taken| == 3
    modifies buf
    ensures ok <==> position + 4 <= buf.Length
    ensures ok ==> Written(buf[..], position + 4, [], done + taken)
  {
    if position + 4 > buf.Length {
      return false;
    }
    ghost var before := buf[..];
    Fill(done, taken);
    EncodeSlice(buf, position, remaining + taken);
    assert buf[..][..position + 4] == buf[..position + 4] && buf[..][position + 4..] == buf[position + 4..];
    assert before[..position] == Encode(Whole(done)) && before[position + 4..] == buf[position + 4..];
    Overwritten(before, buf[..], position, position + 4);
    ok := true;
  }

  /** The whole triplets of a slice are written, and up to two bytes are left over (util.rs:121-135). */
  method WriteAligned(buf: array<byte>, position: nat, slice: Bytes, ghost done: Bytes)
    returns (ok: bool, next: nat, remaining: Bytes)
    requires Written(buf[..], position, [], done)
    modifies buf
    ensures ok <==> |done + slice| / 3 * 4 <= buf.Length
    ensures ok ==> Written(buf[..], next, remaining, done + slice)
  {
    var triplets := |slice| / 3;
    var aligned := slice[..triplets * 3];
    remaining := slice[triplets * 3..];
    AlignSlice(done, slice, aligned, remaining);
    WrittenSize(buf[..], position, [], done);
    next := position + triplets * 4;
    if next > buf.Length {
      return false, next, remaining;
    }
    ghost var before := buf[..];
    EncodeSlice(buf, position, aligned);
    assert buf[..][..next] == buf[..next] && buf[..][next..] == buf[next..] && before[next..] == buf[next..];
    Overwritten(before, buf[..], position, next);
    ok := true;
  }

  lemma TripletFits(done: Bytes, taken: Bytes, others: Bytes)
    requires |Rest(done)| + |taken| == 3
    ensures |done| / 3 * 4 + 4 <= |done + taken + others| / 3 * 4
  {
    NextThird(|done|, |taken|, |others|);
  }

  /**
   * One turn of the loop; it fails where `remaining[1] = slice[0]` indexes past the end, and where the buffer, sized by
   * the announced total length, is too small.
   */
  method WriteSlice(buf: array<byte>, position: nat, remaining: Bytes, slice: Bytes, ghost done: Bytes)
    returns (ok: bool, next: nat, left: Bytes)
    requires Written(buf[..], position, remaining, done)
    modifies buf
    ensures ok <==> !(|slice| == 1 && |done| % 3 == 1) && |done + slice| / 3 * 4 <= buf.Length
    ensures ok ==> Written(buf[..], next, left, done + slice)
  {
    WrittenSize(buf[..], position, remaining, done);
    if |slice| == 0 {
      assert done + slice == done;
      return true, position, remaining;
    }
    if |remaining| == 0 {
      ok, next, left := WriteAligned(buf, position, slice, done);
      return;
    }
    var necessary := 3 - |remaining|;
    if |slice| < necessary {
      return false, position, remaining;
    }
    var taken, others := slice[..necessary], slice[necessary..];
    assert slice == taken + others && (done + taken) + others == done + slice;
    TripletFits(done, taken, others);
    ok := WriteTriplet(buf, position, remaining, taken, done);
    if !ok {
      return false, position, remaining;
    }
    ok, next, left := WriteAligned(buf, position + 4, others, done + taken);
  }

  /**
   * For any announced total length. It panics exactly when a one-byte slice meets one left-over byte or the buffer is
   * too small, and gives the encoding of the concatenation exactly when neither happens and the buffer is just full; a
   * buffer that is too large leaves zero bytes before the last characters.
   */
  method CombineEncode(inputs: seq<Bytes>, totalLen: nat) returns (r: Encoded)
    ensures r == Panic <==> Trap(inputs) || totalLen / 3 < |Flatten(inputs)| / 3
    ensures r.Encoded? ==>
      r.text == Encode(Whole(Flatten(inputs))) + Zeros((totalLen / 3 - |Flatten(inputs)| / 3) * 4)
              + Encode(Rest(Flatten(inputs)))
    ensures r == Encoded(Encode(Flatten(inputs))) <==> !Trap(inputs) && totalLen / 3 == |Flatten(inputs)| / 3
  {
    var size := totalLen / 3 * 4;
    var buf := new byte[size](_ => 0);
    var position := 0;
    var remaining: Bytes := [];
    assert inputs[..0] == [];
    for k := 0 to |inputs|
      invariant Written(buf[..], position, remaining, Flatten(inputs[..k]))
      invariant NoTrapBefore(inputs, k)
    {
      FlattenNext(inputs, k);
      TrapsSoFar(inputs, k);
      var ok;
      ok, position, remaining := WriteSlice(buf, position, remaining, inputs[k], Flatten(inputs[..k]));
      if !ok {
        TooLong(inputs, k + 1, totalLen);
        return Panic;
      }
    }
    assert inputs[..|inputs|] == inputs;
    assert !Trap(inputs);
    Complete(buf[..], position, remaining, Flatten(inputs), totalLen);
    r := Encoded(buf[..] + Encode(remaining));
  }

  lemma TooLong(inputs: seq<Bytes>, k: nat, totalLen: nat)
    requires k <= |inputs|
    ensures |Flatten(inputs[..k])| / 3 * 4 > totalLen / 3 * 4 ==> totalLen / 3 < |Flatten(inputs)| / 3
  {
    FlattenGrows(inputs, k);
  }

  lemma GapExactly(a: Bytes, gap: Bytes, c: Bytes)
    ensures (a + gap) + c == a + c <==> gap == []
  {
    if gap == [] {
      assert a + gap == a;
    } else {
      assert |(a + gap) + c| != |a + c|;
    }
  }

  lemma WrittenIs(text: Bytes, position: nat, remaining: Bytes, done: Bytes, totalLen: nat)
    requires Written(text, position, remaining, done) && |text| == totalLen / 3 * 4
    ensures totalLen / 3 >= |done| / 3
    ensures text == Encode(Whole(done)) + Zeros((totalLen / 3 - |done| / 3) * 4)
  {
    WrittenSize(text, position, remaining, done);
    assert text == text[..position] + text[position..];
    assert |text| - position == (totalLen / 3 - |done| / 3) * 4;
  }

  lemma Complete(text: Bytes, position: nat, remaining: Bytes, done: Bytes, totalLen: nat)
    requires Written(text, position, remaining, done) && |text| == totalLen / 3 * 4
    ensures totalLen / 3 >= |done| / 3
    ensures text + Encode(remaining) == Encode(Whole(done)) + Zeros((totalLen / 3 - |done| / 3) * 4) + Encode(Rest(done))
    ensures text + Encode(remaining) == Encode(done) <==> totalLen / 3 == |done| / 3
  {
    WrittenIs(text, position, remaining, done, totalLen);
    WholeAndRest(done);
    GapExactly(Encode(Whole(done)), Zeros((totalLen / 3 - |done| / 3) * 4), Encode(Rest(done)));
  }
}
