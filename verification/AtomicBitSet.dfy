/** The dynamic bit set run by one caller at a time: words of 64 bits, further words allocated on demand. */
module AtomicBitSet {
  import opened Common

  const WORD_BITS: nat := 64

  /** A `u64`, lowest bit first. */
  type Word = w: seq<bool> | |w| == WORD_BITS witness seq(WORD_BITS, i => false)

  function Zero(): (w: Word)
    ensures forall i :: 0 <= i < WORD_BITS ==> !w[i]
  {
    seq(WORD_BITS, i => false)
  }

  /** `1 << n` */
  function OneAt(n: nat): (w: Word)
    requires n < WORD_BITS
    ensures forall i :: 0 <= i < WORD_BITS ==> (w[i] <==> i == n)
  {
    seq(WORD_BITS, i => i == n)
  }

  function Or(a: Word, b: Word): (w: Word)
    ensures forall i :: 0 <= i < WORD_BITS ==> (w[i] <==> a[i] || b[i])
  {
    seq(WORD_BITS, i requires 0 <= i < WORD_BITS => a[i] || b[i])
  }

  function And(a: Word, b: Word): (w: Word)
    ensures forall i :: 0 <= i < WORD_BITS ==> (w[i] <==> a[i] && b[i])
  {
    seq(WORD_BITS, i requires 0 <= i < WORD_BITS => a[i] && b[i])
  }

  predicate Positive(w: Word) {
    exists i :: 0 <= i < WORD_BITS && w[i]
  }

  predicate BitSet(w: Word, n: nat)
    requires n < WORD_BITS
  {
    Positive(And(w, OneAt(n)))
  }

  lemma BitSetIsBit(w: Word, n: nat)
    requires n < WORD_BITS
    ensures BitSet(w, n) <==> w[n]
  {
    var masked := And(w, OneAt(n));
    assert masked[n] <==> w[n];
    assert forall i :: 0 <= i < WORD_BITS && i != n ==> !masked[i];
  }

  /** `fetch_or` with one bit sets that bit and leaves the 63 others alone. */
  lemma OrSetsOneBit(w: Word, i: nat, j: nat)
    requires i < WORD_BITS && j < WORD_BITS
    ensures BitSet(Or(w, OneAt(i)), j) <==> i == j || BitSet(w, j)
  {
    BitSetIsBit(w, j);
    BitSetIsBit(Or(w, OneAt(i)), j);
  }

  lemma NoBitInZero(n: nat)
    requires n < WORD_BITS
    ensures !BitSet(Zero(), n)
  {
    BitSetIsBit(Zero(), n);
  }

  function AtomIndex(n: nat): nat
    requires n >= WORD_BITS
  {
    (n - 64) / 64
  }

  function BitIndex(n: nat): nat
    requires n >= WORD_BITS
  {
    n - 64 - AtomIndex(n) * 64
  }

  /** `further_indexes` names each number from 64 on by a different pair, and the bit lies inside the word. */
  lemma IndexesIdentify(n: nat, m: nat)
    requires n >= WORD_BITS && m >= WORD_BITS
    ensures BitIndex(n) < WORD_BITS
    ensures AtomIndex(n) == AtomIndex(m) && BitIndex(n) == BitIndex(m) <==> n == m
  {
  }

  /** Whether `n` is recorded in the first word or the further words. */
  predicate Member(initial: Word, further: seq<Option<Word>>, n: nat) {
    if n < WORD_BITS then BitSet(initial, n)
    else
      AtomIndex(n) < |further| && further[AtomIndex(n)].Some? && BitSet(further[AtomIndex(n)].value, BitIndex(n))
  }

  /** Whether the word that holds `n` exists. */
  predicate HasWord(further: Option<seq<Option<Word>>>, n: nat) {
    n < WORD_BITS || (further.Some? && AtomIndex(n) < |further.value| && further.value[AtomIndex(n)].Some?)
  }

  ghost function Words(further: Option<seq<Option<Word>>>): seq<Option<Word>> {
    if further.Some? then further.value else []
  }

  /** Setting the bit of `n` in its word records `n` and nothing else. */
  lemma RecordsOnly(further: seq<Option<Word>>, initial: Word, n: nat, m: nat)
    requires n >= WORD_BITS ==> AtomIndex(n) < |further| && further[AtomIndex(n)].Some?
    ensures n < WORD_BITS ==> (Member(Or(initial, OneAt(n)), further, m) <==> m == n || Member(initial, further, m))
    ensures n >= WORD_BITS ==>
      var w := Or(further[AtomIndex(n)].value, OneAt(BitIndex(n)));
      (Member(initial, further[AtomIndex(n) := Some(w)], m) <==> m == n || Member(initial, further, m))
  {
    if n < WORD_BITS {
      if m < WORD_BITS {
        OrSetsOneBit(initial, n, m);
      }
    } else if m >= WORD_BITS {
      IndexesIdentify(n, m);
      IndexesIdentify(m, n);
      OrSetsOneBit(further[AtomIndex(n)].value, BitIndex(n), BitIndex(m));
    }
  }

  /** A new word, or a reserved one, holds no number. */
  lemma NewWordIsEmpty(further: seq<Option<Word>>, initial: Word, w: Option<Word>, m: nat)
    requires w == None || w == Some(Zero())
    ensures Member(initial, further + [w], m) <==> Member(initial, further, m)
  {
    if m >= WORD_BITS {
      IndexesIdentify(m, m);
      NoBitInZero(BitIndex(m));
    }
  }

  class AtomicU64BitSet {
    var word: Word

    constructor ()
      ensures word == Zero()
    {
      word := Zero();
    }

    method Exists(n: nat) returns (r: Option<bool>)
      modifies this
      ensures n >= WORD_BITS ==> r == None && word == old(word)
      ensures n < WORD_BITS ==> r == Some(BitSet(old(word), n))
      ensures n < WORD_BITS ==> forall m | 0 <= m < WORD_BITS :: BitSet(word, m) <==> m == n || BitSet(old(word), m)
    {
      if n >= 64 {
        return None;
      }
      var oldValue := word;
      word := Or(oldValue, OneAt(n));
      r := Some(Positive(And(oldValue, OneAt(n))));
      forall m | 0 <= m < WORD_BITS
        ensures BitSet(word, m) <==> m == n || BitSet(oldValue, m)
      {
        OrSetsOneBit(oldValue, n, m);
      }
    }
  }

  class AtomicDynamicBitSet {
    var initial: Word
    var further: Option<seq<Option<Word>>>

    ghost predicate Recorded(n: nat)
      reads this
    {
      Member(initial, Words(further), n)
    }

    /** Every word has been published, as it is when nobody is inside `push`. */
    ghost predicate Quiet()
      reads this
    {
      forall i :: 0 <= i < |Words(further)| ==> Words(further)[i].Some?
    }

    constructor ()
      ensures Quiet() && forall n: nat :: !Recorded(n)
    {
      initial := Zero();
      further := None;
      new;
      forall n: nat
        ensures !Recorded(n)
      {
        if n < WORD_BITS {
          NoBitInZero(n);
        }
      }
    }

    method CreateUpTo(n: nat)
      requires Quiet()
      modifies this
      ensures Quiet() && HasWord(further, n)
      ensures initial == old(initial) && forall m: nat :: Recorded(m) == old(Recorded(m))
      ensures old(HasWord(further, n)) ==> further == old(further)
    {
      if n < 64 {
        return;
      }
      var words := match further case Some(w) => w case None => [];
      ghost var before := Words(further);
      assert words == before;
      var atom := AtomIndex(n);
      while atom >= |words|
        invariant forall i :: 0 <= i < |words| ==> words[i].Some?
        invariant forall m: nat :: Member(initial, words, m) == Member(initial, before, m)
        invariant atom < |before| ==> words == before
      {
        forall m: nat
          ensures Member(initial, words + [Some(Zero())], m) == Member(initial, before, m)
        {
          NewWordIsEmpty(words, initial, Some(Zero()), m);
        }
        words := words + [Some(Zero())];
      }
      further := Some(words);
    }

    /** `exists`: none where the source panics, which is exactly for a number whose word was never created. */
    method Exists(n: nat) returns (r: Option<bool>)
      requires Quiet()
      modifies this
      ensures Quiet()
      ensures r == None <==> !old(HasWord(further, n))
      ensures r == None ==> initial == old(initial) && further == old(further)
      ensures r.Some? ==> r.value == old(Recorded(n)) && forall m: nat :: Recorded(m) <==> m == n || old(Recorded(m))
    {
      ghost var words := Words(further);
      if n < 64 {
        var oldValue := initial;
        initial := Or(oldValue, OneAt(n));
        r := Some(Positive(And(oldValue, OneAt(n))));
        forall m: nat
          ensures Recorded(m) <==> m == n || old(Recorded(m))
        {
          RecordsOnly(words, oldValue, n, m);
        }
      } else if further.None? || AtomIndex(n) >= |further.value| {
        r := None;
      } else {
        var oldValue := further.value[AtomIndex(n)].value;
        IndexesIdentify(n, n);
        var mask := OneAt(BitIndex(n));
        further := Some(further.value[AtomIndex(n) := Some(Or(oldValue, mask))]);
        r := Some(Positive(And(oldValue, mask)));
        forall m: nat
          ensures Recorded(m) <==> m == n || old(Recorded(m))
        {
          RecordsOnly(words, initial, n, m);
        }
      }
    }

    /** `num_exists` answers whether the number was recorded and records it: a plain set. */
    method NumExists(n: nat) returns (r: bool)
      requires Quiet()
      modifies this
      ensures Quiet()
      ensures r == old(Recorded(n))
      ensures forall m: nat :: Recorded(m) <==> m == n || old(Recorded(m))
    {
      CreateUpTo(n);
      var answer := Exists(n);
      r := answer.value;
    }
  }
}
