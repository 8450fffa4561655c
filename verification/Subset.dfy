/** The two selection algorithms over claims, as functions: the linear merge and the binary split. */
module Subset {
  import opened Entries

  datatype FindResult<+K, +V> = Found(key: K, val: V) | NotFound(wanted: K)

  /** The entries among the results, in order of emission. */
  ghost function Hits<K, V>(out: seq<FindResult<K, V>>): seq<(K, V)> {
    if out == [] then []
    else (if out[0].Found? then [(out[0].key, out[0].val)] else []) + Hits(out[1..])
  }

  lemma {:induction false} HitsConcat<K, V>(a: seq<FindResult<K, V>>, b: seq<FindResult<K, V>>)
    ensures Hits(a + b) == Hits(a) + Hits(b)
  {
    if a == [] {
      assert a + b == b;
    } else {
      assert (a + b)[0] == a[0] && (a + b)[1..] == a[1..] + b;
      HitsConcat(a[1..], b);
    }
  }

  // ---- the linear merge ----

  /** `subset_linear` from here on; a wanted key that is passed is reported again and again and never given up. */
  ghost function Linear<K, V>(lt: (K, K) -> bool, es: seq<(K, V)>, subset: seq<K>): seq<FindResult<K, V>>
    requires subset != []
  {
    if es == [] then []
    else if subset[0] == es[0].0 then
      [Found(es[0].0, es[0].1)] + (if |subset| == 1 then [] else Linear(lt, es[1..], subset[1..]))
    else
      (if lt(subset[0], es[0].0) then [NotFound(subset[0])] else []) + Linear(lt, es[1..], subset)
  }

  lemma TailFacts<K(!new), V>(lt: (K, K) -> bool, es: seq<(K, V)>, subset: seq<K>)
    requires StrictOrder(lt) && Sorted(lt, es) && Increasing(lt, subset) && es != [] && subset != []
    ensures Sorted(lt, es[1..]) && Increasing(lt, subset[1..])
    ensures subset[0] == es[0].0 ==> FirstAbsent(es, subset) == 1 + FirstAbsent(es[1..], subset[1..])
    ensures subset[0] != es[0].0 ==> FirstAbsent(es, subset) == FirstAbsent(es[1..], subset)
    ensures subset[0] != es[0].0 ==> es[0].0 !in KeySet(subset[..FirstAbsent(es, subset)])
    ensures !HasKey(es[1..], es[0].0)
  {
    var t := es[1..];
    forall k | k != es[0].0
      ensures HasKey(es, k) <==> HasKey(t, k)
    {
      HasKeyTail(es, k);
    }
    assert HasKey(es, es[0].0);
    if subset[0] == es[0].0 {
      FirstAbsentCong(es, t, subset[1..]);
    } else {
      if HasKey(es, subset[0]) {
        // the first entry is below the first wanted key, so it is not wanted at all
        assert lt(es[0].0, subset[0]);
        assert forall j :: 0 <= j < |subset| ==> lt(es[0].0, subset[j]);
        FirstAbsentCong(es, t, subset);
      }
    }
  }

  lemma {:induction false} FirstAbsentCong<K, V>(a: seq<(K, V)>, b: seq<(K, V)>, keys: seq<K>)
    requires forall i :: 0 <= i < |keys| ==> (HasKey(a, keys[i]) <==> HasKey(b, keys[i]))
    ensures FirstAbsent(a, keys) == FirstAbsent(b, keys)
  {
    if keys != [] {
      FirstAbsentCong(a, b, keys[1..]);
    }
  }

  /** The linear merge finds the wanted entries before the first absent key, in order, and no others. */
  lemma {:induction false} LinearFinds<K(!new), V>(lt: (K, K) -> bool, es: seq<(K, V)>, subset: seq<K>)
    requires StrictOrder(lt) && Sorted(lt, es) && Increasing(lt, subset) && subset != []
    ensures Hits(Linear(lt, es, subset)) == Select(es, KeySet(subset[..FirstAbsent(es, subset)]))
    decreases |es|
  {
    if es != [] {
      TailFacts(lt, es, subset);
      var p := FirstAbsent(es, subset);
      var t := es[1..];
      if subset[0] == es[0].0 {
        assert es[0].0 in KeySet(subset[..p]) by { assert subset[..p][0] == es[0].0; }
        if |subset| == 1 {
          NothingLeft(t, subset);
        } else {
          var s := subset[1..];
          LinearFinds(lt, t, s);
          HitsConcat([Found(es[0].0, es[0].1)], Linear(lt, t, s));
          assert subset[..p] == [subset[0]] + s[..p - 1];
          DropFirstKey(t, subset[..p]);
        }
      } else {
        LinearFinds(lt, t, subset);
        HitsConcat(if lt(subset[0], es[0].0) then [NotFound(subset[0])] else [], Linear(lt, t, subset));
      }
    }
  }

  lemma NothingLeft<K, V>(t: seq<(K, V)>, subset: seq<K>)
    requires |subset| == 1 && !HasKey(t, subset[0])
    ensures Select(t, KeySet(subset)) == [] && Select(t, KeySet(subset[..1])) == []
  {
    assert subset[..1] == subset;
    SelectNone(t, KeySet(subset));
  }

  lemma {:induction false} SelectNone<K, V>(es: seq<(K, V)>, want: set<K>)
    requires forall i :: 0 <= i < |es| ==> es[i].0 !in want
    ensures Select(es, want) == []
  {
    if es != [] {
      SelectNone(es[1..], want);
    }
  }

  /** A key that no entry has makes no difference to the filter. */
  lemma DropFirstKey<K, V>(t: seq<(K, V)>, keys: seq<K>)
    requires keys != [] && !HasKey(t, keys[0])
    ensures Select(t, KeySet(keys)) == Select(t, KeySet(keys[1..]))
    ensures Without(t, KeySet(keys)) == Without(t, KeySet(keys[1..]))
  {
    forall i | 0 <= i < |t|
      ensures t[i].0 in KeySet(keys) <==> t[i].0 in KeySet(keys[1..])
    {
      if t[i].0 in keys {
        var j :| 0 <= j < |keys| && keys[j] == t[i].0;
        assert j > 0;
        assert keys[1..][j - 1] == keys[j];
      }
    }
    SelectCong(t, KeySet(keys), KeySet(keys[1..]));
    WithoutCong(t, KeySet(keys), KeySet(keys[1..]));
  }

  /** So it agrees with the plain filter exactly when no present key follows an absent one. */
  lemma LinearIsFilterExactly<K(!new), V>(lt: (K, K) -> bool, es: seq<(K, V)>, subset: seq<K>)
    requires StrictOrder(lt) && Sorted(lt, es) && Increasing(lt, subset) && subset != []
    ensures Hits(Linear(lt, es, subset)) == Select(es, KeySet(subset)) <==> PresentFirst(es, subset)
  {
    LinearFinds(lt, es, subset);
    PrefixIsEnoughExactly(es, subset);
  }

  // ---- the binary split ----

  ghost function IndexOf<K, V>(es: seq<(K, V)>, k: K): (i: nat)
    requires HasKey(es, k)
    ensures i < |es| && es[i].0 == k
  {
    if es[0].0 == k then 0
    else
      assert HasKey(es[1..], k) by {
        var i :| 0 <= i < |es| && es[i].0 == k;
        assert es[1..][i - 1] == es[i];
      }
      1 + IndexOf(es[1..], k)
  }

  /** `subset_binary_split`: the middle wanted key splits entries and wanted keys; the right half is emitted first. */
  ghost function Split<K, V>(es: seq<(K, V)>, subset: seq<K>): seq<FindResult<K, V>>
    decreases |subset|
  {
    if subset == [] then []
    else
      var mid := |subset| / 2;
      if HasKey(es, subset[mid]) then
        var k := IndexOf(es, subset[mid]);
        [Found(es[k].0, es[k].1)] + Split(es[k + 1..], subset[mid + 1..]) + Split(es[..k], subset[..mid])
      else [NotFound(subset[mid])]
  }

  /**
   * The middle key of every visited part is present, or nothing else in that part is: all that the split needs, stated
   * over which wanted keys are present.
   */
  ghost predicate Intact<K, V>(es: seq<(K, V)>, subset: seq<K>)
    decreases |subset|
  {
    subset == [] ||
    var mid := |subset| / 2;
    if HasKey(es, subset[mid]) then Intact(es, subset[..mid]) && Intact(es, subset[mid + 1..])
    else forall i :: 0 <= i < |subset| ==> !HasKey(es, subset[i])
  }

  lemma {:induction false} IntactCong<K, V>(a: seq<(K, V)>, b: seq<(K, V)>, subset: seq<K>)
    requires forall i :: 0 <= i < |subset| ==> (HasKey(a, subset[i]) <==> HasKey(b, subset[i]))
    ensures Intact(a, subset) <==> Intact(b, subset)
    decreases |subset|
  {
    if subset != [] {
      var mid := |subset| / 2;
      if HasKey(a, subset[mid]) {
        IntactCong(a, b, subset[..mid]);
        IntactCong(a, b, subset[mid + 1..]);
      }
    }
  }

  lemma PivotLeftHas<K(!new), V>(lt: (K, K) -> bool, es: seq<(K, V)>, k: nat, x: K)
    requires StrictOrder(lt) && Sorted(lt, es) && k < |es| && lt(x, es[k].0)
    ensures HasKey(es[..k], x) <==> HasKey(es, x)
  {
    if HasKey(es, x) {
      var i :| 0 <= i < |es| && es[i].0 == x;
      assert i < k;
      assert es[..k][i] == es[i];
    }
    if HasKey(es[..k], x) {
      var i :| 0 <= i < |es[..k]| && es[..k][i].0 == x;
      assert es[i].0 == x;
    }
  }

  lemma PivotRightHas<K(!new), V>(lt: (K, K) -> bool, es: seq<(K, V)>, k: nat, x: K)
    requires StrictOrder(lt) && Sorted(lt, es) && k < |es| && lt(es[k].0, x)
    ensures HasKey(es[k + 1..], x) <==> HasKey(es, x)
  {
    var er := es[k + 1..];
    if HasKey(es, x) {
      var i :| 0 <= i < |es| && es[i].0 == x;
      assert i > k;
      assert er[i - (k + 1)] == es[i];
    }
    if HasKey(er, x) {
      var i :| 0 <= i < |er| && er[i].0 == x;
      assert es[i + k + 1].0 == x;
    }
  }

  /** Around a present pivot, wanted keys and entries fall apart into two independent halves. */
  lemma PivotSplits<K(!new), V>(lt: (K, K) -> bool, es: seq<(K, V)>, subset: seq<K>, mid: nat)
    requires StrictOrder(lt) && Sorted(lt, es) && Increasing(lt, subset) && mid < |subset| && HasKey(es, subset[mid])
    ensures var k := IndexOf(es, subset[mid]);
      && Sorted(lt, es[..k]) && Sorted(lt, es[k + 1..])
      && Increasing(lt, subset[..mid]) && Increasing(lt, subset[mid + 1..])
      && (forall j :: 0 <= j < mid ==> (HasKey(es[..k], subset[j]) <==> HasKey(es, subset[j])))
      && (forall j :: mid < j < |subset| ==> (HasKey(es[k + 1..], subset[j]) <==> HasKey(es, subset[j])))
  {
    var k := IndexOf(es, subset[mid]);
    forall j | 0 <= j < mid
      ensures HasKey(es[..k], subset[j]) <==> HasKey(es, subset[j])
    {
      PivotLeftHas(lt, es, k, subset[j]);
    }
    forall j | mid < j < |subset|
      ensures HasKey(es[k + 1..], subset[j]) <==> HasKey(es, subset[j])
    {
      PivotRightHas(lt, es, k, subset[j]);
    }
  }

  lemma PivotIntact<K(!new), V>(lt: (K, K) -> bool, es: seq<(K, V)>, subset: seq<K>, mid: nat)
    requires StrictOrder(lt) && Sorted(lt, es) && Increasing(lt, subset) && mid < |subset| && HasKey(es, subset[mid])
    ensures var k := IndexOf(es, subset[mid]);
      && Sorted(lt, es[..k]) && Sorted(lt, es[k + 1..])
      && Increasing(lt, subset[..mid]) && Increasing(lt, subset[mid + 1..])
      && Intact(es[..k], subset[..mid]) == Intact(es, subset[..mid])
      && Intact(es[k + 1..], subset[mid + 1..]) == Intact(es, subset[mid + 1..])
  {
    var k := IndexOf(es, subset[mid]);
    PivotSplits(lt, es, subset, mid);
    var right := subset[mid + 1..];
    forall j | 0 <= j < |right|
      ensures HasKey(es[k + 1..], right[j]) <==> HasKey(es, right[j])
    {
      assert right[j] == subset[mid + 1 + j];
    }
    IntactCong(es[..k], es, subset[..mid]);
    IntactCong(es[k + 1..], es, right);
  }

  lemma PivotLeftSelect<K(!new), V>(lt: (K, K) -> bool, es: seq<(K, V)>, subset: seq<K>, mid: nat)
    requires StrictOrder(lt) && Sorted(lt, es) && Increasing(lt, subset) && mid < |subset| && HasKey(es, subset[mid])
    ensures Select(es[..IndexOf(es, subset[mid])], KeySet(subset))
         == Select(es[..IndexOf(es, subset[mid])], KeySet(subset[..mid]))
  {
    var k := IndexOf(es, subset[mid]);
    var el := es[..k];
    forall i | 0 <= i < |el|
      ensures el[i].0 in KeySet(subset) <==> el[i].0 in KeySet(subset[..mid])
    {
      if el[i].0 in subset {
        var j :| 0 <= j < |subset| && subset[j] == el[i].0;
        assert lt(el[i].0, es[k].0);
        assert j < mid;
        assert subset[..mid][j] == subset[j];
      }
    }
    SelectCong(el, KeySet(subset), KeySet(subset[..mid]));
  }

  lemma PivotOrder<K(!new), V>(lt: (K, K) -> bool, es: seq<(K, V)>, subset: seq<K>, k: nat, mid: nat, i: nat, j: nat)
    requires StrictOrder(lt) && Sorted(lt, es) && Increasing(lt, subset)
    requires k < i < |es| && mid < |subset| && j < |subset| && subset[mid] == es[k].0 && subset[j] == es[i].0
    ensures j > mid
  {
    assert lt(es[k].0, es[i].0);
    if j < mid {
      assert false;
    }
  }

  lemma PivotRightSelect<K(!new), V>(lt: (K, K) -> bool, es: seq<(K, V)>, subset: seq<K>, mid: nat)
    requires StrictOrder(lt) && Sorted(lt, es) && Increasing(lt, subset) && mid < |subset| && HasKey(es, subset[mid])
    ensures Select(es[IndexOf(es, subset[mid]) + 1..], KeySet(subset))
         == Select(es[IndexOf(es, subset[mid]) + 1..], KeySet(subset[mid + 1..]))
  {
    var k := IndexOf(es, subset[mid]);
    var er := es[k + 1..];
    forall i | 0 <= i < |er|
      ensures er[i].0 in KeySet(subset) <==> er[i].0 in KeySet(subset[mid + 1..])
    {
      if er[i].0 in subset {
        var j :| 0 <= j < |subset| && subset[j] == er[i].0;
        assert er[i] == es[k + 1 + i];
        PivotOrder(lt, es, subset, k, mid, k + 1 + i, j);
        assert subset[mid + 1..][j - (mid + 1)] == subset[j];
      }
    }
    SelectCong(er, KeySet(subset), KeySet(subset[mid + 1..]));
  }

  lemma PivotSelect<K(!new), V>(lt: (K, K) -> bool, es: seq<(K, V)>, subset: seq<K>, mid: nat)
    requires StrictOrder(lt) && Sorted(lt, es) && Increasing(lt, subset) && mid < |subset| && HasKey(es, subset[mid])
    ensures var k := IndexOf(es, subset[mid]);
      Select(es, KeySet(subset))
        == Select(es[..k], KeySet(subset[..mid])) + [es[k]] + Select(es[k + 1..], KeySet(subset[mid + 1..]))
  {
    var k := IndexOf(es, subset[mid]);
    var want := KeySet(subset);
    PivotLeftSelect(lt, es, subset, mid);
    PivotRightSelect(lt, es, subset, mid);
    assert es[k].0 in want by { assert subset[mid] == es[k].0; }
    SelectAround(es, k, want);
  }

  lemma SelectAround<K, V>(es: seq<(K, V)>, k: nat, want: set<K>)
    requires k < |es| && es[k].0 in want
    ensures Select(es, want) == Select(es[..k], want) + [es[k]] + Select(es[k + 1..], want)
  {
    var rest := [es[k]] + es[k + 1..];
    assert es == es[..k] + rest;
    SelectConcat(es[..k], rest, want);
    assert rest[1..] == es[k + 1..];
    assert Select(rest, want) == [es[k]] + Select(es[k + 1..], want);
  }

  lemma {:induction false} HitsAround<K, V>(out: seq<FindResult<K, V>>, e: (K, V), r: seq<FindResult<K, V>>,
                                            l: seq<FindResult<K, V>>)
    requires out == [Found(e.0, e.1)] + r + l
    ensures Hits(out) == [e] + Hits(r) + Hits(l)
  {
    var hit: FindResult<K, V> := Found(e.0, e.1);
    HitsConcat([hit] + r, l);
    HitsConcat([hit], r);
    assert Hits([hit]) == [e] by { assert [hit][1..] == []; }
  }

  lemma {:induction false} SplitOnce<K, V>(es: seq<(K, V)>, subset: seq<K>)
    requires subset != [] && HasKey(es, subset[|subset| / 2])
    ensures var mid := |subset| / 2; var k := IndexOf(es, subset[mid]);
      Split(es, subset) == [Found(es[k].0, es[k].1)] + Split(es[k + 1..], subset[mid + 1..]) + Split(es[..k], subset[..mid])
  {
  }

  lemma {:induction false} SplitHits<K, V>(es: seq<(K, V)>, subset: seq<K>)
    requires subset != []
    ensures var mid := |subset| / 2;
      if HasKey(es, subset[mid]) then
        var k := IndexOf(es, subset[mid]);
        Hits(Split(es, subset))
          == [es[k]] + Hits(Split(es[k + 1..], subset[mid + 1..])) + Hits(Split(es[..k], subset[..mid]))
      else Hits(Split(es, subset)) == []
  {
    var mid := |subset| / 2;
    if HasKey(es, subset[mid]) {
      var k := IndexOf(es, subset[mid]);
      SplitOnce(es, subset);
      HitsAround(Split(es, subset), es[k], Split(es[k + 1..], subset[mid + 1..]), Split(es[..k], subset[..mid]));
    } else {
      HitsMiss<K, V>(subset[mid]);
    }
  }

  lemma HitsMiss<K, V>(k: K)
    ensures Hits<K, V>([NotFound(k)]) == []
  {
    assert [FindResult<K, V>.NotFound(k)][1..] == [];
  }

  /** An absent middle key loses nothing exactly when nothing in its part is present. */
  lemma AbsentMiddle<K, V>(es: seq<(K, V)>, subset: seq<K>)
    ensures Select(es, KeySet(subset)) == [] <==> forall i :: 0 <= i < |subset| ==> !HasKey(es, subset[i])
  {
    var want := KeySet(subset);
    if i :| 0 <= i < |subset| && HasKey(es, subset[i]) {
      var n :| 0 <= n < |es| && es[n].0 == subset[i];
      SelectNone(es, {});
      SelectSize(es, {}, want, n);
    } else {
      forall i | 0 <= i < |es|
        ensures es[i].0 !in want
      {
        assert HasKey(es, es[i].0);
      }
      SelectNone(es, want);
    }
  }

  ghost predicate FilteredExactly<K, V>(es: seq<(K, V)>, subset: seq<K>, intact: bool) {
    && multiset(Hits(Split(es, subset))) <= multiset(Select(es, KeySet(subset)))
    && (multiset(Hits(Split(es, subset))) == multiset(Select(es, KeySet(subset))) <==> intact)
  }

  /**
   * The split finds only wanted entries, each at most once, and all of them exactly when the wanted keys are intact;
   * what it finds is then a reordering of the plain filter.
   */
  lemma {:induction false} SplitIsFilterExactly<K(!new), V>(lt: (K, K) -> bool, es: seq<(K, V)>, subset: seq<K>)
    requires StrictOrder(lt) && Sorted(lt, es) && Increasing(lt, subset)
    ensures FilteredExactly(es, subset, Intact(es, subset))
    decreases |subset|
  {
    AbsentMiddle(es, subset);
    if subset != [] {
      SplitHits(es, subset);
      var mid := |subset| / 2;
      if HasKey(es, subset[mid]) {
        var k := IndexOf(es, subset[mid]);
        PivotIntact(lt, es, subset, mid);
        PivotSelect(lt, es, subset, mid);
        SplitIsFilterExactly(lt, es[..k], subset[..mid]);
        SplitIsFilterExactly(lt, es[k + 1..], subset[mid + 1..]);
        PresentMiddle(es, subset, mid, k);
      } else {
        EmptyBag(Select(es, KeySet(subset)));
      }
    }
  }

  lemma EmptyBag<T>(s: seq<T>)
    ensures multiset(s) == multiset{} <==> s == []
  {
    if s != [] {
      assert s[0] in multiset(s);
    }
  }

  lemma PresentMiddle<K, V>(es: seq<(K, V)>, subset: seq<K>, mid: nat, k: nat)
    requires subset != [] && mid == |subset| / 2 && HasKey(es, subset[mid]) && k == IndexOf(es, subset[mid])
    requires Select(es, KeySet(subset))
          == Select(es[..k], KeySet(subset[..mid])) + [es[k]] + Select(es[k + 1..], KeySet(subset[mid + 1..]))
    requires FilteredExactly(es[..k], subset[..mid], Intact(es, subset[..mid]))
    requires FilteredExactly(es[k + 1..], subset[mid + 1..], Intact(es, subset[mid + 1..]))
    ensures FilteredExactly(es, subset, Intact(es, subset))
  {
    SplitHits(es, subset);
    SumsEqualExactly(Hits(Split(es[..k], subset[..mid])), Select(es[..k], KeySet(subset[..mid])),
                     Hits(Split(es[k + 1..], subset[mid + 1..])), Select(es[k + 1..], KeySet(subset[mid + 1..])), es[k]);
  }

  lemma SumsEqualExactly<T>(a: seq<T>, b: seq<T>, c: seq<T>, d: seq<T>, x: T)
    requires multiset(a) <= multiset(b) && multiset(c) <= multiset(d)
    ensures multiset([x] + c + a) <= multiset(b + [x] + d)
    ensures multiset([x] + c + a) == multiset(b + [x] + d) <==> multiset(a) == multiset(b) && multiset(c) == multiset(d)
  {
    var ma, mb, mc, md := multiset(a), multiset(b), multiset(c), multiset(d);
    assert multiset([x] + c + a) == multiset{x} + mc + ma;
    assert multiset(b + [x] + d) == mb + multiset{x} + md;
    if multiset{x} + mc + ma == mb + multiset{x} + md {
      forall y
        ensures ma[y] == mb[y] && mc[y] == md[y]
      {
        assert (multiset{x} + mc + ma)[y] == multiset{x}[y] + mc[y] + ma[y];
        assert (mb + multiset{x} + md)[y] == multiset{x}[y] + mb[y] + md[y];
      }
      assert ma == mb && mc == md;
    }
  }

  lemma {:induction false} PresentIsIntact<K, V>(es: seq<(K, V)>, subset: seq<K>)
    requires AllPresent(es, subset)
    ensures Intact(es, subset)
    decreases |subset|
  {
    if subset != [] {
      PresentIsIntact(es, subset[..|subset| / 2]);
      PresentIsIntact(es, subset[|subset| / 2 + 1..]);
    }
  }

  ghost predicate NothingMissed<K, V>(out: seq<FindResult<K, V>>) {
    forall i :: 0 <= i < |out| ==> out[i].Found?
  }

  lemma {:induction false} SplitMissesNothing<K(!new), V>(lt: (K, K) -> bool, es: seq<(K, V)>, subset: seq<K>)
    requires StrictOrder(lt) && Sorted(lt, es) && Increasing(lt, subset) && AllPresent(es, subset)
    ensures NothingMissed(Split(es, subset)) && |Split(es, subset)| == |subset|
    decreases |subset|
  {
    if subset != [] {
      var mid := |subset| / 2;
      assert HasKey(es, subset[mid]);
      PivotSplits(lt, es, subset, mid);
      var k := IndexOf(es, subset[mid]);
      HalvesPresent(es, subset, mid, k);
      SplitMissesNothing(lt, es[..k], subset[..mid]);
      SplitMissesNothing(lt, es[k + 1..], subset[mid + 1..]);
      NothingMissedConcat(es[k], Split(es[k + 1..], subset[mid + 1..]), Split(es[..k], subset[..mid]));
    }
  }

  lemma HalvesPresent<K, V>(es: seq<(K, V)>, subset: seq<K>, mid: nat, k: nat)
    requires AllPresent(es, subset) && mid < |subset| && k < |es|
    requires forall j :: 0 <= j < mid ==> (HasKey(es[..k], subset[j]) <==> HasKey(es, subset[j]))
    requires forall j :: mid < j < |subset| ==> (HasKey(es[k + 1..], subset[j]) <==> HasKey(es, subset[j]))
    ensures AllPresent(es[..k], subset[..mid]) && AllPresent(es[k + 1..], subset[mid + 1..])
  {
    var right := subset[mid + 1..];
    forall j | 0 <= j < |right|
      ensures HasKey(es[k + 1..], right[j])
    {
      assert right[j] == subset[mid + 1 + j];
    }
  }

  lemma NothingMissedConcat<K, V>(e: (K, V), a: seq<FindResult<K, V>>, b: seq<FindResult<K, V>>)
    requires NothingMissed(a) && NothingMissed(b)
    ensures NothingMissed([Found(e.0, e.1)] + a + b)
  {
  }
}
