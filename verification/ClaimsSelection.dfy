/** The two subset methods as they run: the linear walk, and the work list of ranges. */
module ClaimsSelection {
  import opened Common
  import opened Entries
  import opened Subset
  import opened SubsetOrder
  import opened SubsetMisses
  import opened Claims

  /** `subset_linear`, with the results in the order in which the callback gets them. */
  method SubsetLinear<K(!new, ==), V>(lt: (K, K) -> bool, self: Claims<K, V>, subset: seq<K>)
    returns (out: seq<FindResult<K, V>>)
    requires Paired(self) && subset != []
    ensures out == Linear(lt, Zip(self), subset)
  {
    ghost var es := Zip(self);
    out := [];
    var i := 0;
    var current := subset[i];
    ghost var total := Linear(lt, es, subset);
    assert es[0..] == es && subset[0..] == subset;
    ghost var left := LinearLeft(lt, es, subset, 0, 0);
    for k := 0 to |self.keys|
      invariant 0 <= i < |subset| && current == subset[i]
      invariant left == LinearLeft(lt, es, subset, k, i)
      invariant total == out + left
    {
      LinearStep(lt, es, subset, k, i);
      ghost var here, before := left, out;
      if current == self.keys[k] {
        out := out + [Found(self.keys[k], self.values[k])];
        i := i + 1;
        left := LinearLeft(lt, es, subset, k + 1, i);
        Chain(total, before, here, [Found(self.keys[k], self.values[k])], left);
        if i == |subset| {
          return;
        }
        current := subset[i];
      } else if lt(current, self.keys[k]) {
        out := out + [NotFound(current)];
        left := LinearLeft(lt, es, subset, k + 1, i);
        Chain(total, before, here, [NotFound(current)], left);
      } else {
        left := LinearLeft(lt, es, subset, k + 1, i);
      }
    }
    assert es[|es|..] == [];
  }

  /** What is still to come when entry `k` and wanted key `i` are next. */
  ghost function LinearLeft<K, V>(lt: (K, K) -> bool, es: seq<(K, V)>, subset: seq<K>, k: nat, i: nat)
    : seq<FindResult<K, V>>
    requires k <= |es| && i <= |subset|
  {
    if i == |subset| then [] else Linear(lt, es[k..], subset[i..])
  }

  lemma LinearStep<K, V>(lt: (K, K) -> bool, es: seq<(K, V)>, subset: seq<K>, k: nat, i: nat)
    requires k < |es| && i < |subset|
    ensures LinearLeft(lt, es, subset, k, i) ==
      if subset[i] == es[k].0 then [Found(es[k].0, es[k].1)] + LinearLeft(lt, es, subset, k + 1, i + 1)
      else if lt(subset[i], es[k].0) then [NotFound(subset[i])] + LinearLeft(lt, es, subset, k + 1, i)
      else LinearLeft(lt, es, subset, k + 1, i)
  {
    var rest, wanted := es[k..], subset[i..];
    assert rest[0] == es[k] && rest[1..] == es[k + 1..];
    assert wanted[0] == subset[i] && wanted[1..] == subset[i + 1..];
  }

  lemma Chain<T>(total: seq<T>, out: seq<T>, here: seq<T>, step: seq<T>, left: seq<T>)
    requires total == out + here && here == step + left
    ensures total == (out + step) + left
  {
  }

  /** One entry of the work list: a range of claims and a part of the wanted keys. */
  datatype Item<+K> = Item(lo: nat, hi: nat, subset: seq<K>)

  ghost function ItemOut<K, V>(es: seq<(K, V)>, t: Item<K>): seq<FindResult<K, V>>
    requires t.lo <= t.hi <= |es|
  {
    Split(es[t.lo..t.hi], t.subset)
  }

  ghost predicate ItemsOk<K, V>(es: seq<(K, V)>, queue: seq<Item<K>>) {
    forall i :: 0 <= i < |queue| ==> queue[i].lo <= queue[i].hi <= |es|
  }

  /** What is still to be emitted; the last item comes first. */
  ghost function QueueOut<K, V>(es: seq<(K, V)>, queue: seq<Item<K>>): seq<FindResult<K, V>>
    requires ItemsOk(es, queue)
  {
    if queue == [] then []
    else ItemOut(es, queue[|queue| - 1]) + QueueOut(es, queue[..|queue| - 1])
  }

  ghost function Work<K>(queue: seq<Item<K>>): nat {
    if queue == [] then 0 else 2 * |queue[|queue| - 1].subset| + 1 + Work(queue[..|queue| - 1])
  }

  lemma Popped<K, V>(es: seq<(K, V)>, queue: seq<Item<K>>, t: Item<K>)
    requires ItemsOk(es, queue + [t])
    ensures ItemsOk(es, queue) && t.lo <= t.hi <= |es|
    ensures QueueOut(es, queue + [t]) == ItemOut(es, t) + QueueOut(es, queue)
    ensures Work(queue + [t]) == 2 * |t.subset| + 1 + Work(queue)
  {
    var all := queue + [t];
    assert forall i :: 0 <= i < |queue| ==> queue[i] == all[i];
    assert all[|all| - 1] == t && all[..|all| - 1] == queue;
  }

  lemma {:induction false} QueueConcat<K, V>(es: seq<(K, V)>, a: seq<Item<K>>, b: seq<Item<K>>)
    requires ItemsOk(es, a) && ItemsOk(es, b)
    ensures ItemsOk(es, a + b)
    ensures QueueOut(es, a + b) == QueueOut(es, b) + QueueOut(es, a)
    ensures Work(a + b) == Work(a) + Work(b)
  {
    if b == [] {
      assert a + b == a;
    } else {
      var init, last := b[..|b| - 1], b[|b| - 1];
      assert b == init + [last] && a + b == (a + init) + [last];
      QueueConcat(es, a, init);
      assert ItemsOk(es, a + b);
      Popped(es, init, last);
      Popped(es, a + init, last);
      Associate(ItemOut(es, last), QueueOut(es, init), QueueOut(es, a));
    }
  }

  lemma IndexOfIsUnique<K(!new), V>(lt: (K, K) -> bool, es: seq<(K, V)>, i: nat)
    requires StrictOrder(lt) && Sorted(lt, es) && i < |es|
    ensures HasKey(es, es[i].0) && IndexOf(es, es[i].0) == i
  {
    assert HasKey(es, es[i].0);
    var j := IndexOf(es, es[i].0);
    assert es[j].0 == es[i].0;
  }

  lemma SortedPart<K, V>(lt: (K, K) -> bool, es: seq<(K, V)>, lo: nat, hi: nat)
    requires Sorted(lt, es) && lo <= hi <= |es|
    ensures Sorted(lt, es[lo..hi])
  {
  }

  lemma SubRange<T>(s: seq<T>, lo: nat, k: nat, hi: nat) returns (part: seq<T>, left: seq<T>, right: seq<T>)
    requires lo <= k < hi <= |s|
    ensures part == s[lo..hi] && left == s[lo..k] && right == s[k + 1..hi]
    ensures |left| < |part| && part[|left|] == s[k] && part[..|left|] == left && part[|left| + 1..] == right
  {
    part, left, right := s[lo..hi], s[lo..k], s[k + 1..hi];
  }

  lemma {:induction false} SplitAt<K(!new), V>(lt: (K, K) -> bool, part: seq<(K, V)>, subset: seq<K>, entry: (K, V),
                                               left: seq<(K, V)>, right: seq<(K, V)>)
    requires StrictOrder(lt) && Sorted(lt, part) && subset != [] && entry.0 == subset[|subset| / 2]
    requires |left| < |part| && part[|left|] == entry && part[..|left|] == left && part[|left| + 1..] == right
    ensures Split(part, subset) == [Found(entry.0, entry.1)]
                                 + Split(right, subset[|subset| / 2 + 1..]) + Split(left, subset[..|subset| / 2])
  {
    IndexOfIsUnique(lt, part, |left|);
  }

  /** An item whose middle key is there leaves that entry and the two half items. */
  lemma ItemSplits<K(!new), V>(lt: (K, K) -> bool, es: seq<(K, V)>, t: Item<K>, k: nat, left: Item<K>, right: Item<K>)
    requires StrictOrder(lt) && Sorted(lt, es)
    requires t.subset != [] && t.lo <= k < t.hi <= |es| && es[k].0 == t.subset[|t.subset| / 2]
    requires left == Item(t.lo, k, t.subset[..|t.subset| / 2])
    requires right == Item(k + 1, t.hi, t.subset[|t.subset| / 2 + 1..])
    ensures ItemOut(es, t) == [Found(es[k].0, es[k].1)] + ItemOut(es, right) + ItemOut(es, left)
  {
    SortedPart(lt, es, t.lo, t.hi);
    var part, before, after := SubRange(es, t.lo, k, t.hi);
    SplitAt(lt, part, t.subset, es[k], before, after);
  }

  lemma ItemMisses<K, V>(es: seq<(K, V)>, t: Item<K>)
    requires t.lo <= t.hi <= |es| && t.subset != []
    requires forall i :: t.lo <= i < t.hi ==> es[i].0 != t.subset[|t.subset| / 2]
    ensures ItemOut(es, t) == [NotFound(t.subset[|t.subset| / 2])]
  {
    var part := es[t.lo..t.hi];
    assert forall i :: 0 <= i < |part| ==> part[i] == es[t.lo + i];
  }

  lemma OneItem<K, V>(es: seq<(K, V)>, t: Item<K>)
    requires t.lo <= t.hi <= |es|
    ensures ItemsOk(es, [t]) && QueueOut(es, [t]) == ItemOut(es, t) && Work([t]) == 2 * |t.subset| + 1
  {
    assert [] + [t] == [t];
    Popped(es, [], t);
    assert ItemOut(es, t) + [] == ItemOut(es, t);
  }

  lemma TwoItems<K, V>(es: seq<(K, V)>, left: Item<K>, right: Item<K>)
    requires left.lo <= left.hi <= |es| && right.lo <= right.hi <= |es|
    ensures ItemsOk(es, [left] + [right])
    ensures QueueOut(es, [left] + [right]) == ItemOut(es, right) + ItemOut(es, left)
    ensures Work([left] + [right]) == 2 * |left.subset| + 2 * |right.subset| + 2
  {
    OneItem(es, left);
    Popped(es, [left], right);
  }

  lemma {:induction false} ItemFound<K(!new), V>(lt: (K, K) -> bool, es: seq<(K, V)>, t: Item<K>, k: nat,
                                                 left: Item<K>, right: Item<K>)
    requires StrictOrder(lt) && Sorted(lt, es)
    requires t.subset != [] && t.lo <= k < t.hi <= |es| && es[k].0 == t.subset[|t.subset| / 2]
    requires left == Item(t.lo, k, t.subset[..|t.subset| / 2])
    requires right == Item(k + 1, t.hi, t.subset[|t.subset| / 2 + 1..])
    ensures ItemsOk(es, [left] + [right]) && Work([left] + [right]) <= 2 * |t.subset|
    ensures ItemOut(es, t) == [Found(es[k].0, es[k].1)] + QueueOut(es, [left] + [right])
  {
    ItemSplits(lt, es, t, k, left, right);
    TwoItems(es, left, right);
    Associate([Found(es[k].0, es[k].1)], ItemOut(es, right), ItemOut(es, left));
  }

  /** `binary_search_in_range`: the position is relative to the range. */
  method BinarySearchInRange<K(!new, ==), V>(lt: (K, K) -> bool, self: Claims<K, V>, key: K, lo: nat, hi: nat)
    returns (found: bool, rel: nat)
    requires StrictOrder(lt) && lo <= hi <= |self.keys|
    ensures found ==> rel < hi - lo && self.keys[lo + rel] == key
    ensures !found && Increasing(lt, self.keys) ==> forall i :: lo <= i < hi ==> self.keys[i] != key
  {
    var keys := self.keys[lo..hi];
    found, rel := BinarySearch(lt, keys, key);
    forall i | !found && Increasing(lt, self.keys) && lo <= i < hi
      ensures self.keys[i] != key
    {
      assert Ascending(lt, keys);
      assert self.keys[i] == keys[i - lo];
    }
  }

  /** Every result is about a wanted key, and what is found is really an entry. */
  ghost predicate Real<K, V>(self: Claims<K, V>, subset: seq<K>, out: seq<FindResult<K, V>>) {
    forall i :: 0 <= i < |out| ==>
      match out[i]
      case Found(k, v) => k in subset && (k, v) in Zip(self)
      case NotFound(k) => k in subset
  }

  ghost predicate Wanted<K>(queue: seq<Item<K>>, subset: seq<K>) {
    forall i, k :: 0 <= i < |queue| && k in queue[i].subset ==> k in subset
  }

  /**
   * One turn of the work list: at most one result, and the two halves to look at when the middle key is there. On
   * strictly sorted claims its results and those of the halves are the results of its range.
   */
  method SplitItem<K(!new, ==), V>(lt: (K, K) -> bool, self: Claims<K, V>, item: Item<K>)
    returns (emitted: seq<FindResult<K, V>>, more: seq<Item<K>>)
    requires Paired(self) && StrictOrder(lt) && item.lo <= item.hi <= |self.keys|
    ensures ItemsOk(Zip(self), more) && Work(more) <= 2 * |item.subset|
    ensures |emitted| <= 1 && Real(self, item.subset, emitted) && Wanted(more, item.subset)
    ensures Increasing(lt, self.keys) ==> ItemOut(Zip(self), item) == emitted + QueueOut(Zip(self), more)
  {
    ghost var es := Zip(self);
    if item.subset == [] {
      return [], [];
    }
    var mid := |item.subset| / 2;
    var middle := item.subset[mid];
    var found, rel := BinarySearchInRange(lt, self, middle, item.lo, item.hi);
    if found {
      var k := rel + item.lo;
      var left, right := Item(item.lo, k, item.subset[..mid]), Item(k + 1, item.hi, item.subset[mid + 1..]);
      TwoItems(es, left, right);
      if Increasing(lt, self.keys) {
        IncreasingZip(lt, self);
        ItemFound(lt, es, item, k, left, right);
      }
      assert es[k] == (self.keys[k], self.values[k]);
      emitted, more := [Found(self.keys[k], self.values[k])], [left] + [right];
    } else {
      if Increasing(lt, self.keys) {
        ItemMisses(es, item);
      }
      emitted, more := [NotFound(middle)], [];
    }
  }

  lemma Reassociate<T>(total: seq<T>, out: seq<T>, item: seq<T>, rest: seq<T>, emitted: seq<T>, more: seq<T>)
    requires total == out + (item + rest) && item == emitted + more
    ensures total == (out + emitted) + (more + rest)
  {
  }

  lemma RealMore<K, V>(self: Claims<K, V>, subset: seq<K>, part: seq<K>, out: seq<FindResult<K, V>>,
                       emitted: seq<FindResult<K, V>>)
    requires Real(self, subset, out) && Real(self, part, emitted) && forall k :: k in part ==> k in subset
    ensures Real(self, subset, out + emitted)
  {
  }

  /**
   * `subset_binary_split`: a work list of ranges, taken from its end. It terminates, and reports only entries of the
   * claims, for wanted keys; on strictly sorted claims it emits what `Split` lists.
   */
  method SubsetBinarySplit<K(!new, ==), V>(lt: (K, K) -> bool, self: Claims<K, V>, subset: seq<K>)
    returns (out: seq<FindResult<K, V>>)
    requires Paired(self) && StrictOrder(lt)
    ensures Real(self, subset, out)
    ensures Increasing(lt, self.keys) ==> out == Split(Zip(self), subset)
  {
    ghost var es := Zip(self);
    ghost var strict := Increasing(lt, self.keys);
    out := [];
    var queue := [Item(0, |self.keys|, subset)];
    ghost var total := Split(es, subset);
    FirstItem(es, subset);
    while queue != []
      invariant ItemsOk(es, queue)
      invariant Real(self, subset, out) && Wanted(queue, subset)
      invariant strict ==> total == out + QueueOut(es, queue)
      decreases Work(queue)
    {
      ghost var before := queue;
      var item := queue[|queue| - 1];
      queue := queue[..|queue| - 1];
      assert queue + [item] == before;
      Popped(es, queue, item);
      var emitted, more := SplitItem(lt, self, item);
      QueueConcat(es, queue, more);
      RealMore(self, subset, item.subset, out, emitted);
      if strict {
        Reassociate(total, out, ItemOut(es, item), QueueOut(es, queue), emitted, QueueOut(es, more));
      }
      out := out + emitted;
      queue := queue + more;
    }
  }

  lemma FirstItem<K, V>(es: seq<(K, V)>, subset: seq<K>)
    ensures ItemsOk(es, [Item(0, |es|, subset)]) && QueueOut(es, [Item(0, |es|, subset)]) == Split(es, subset)
  {
    assert es[0..|es|] == es;
    OneItem(es, Item(0, |es|, subset));
  }

  // ---- the claims that are returned ----

  lemma {:induction false} HitsNext<K, V>(out: seq<FindResult<K, V>>, i: nat)
    requires i < |out|
    ensures Hits(out[i..]) == (if out[i].Found? then [(out[i].key, out[i].val)] else []) + Hits(out[i + 1..])
    ensures Misses(out[i..]) == (if out[i].NotFound? then [out[i].wanted] else []) + Misses(out[i + 1..])
  {
    assert out[i..][0] == out[i] && out[i..][1..] == out[i + 1..];
  }

  lemma ZipNext<K, V>(c: Claims<K, V>, k: K, v: V)
    requires Paired(c)
    ensures Zip(Claims(c.keys + [k], c.values + [v])) == Zip(c) + [(k, v)]
  {
  }

  /** The closure that collects the results, run over them in order. */
  method Collect<K, V>(out: seq<FindResult<K, V>>) returns (claims: Claims<K, V>, notFound: seq<K>)
    ensures Paired(claims) && Zip(claims) == Hits(out) && notFound == Misses(out)
  {
    claims, notFound := Claims([], []), [];
    assert out[0..] == out && Zip(claims) + Hits(out) == Hits(out) && notFound + Misses(out) == Misses(out);
    for i := 0 to |out|
      invariant Paired(claims)
      invariant Zip(claims) + Hits(out[i..]) == Hits(out) && notFound + Misses(out[i..]) == Misses(out)
    {
      HitsNext(out, i);
      match out[i] {
        case Found(k, v) =>
          ZipNext(claims, k, v);
          Associate(Zip(claims), [(k, v)], Hits(out[i + 1..]));
          assert [] + Misses(out[i + 1..]) == Misses(out[i + 1..]);
          claims := Claims(claims.keys + [k], claims.values + [v]);
        case NotFound(k) =>
          Associate(notFound, [k], Misses(out[i + 1..]));
          assert [] + Hits(out[i + 1..]) == Hits(out[i + 1..]);
          notFound := notFound + [k];
      }
    }
    assert out[|out|..] == [];
  }

  /** The wanted entries before the first key that is not held, and that key once for every entry above it. */
  ghost predicate LinearSelects<K, V>(lt: (K, K) -> bool, es: seq<(K, V)>, subset: seq<K>, found: seq<(K, V)>,
                                      notFound: seq<K>)
  {
    var p := FirstAbsent(es, subset);
    && found == Select(es, KeySet(subset[..p]))
    && notFound == if p == |subset| then [] else Repeat(subset[p], Above(lt, es, subset[p]))
  }

  /**
   * What the lookups of the visited keys give: wanted entries, each at most once, all of them exactly if the wanted keys are
   * intact, and some key reported missing exactly if one is, which is wanted and not held.
   */
  ghost predicate SplitSelects<K, V>(es: seq<(K, V)>, subset: seq<K>, found: seq<(K, V)>, notFound: seq<K>) {
    && found == Hits(Lookups(es, subset)) && notFound == Misses(Lookups(es, subset))
    && multiset(found) <= multiset(Select(es, KeySet(subset)))
    && (multiset(found) == multiset(Select(es, KeySet(subset))) <==> Intact(es, subset))
    && (notFound == [] <==> AllPresent(es, subset))
    && (forall k :: k in notFound ==> k in subset && !HasKey(es, k))
  }

  lemma Selected<K(!new), V>(lt: (K, K) -> bool, es: seq<(K, V)>, subset: seq<K>)
    requires StrictOrder(lt) && Sorted(lt, es) && Increasing(lt, subset)
    ensures SplitSelects(es, subset, Hits(Split(es, subset)), Misses(Split(es, subset)))
    ensures subset != [] ==>
      LinearSelects(lt, es, subset, Hits(Linear(lt, es, subset)), Misses(Linear(lt, es, subset)))
  {
    SplitIsLookups(lt, es, subset);
    SplitIsFilterExactly(lt, es, subset);
    MissesAreAbsent(es, subset);
    if subset != [] {
      LinearFinds(lt, es, subset);
      LinearMisses(lt, es, subset);
    }
  }

  /**
   * `subset_serialize`, with the heuristic's choice as a parameter: what each choice returns and reports as missing, for all
   * wanted keys. With all of them there, both return the same entries and nothing as missing. `to_claims_sorted`, which a
   * session check runs on them, accepts what the linear merge returns; it accepts what the split returns exactly when that
   * was emitted in order, which with all wanted keys there is the case only for at most one.
   */
  method SubsetSerialize<K(!new, ==), V>(lt: (K, K) -> bool, self: Claims<K, V>, subset: seq<K>, linear: bool)
    returns (claims: Claims<K, V>, notFound: seq<K>)
    requires Paired(self) && StrictOrder(lt)
    requires linear ==> subset != []
    ensures Paired(claims)
    ensures linear && Increasing(lt, self.keys) && Increasing(lt, subset) ==>
      && NonDecreasing(lt, claims.keys) && LinearSelects(lt, Zip(self), subset, Zip(claims), notFound)
    ensures !linear && Increasing(lt, self.keys) && Increasing(lt, subset) ==>
      SplitSelects(Zip(self), subset, Zip(claims), notFound)
    ensures !linear && Increasing(lt, self.keys) && Increasing(lt, subset) ==>
      (NonDecreasing(lt, claims.keys) <==> InOrder(Zip(self), subset))
    ensures Increasing(lt, self.keys) && Increasing(lt, subset) && AllPresent(Zip(self), subset) ==>
      && notFound == [] && multiset(Zip(claims)) == multiset(Select(Zip(self), KeySet(subset)))
      && (!linear ==> (NonDecreasing(lt, claims.keys) <==> |subset| <= 1))
  {
    ghost var es := Zip(self);
    ghost var ordered := Increasing(lt, self.keys) && Increasing(lt, subset);
    var out: seq<FindResult<K, V>>;
    if linear {
      out := SubsetLinear(lt, self, subset);
    } else {
      out := SubsetBinarySplit(lt, self, subset);
    }
    claims, notFound := Collect(out);
    KeysInOrder(lt, claims);
    if ordered {
      IncreasingZip(lt, self);
      Selected(lt, es, subset);
      if linear {
        LinearInOrder(lt, es, subset);
      } else {
        SplitSortedIff(lt, es, subset);
        if !InOrder(es, subset) {
          OutOfOrder(lt, claims);
        }
      }
      if AllPresent(es, subset) {
        Serialized(lt, es, subset, linear);
        InOrderWhenPresent(es, subset);
      }
    }
  }

  lemma KeysInOrder<K(!new), V>(lt: (K, K) -> bool, c: Claims<K, V>)
    requires StrictOrder(lt) && Paired(c)
    ensures Sorted(lt, Zip(c)) ==> NonDecreasing(lt, c.keys)
  {
    if Sorted(lt, Zip(c)) {
      assert forall i :: 0 <= i < |c.keys| ==> Zip(c)[i].0 == c.keys[i];
      assert Increasing(lt, c.keys);
      IncreasingNonDecreasing(lt, c.keys);
    }
  }

  /** A descent anywhere is a descent between neighbours. */
  lemma OutOfOrder<K(!new), V>(lt: (K, K) -> bool, c: Claims<K, V>)
    requires StrictOrder(lt) && Paired(c) && Descends(lt, Zip(c))
    ensures !NonDecreasing(lt, c.keys)
  {
    if NonDecreasing(lt, c.keys) {
      AscendsWhenNonDecreasing(lt, c.keys);
    }
  }

  lemma Serialized<K(!new), V>(lt: (K, K) -> bool, es: seq<(K, V)>, subset: seq<K>, linear: bool)
    requires StrictOrder(lt) && Sorted(lt, es) && Increasing(lt, subset) && AllPresent(es, subset)
    requires linear ==> subset != []
    ensures var out := if linear then Linear(lt, es, subset) else Split(es, subset);
      && Misses(out) == [] && |Hits(out)| == |subset|
      && multiset(Hits(out)) == multiset(Select(es, KeySet(subset)))
      && (|subset| <= 1 ==> Sorted(lt, Hits(out)))
  {
    if linear {
      LinearMissesNothing(lt, es, subset);
      AllFound(Linear(lt, es, subset));
      PresentExactly(es, subset);
      LinearFinds(lt, es, subset);
      assert subset[..|subset|] == subset;
    } else {
      SplitMissesNothing(lt, es, subset);
      AllFound(Split(es, subset));
      PresentIsIntact(es, subset);
      SplitIsFilterExactly(lt, es, subset);
    }
  }
}
