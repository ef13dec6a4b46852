/**
 * The worklist shared by the three versions of `augmentTokenGroups`: a map
 * from lexical key to group that remembers insertion order (`Map`), a queue
 * of groups still to expand, and the final sort of the map's values by key.
 *
 * The map's values in insertion order are kept as `entries`; the queue is
 * always the suffix `entries[head..]`, because a group is pushed onto the
 * queue exactly when it is added to the map. Expanding a group (running every
 * augmenter on it and collecting the results in order) is the parameter
 * `expand`; `normalise` is what `addToQueue` does to a group before keying it.
 */
module AugmentWorklist {

  /** The keys of `xs`, in order. */
  function Keys<T, K>(xs: seq<T>, key: T -> K): (r: seq<K>)
    ensures |r| == |xs| && forall i :: 0 <= i < |xs| ==> r[i] == key(xs[i])
  {
    if xs == [] then [] else Keys(xs[..|xs| - 1], key) + [key(xs[|xs| - 1])]
  }

  predicate DistinctKeys<T, K(==)>(xs: seq<T>, key: T -> K) {
    forall i, j :: 0 <= i < j < |xs| ==> key(xs[i]) != key(xs[j])
  }

  /** `addToQueue`: the normalised group is added unless its key is already in the map. */
  function Add<T, K(==)>(entries: seq<T>, g: T, normalise: T -> T, key: T -> K): (r: seq<T>)
    ensures key(normalise(g)) in Keys(r, key)
    ensures key(normalise(g)) in Keys(entries, key) ==> r == entries
    ensures key(normalise(g)) !in Keys(entries, key) ==> r == entries + [normalise(g)]
  {
    var k := key(normalise(g));
    if k in Keys(entries, key) then entries
    else
      assert Keys(entries + [normalise(g)], key)[|entries|] == k;
      entries + [normalise(g)]
  }

  /** `addToQueue` applied to each of `gs` in order. */
  function AddAll<T, K(==)>(entries: seq<T>, gs: seq<T>, normalise: T -> T, key: T -> K): seq<T>
  {
    if gs == [] then entries
    else Add(AddAll(entries, gs[..|gs| - 1], normalise, key), gs[|gs| - 1], normalise, key)
  }

  /** The `for` loops that call `addToQueue` on each group of a list. */
  method AddEach<T, K(==)>(entries: seq<T>, gs: seq<T>, normalise: T -> T, key: T -> K) returns (r: seq<T>)
    ensures r == AddAll(entries, gs, normalise, key)
  {
    r := entries;
    for n := 0 to |gs|
      invariant r == AddAll(entries, gs[..n], normalise, key)
    {
      assert gs[..n + 1][..n] == gs[..n];
      r := Add(r, gs[n], normalise, key);
    }
    assert gs[..|gs|] == gs;
  }

  /** `AddAll` only appends. */
  lemma {:induction false} AddAllPrefix<T, K>(entries: seq<T>, gs: seq<T>, normalise: T -> T, key: T -> K)
    ensures var r := AddAll(entries, gs, normalise, key);
      |entries| <= |r| && r[..|entries|] == entries
  {
    if gs != [] {
      AddAllPrefix(entries, gs[..|gs| - 1], normalise, key);
    }
  }

  /** `AddAll` keeps the keys distinct. */
  lemma {:induction false} AddAllDistinct<T, K>(entries: seq<T>, gs: seq<T>, normalise: T -> T, key: T -> K)
    requires DistinctKeys(entries, key)
    ensures DistinctKeys(AddAll(entries, gs, normalise, key), key)
  {
    if gs != [] {
      var before := AddAll(entries, gs[..|gs| - 1], normalise, key);
      AddAllDistinct(entries, gs[..|gs| - 1], normalise, key);
      var g := normalise(gs[|gs| - 1]);
      if key(g) !in Keys(before, key) {
        assert forall i :: 0 <= i < |before| ==> key(before[i]) == Keys(before, key)[i];
      }
    }
  }

  /** After `AddAll`, the key of every added group is in the map. */
  lemma {:induction false} AddAllKeys<T, K>(entries: seq<T>, gs: seq<T>, normalise: T -> T, key: T -> K)
    ensures forall i :: 0 <= i < |gs| ==> key(normalise(gs[i])) in Keys(AddAll(entries, gs, normalise, key), key)
  {
    if gs != [] {
      var init := gs[..|gs| - 1];
      var before := AddAll(entries, init, normalise, key);
      var r := Add(before, gs[|gs| - 1], normalise, key);
      AddAllKeys(entries, init, normalise, key);
      forall i | 0 <= i < |init|
        ensures key(normalise(gs[i])) in Keys(r, key)
      {
        assert init[i] == gs[i];
        var j :| 0 <= j < |before| && Keys(before, key)[j] == key(normalise(gs[i]));
        assert Keys(r, key)[j] == Keys(before, key)[j];
      }
    }
  }

  /** Everything `AddAll` appends is one of the normalised groups. */
  lemma {:induction false} AddAllOrigin<T, K>(entries: seq<T>, gs: seq<T>, normalise: T -> T, key: T -> K)
    ensures var r := AddAll(entries, gs, normalise, key);
      forall i :: |entries| <= i < |r| ==> exists k :: 0 <= k < |gs| && r[i] == normalise(gs[k])
  {
    if gs != [] {
      var init := gs[..|gs| - 1];
      AddAllOrigin(entries, init, normalise, key);
      AddAllPrefix(entries, init, normalise, key);
      assert forall k :: 0 <= k < |init| ==> init[k] == gs[k];
    }
  }

  /** The first of `gs` with a key new to the map is what is stored under that key. */
  predicate FirstWithKey<T, K(==)>(gs: seq<T>, k: int, normalise: T -> T, key: T -> K)
    requires 0 <= k < |gs|
  {
    forall j :: 0 <= j < k ==> key(normalise(gs[j])) != key(normalise(gs[k]))
  }

  /** A key found neither in the map nor among the added groups is still absent afterwards. */
  lemma KeyStaysAbsent<T, K>(entries: seq<T>, gs: seq<T>, normalise: T -> T, key: T -> K, x: T)
    requires key(x) !in Keys(entries, key)
    requires forall j :: 0 <= j < |gs| ==> key(normalise(gs[j])) != key(x)
    ensures key(x) !in Keys(AddAll(entries, gs, normalise, key), key)
  {
    var r := AddAll(entries, gs, normalise, key);
    AddAllOrigin(entries, gs, normalise, key);
    AddAllPrefix(entries, gs, normalise, key);
    forall i | 0 <= i < |r|
      ensures key(r[i]) != key(x)
    {
      if i < |entries| {
        assert r[i] == entries[i];
        assert Keys(entries, key)[i] == key(r[i]);
      } else {
        var m :| 0 <= m < |gs| && r[i] == normalise(gs[m]);
      }
    }
  }

  /** Being first with a key survives cutting off later groups. */
  lemma FirstWithKeyPrefix<T, K>(gs: seq<T>, n: int, k: int, normalise: T -> T, key: T -> K)
    requires 0 <= k < n <= |gs| && FirstWithKey(gs, k, normalise, key)
    ensures FirstWithKey(gs[..n], k, normalise, key)
  {
    assert forall j :: 0 <= j <= k ==> gs[..n][j] == gs[j];
  }

  lemma {:induction false} AddAllFirstKept<T, K>(entries: seq<T>, gs: seq<T>, normalise: T -> T, key: T -> K)
    ensures forall k :: 0 <= k < |gs| && key(normalise(gs[k])) !in Keys(entries, key) && FirstWithKey(gs, k, normalise, key) ==>
      normalise(gs[k]) in AddAll(entries, gs, normalise, key)
  {
    if gs != [] {
      var n := |gs| - 1;
      var init := gs[..n];
      var g := normalise(gs[n]);
      var before := AddAll(entries, init, normalise, key);
      var r := Add(before, gs[n], normalise, key);
      assert r == AddAll(entries, gs, normalise, key);
      AddAllFirstKept(entries, init, normalise, key);
      assert forall x :: x in before ==> x in r;
      forall k | 0 <= k < |gs| && key(normalise(gs[k])) !in Keys(entries, key) && FirstWithKey(gs, k, normalise, key)
        ensures normalise(gs[k]) in r
      {
        if k < n {
          FirstWithKeyPrefix(gs, n, k, normalise, key);
          assert init[k] == gs[k];
        } else {
          assert forall j :: 0 <= j < n ==> init[j] == gs[j];
          KeyStaysAbsent(entries, init, normalise, key, g);
        }
      }
    }
  }

  lemma AddAllFacts<T, K>(entries: seq<T>, gs: seq<T>, normalise: T -> T, key: T -> K)
    ensures var r := AddAll(entries, gs, normalise, key);
      |entries| <= |r| && r[..|entries|] == entries &&
      (DistinctKeys(entries, key) ==> DistinctKeys(r, key)) &&
      (forall i :: 0 <= i < |gs| ==> key(normalise(gs[i])) in Keys(r, key)) &&
      (forall i :: |entries| <= i < |r| ==> exists k :: 0 <= k < |gs| && r[i] == normalise(gs[k]))
  {
    AddAllPrefix(entries, gs, normalise, key);
    if DistinctKeys(entries, key) {
      AddAllDistinct(entries, gs, normalise, key);
    }
    AddAllKeys(entries, gs, normalise, key);
    AddAllOrigin(entries, gs, normalise, key);
  }

  /** Every entry comes from a seed or from expanding an earlier entry. */
  ghost predicate Derived<T>(entries: seq<T>, seeds: seq<T>, expand: T -> seq<T>, normalise: T -> T, i: int)
    requires 0 <= i < |entries|
  {
    (exists k :: 0 <= k < |seeds| && entries[i] == normalise(seeds[k])) ||
    (exists j, k :: 0 <= j < i && 0 <= k < |expand(entries[j])| && entries[i] == normalise(expand(entries[j])[k]))
  }

  /** Every entry of `d` comes from a seed or from expanding an entry before it. */
  ghost predicate Derivation<T>(d: seq<T>, seeds: seq<T>, expand: T -> seq<T>, normalise: T -> T) {
    forall i :: 0 <= i < |d| ==> Derived(d, seeds, expand, normalise, i)
  }

  /** Some ordering of `result` is a derivation from the seeds: nothing in it is unreachable from them. */
  ghost predicate DerivableFrom<T(!new)>(result: seq<T>, seeds: seq<T>, expand: T -> seq<T>, normalise: T -> T) {
    exists d :: Derivation(d, seeds, expand, normalise) && multiset(d) == multiset(result)
  }

  /** Every expansion of the entries before `head` is in the map, under its key. */
  predicate ClosedBelow<T, K(==)>(entries: seq<T>, head: int, expand: T -> seq<T>, normalise: T -> T, key: T -> K)
    requires 0 <= head <= |entries|
  {
    forall i, k :: 0 <= i < head && 0 <= k < |expand(entries[i])| ==>
      key(normalise(expand(entries[i])[k])) in Keys(entries, key)
  }

  /** Keys of a prefix survive in any extension. */
  lemma KeysPrefix<T, K>(a: seq<T>, b: seq<T>, key: T -> K)
    requires |a| <= |b| && b[..|a|] == a
    ensures forall k :: k in Keys(a, key) ==> k in Keys(b, key)
  {
    forall k | k in Keys(a, key)
      ensures k in Keys(b, key)
    {
      var j :| 0 <= j < |a| && Keys(a, key)[j] == k;
      assert Keys(b, key)[j] == k;
    }
  }

  /**
   * The seeding loop and the loop that drains the queue, run for at most
   * `fuel` rounds; `complete` says the queue ran empty.
   */
  method Closure<T, K(==)>(seeds: seq<T>, expand: T -> seq<T>, normalise: T -> T, key: T -> K, fuel: nat)
    returns (entries: seq<T>, complete: bool)
    ensures DistinctKeys(entries, key)
    ensures forall k :: 0 <= k < |seeds| ==> key(normalise(seeds[k])) in Keys(entries, key)
    ensures forall k :: 0 <= k < |seeds| && FirstWithKey(seeds, k, normalise, key) ==> normalise(seeds[k]) in entries
    ensures forall i :: 0 <= i < |entries| ==> Derived(entries, seeds, expand, normalise, i)
    ensures complete ==> ClosedBelow(entries, |entries|, expand, normalise, key)
  {
    entries := AddEach([], seeds, normalise, key);
    AddAllFacts([], seeds, normalise, key);
    AddAllFirstKept([], seeds, normalise, key);
    var head := 0;
    var rounds := fuel;
    while head < |entries| && rounds > 0
      invariant 0 <= head <= |entries|
      invariant DistinctKeys(entries, key)
      invariant forall k :: 0 <= k < |seeds| ==> key(normalise(seeds[k])) in Keys(entries, key)
      invariant forall k :: 0 <= k < |seeds| && FirstWithKey(seeds, k, normalise, key) ==> normalise(seeds[k]) in entries
      invariant forall i :: 0 <= i < |entries| ==> Derived(entries, seeds, expand, normalise, i)
      invariant ClosedBelow(entries, head, expand, normalise, key)
      decreases rounds
    {
      ghost var before := entries;
      entries := AddEach(entries, expand(entries[head]), normalise, key);
      ClosureStep(before, entries, seeds, expand, normalise, key, head);
      head := head + 1;
      rounds := rounds - 1;
    }
    complete := head == |entries|;
  }

  /** One round of the loop keeps its invariants, with the entry at `head` now expanded. */
  lemma ClosureStep<T, K>(before: seq<T>, after: seq<T>, seeds: seq<T>, expand: T -> seq<T>,
                             normalise: T -> T, key: T -> K, head: int)
    requires 0 <= head < |before|
    requires after == AddAll(before, expand(before[head]), normalise, key)
    requires DistinctKeys(before, key)
    requires forall k :: 0 <= k < |seeds| ==> key(normalise(seeds[k])) in Keys(before, key)
    requires forall k :: 0 <= k < |seeds| && FirstWithKey(seeds, k, normalise, key) ==> normalise(seeds[k]) in before
    requires forall i :: 0 <= i < |before| ==> Derived(before, seeds, expand, normalise, i)
    requires ClosedBelow(before, head, expand, normalise, key)
    ensures head + 1 <= |after|
    ensures DistinctKeys(after, key)
    ensures forall k :: 0 <= k < |seeds| ==> key(normalise(seeds[k])) in Keys(after, key)
    ensures forall k :: 0 <= k < |seeds| && FirstWithKey(seeds, k, normalise, key) ==> normalise(seeds[k]) in after
    ensures forall i :: 0 <= i < |after| ==> Derived(after, seeds, expand, normalise, i)
    ensures ClosedBelow(after, head + 1, expand, normalise, key)
  {
    AddAllFacts(before, expand(before[head]), normalise, key);
    KeysPrefix(before, after, key);
    DerivedExtends(before, after, seeds, expand, normalise, head);
    forall i, k | 0 <= i < head + 1 && 0 <= k < |expand(after[i])|
      ensures key(normalise(expand(after[i])[k])) in Keys(after, key)
    {
      assert after[i] == before[i];
    }
  }

  /** Adding the expansions of entry `head` keeps every entry derived. */
  lemma DerivedExtends<T>(before: seq<T>, after: seq<T>, seeds: seq<T>, expand: T -> seq<T>, normalise: T -> T, head: int)
    requires 0 <= head < |before| <= |after| && after[..|before|] == before
    requires forall i :: 0 <= i < |before| ==> Derived(before, seeds, expand, normalise, i)
    requires forall i :: |before| <= i < |after| ==>
      exists k :: 0 <= k < |expand(before[head])| && after[i] == normalise(expand(before[head])[k])
    ensures forall i :: 0 <= i < |after| ==> Derived(after, seeds, expand, normalise, i)
  {
    forall i | 0 <= i < |after|
      ensures Derived(after, seeds, expand, normalise, i)
    {
      if i < |before| {
        assert after[i] == before[i];
        assert forall j :: 0 <= j < i ==> after[j] == before[j];
        assert Derived(before, seeds, expand, normalise, i);
      } else {
        var k :| 0 <= k < |expand(before[head])| && after[i] == normalise(expand(before[head])[k]);
        assert after[head] == before[head];
      }
    }
  }

  // ---------------------------------------------------------------------------
  // The final sort compares the keys of the groups with the locale's order.
  // ---------------------------------------------------------------------------

  /** `le(a, b)` is `a.localeCompare(b) <= 0`; a consistent comparator makes it a total preorder. */
  ghost predicate TotalPreorder<K(!new)>(le: (K, K) -> bool) {
    (forall a, b :: le(a, b) || le(b, a)) &&
    (forall a, b, c :: le(a, b) && le(b, c) ==> le(a, c))
  }

  predicate SortedBy<T, K>(xs: seq<T>, key: T -> K, le: (K, K) -> bool) {
    forall i, j :: 0 <= i < j < |xs| ==> le(key(xs[i]), key(xs[j]))
  }

  /** Places `x` after the last element of `s` whose key is not above its own. */
  function Insert<T, K>(s: seq<T>, x: T, key: T -> K, le: (K, K) -> bool): (r: seq<T>)
    ensures multiset(r) == multiset(s) + multiset{x}
  {
    if s == [] then [x]
    else if le(key(s[|s| - 1]), key(x)) then s + [x]
    else
      var init := s[..|s| - 1];
      assert s == init + [s[|s| - 1]];
      Insert(init, x, key, le) + [s[|s| - 1]]
  }

  /** A sort by `key` under `le`: each element is inserted into the sorted prefix before it. */
  function SortBy<T, K>(xs: seq<T>, key: T -> K, le: (K, K) -> bool): (r: seq<T>)
    ensures multiset(r) == multiset(xs)
  {
    if xs == [] then []
    else
      var init := xs[..|xs| - 1];
      assert xs == init + [xs[|xs| - 1]];
      Insert(SortBy(init, key, le), xs[|xs| - 1], key, le)
  }

  /** Every element of `Insert(s, x, ...)` is `x` or an element of `s`. */
  lemma InsertElements<T, K>(s: seq<T>, x: T, key: T -> K, le: (K, K) -> bool)
    ensures forall y :: y in Insert(s, x, key, le) ==> y == x || y in s
  {
    var r := Insert(s, x, key, le);
    forall y | y in r
      ensures y == x || y in s
    {
      assert y in multiset(r);
    }
  }

  lemma SortedSnoc<T, K>(r: seq<T>, y: T, key: T -> K, le: (K, K) -> bool)
    requires SortedBy(r, key, le)
    requires forall i :: 0 <= i < |r| ==> le(key(r[i]), key(y))
    ensures SortedBy(r + [y], key, le)
  {
  }

  lemma {:induction false} InsertSorted<T, K(!new)>(s: seq<T>, x: T, key: T -> K, le: (K, K) -> bool)
    requires TotalPreorder(le) && SortedBy(s, key, le)
    ensures SortedBy(Insert(s, x, key, le), key, le)
  {
    if s != [] {
      var init := s[..|s| - 1];
      var last := s[|s| - 1];
      if le(key(last), key(x)) {
        SortedSnoc(s, x, key, le);
      } else {
        assert SortedBy(init, key, le);
        InsertSorted(init, x, key, le);
        InsertElements(init, x, key, le);
        var r := Insert(init, x, key, le);
        forall i | 0 <= i < |r|
          ensures le(key(r[i]), key(last))
        {
          assert r[i] in r;
          if r[i] != x {
            var k :| 0 <= k < |init| && init[k] == r[i];
            assert s[k] == r[i];
          }
        }
        SortedSnoc(r, last, key, le);
      }
    }
  }

  lemma {:induction false} SortBySorted<T, K(!new)>(xs: seq<T>, key: T -> K, le: (K, K) -> bool)
    requires TotalPreorder(le)
    ensures SortedBy(SortBy(xs, key, le), key, le)
  {
    if xs != [] {
      SortBySorted(xs[..|xs| - 1], key, le);
      InsertSorted(SortBy(xs[..|xs| - 1], key, le), xs[|xs| - 1], key, le);
    }
  }

  /** Inserting an element whose key is new keeps the keys distinct. */
  lemma {:induction false} InsertDistinct<T, K>(s: seq<T>, x: T, key: T -> K, le: (K, K) -> bool)
    requires DistinctKeys(s, key) && forall i :: 0 <= i < |s| ==> key(s[i]) != key(x)
    ensures DistinctKeys(Insert(s, x, key, le), key)
  {
    if s != [] && !le(key(s[|s| - 1]), key(x)) {
      var init := s[..|s| - 1];
      var last := s[|s| - 1];
      InsertDistinct(init, x, key, le);
      var r := Insert(init, x, key, le);
      forall y | y in r
        ensures key(y) != key(last)
      {
        assert y in multiset(r);
        if y != x {
          assert y in multiset(init);
          var i :| 0 <= i < |init| && init[i] == y;
          assert s[i] == y;
        }
      }
      assert forall i :: 0 <= i < |r| ==> r[i] in r;
    }
  }

  /** Sorting keeps the keys distinct. */
  lemma {:induction false} SortByDistinct<T, K>(xs: seq<T>, key: T -> K, le: (K, K) -> bool)
    requires DistinctKeys(xs, key)
    ensures DistinctKeys(SortBy(xs, key, le), key)
  {
    if xs != [] {
      var init := xs[..|xs| - 1];
      var last := xs[|xs| - 1];
      SortByDistinct(init, key, le);
      var r := SortBy(init, key, le);
      forall i | 0 <= i < |r|
        ensures key(r[i]) != key(last)
      {
        assert r[i] in multiset(init);
        var j :| 0 <= j < |init| && init[j] == r[i];
        assert xs[j] == r[i];
      }
      InsertDistinct(r, last, key, le);
    }
  }

  /** A permutation has the same keys. */
  lemma PermutationKeys<T, K>(xs: seq<T>, ys: seq<T>, key: T -> K)
    requires multiset(xs) == multiset(ys)
    ensures forall k :: k in Keys(xs, key) <==> k in Keys(ys, key)
  {
    forall k | k in Keys(xs, key)
      ensures k in Keys(ys, key)
    {
      var i :| 0 <= i < |xs| && Keys(xs, key)[i] == k;
      assert xs[i] in multiset(ys);
      var j :| 0 <= j < |ys| && ys[j] == xs[i];
      assert Keys(ys, key)[j] == k;
    }
    forall k | k in Keys(ys, key)
      ensures k in Keys(xs, key)
    {
      var i :| 0 <= i < |ys| && Keys(ys, key)[i] == k;
      assert ys[i] in multiset(xs);
      var j :| 0 <= j < |xs| && xs[j] == ys[i];
      assert Keys(xs, key)[j] == k;
    }
  }

  lemma KeyInPermutation<T, K>(xs: seq<T>, ys: seq<T>, key: T -> K, v: K)
    requires multiset(xs) == multiset(ys) && v in Keys(xs, key)
    ensures v in Keys(ys, key)
  {
    PermutationKeys(xs, ys, key);
  }

  /** Every derived entry is a normalised group. */
  lemma DerivedIsNormalised<T(!new)>(entries: seq<T>, seeds: seq<T>, expand: T -> seq<T>, normalise: T -> T, i: int)
    requires 0 <= i < |entries| && Derived(entries, seeds, expand, normalise, i)
    ensures exists x :: entries[i] == normalise(x)
  {
    if exists k :: 0 <= k < |seeds| && entries[i] == normalise(seeds[k]) {
      var k :| 0 <= k < |seeds| && entries[i] == normalise(seeds[k]);
      assert entries[i] == normalise(seeds[k]);
    } else {
      var j, k :| 0 <= j < i && 0 <= k < |expand(entries[j])| && entries[i] == normalise(expand(entries[j])[k]);
      var x := expand(entries[j])[k];
      assert entries[i] == normalise(x);
    }
  }

  /** What the closure established about its entries carries over to any reordering of them. */
  lemma SortedFromEntries<T(!new), K>(entries: seq<T>, result: seq<T>, seeds: seq<T>, expand: T -> seq<T>,
                                   normalise: T -> T, key: T -> K, complete: bool)
    requires multiset(entries) == multiset(result)
    requires forall k :: 0 <= k < |seeds| && FirstWithKey(seeds, k, normalise, key) ==> normalise(seeds[k]) in entries
    requires forall i :: 0 <= i < |entries| ==> Derived(entries, seeds, expand, normalise, i)
    requires complete ==> ClosedBelow(entries, |entries|, expand, normalise, key)
    ensures forall k :: 0 <= k < |seeds| && FirstWithKey(seeds, k, normalise, key) ==> normalise(seeds[k]) in result
    ensures forall i :: 0 <= i < |result| ==> exists x :: result[i] == normalise(x)
    ensures complete ==> forall i, k :: 0 <= i < |result| && 0 <= k < |expand(result[i])| ==>
      key(normalise(expand(result[i])[k])) in Keys(result, key)
  {
    PermutationKeys(entries, result, key);
    forall x | x in entries
      ensures x in result
    {
      assert x in multiset(result);
    }
    forall i | 0 <= i < |result|
      ensures exists x :: result[i] == normalise(x)
    {
      assert result[i] in multiset(entries);
      var j :| 0 <= j < |entries| && entries[j] == result[i];
      DerivedIsNormalised(entries, seeds, expand, normalise, j);
    }
    if complete {
      forall i, k | 0 <= i < |result| && 0 <= k < |expand(result[i])|
        ensures key(normalise(expand(result[i])[k])) in Keys(result, key)
      {
        assert result[i] in multiset(entries);
        var j :| 0 <= j < |entries| && entries[j] == result[i];
        assert ClosedBelow(entries, |entries|, expand, normalise, key);
        var v := key(normalise(expand(entries[j])[k]));
        KeyInPermutation(entries, result, key, v);
      }
    }
  }

  /**
   * `augmentTokenGroups` as the temp and the published augment.js write it:
   * the worklist closure, then the map's values sorted by key.
   */
  method Augment<T(!new), K(==, !new)>(seeds: seq<T>, expand: T -> seq<T>, normalise: T -> T, key: T -> K,
                           le: (K, K) -> bool, fuel: nat)
    returns (result: seq<T>, complete: bool)
    ensures DistinctKeys(result, key)
    ensures forall k :: 0 <= k < |seeds| ==> key(normalise(seeds[k])) in Keys(result, key)
    ensures forall k :: 0 <= k < |seeds| && FirstWithKey(seeds, k, normalise, key) ==> normalise(seeds[k]) in result
    ensures forall i :: 0 <= i < |result| ==> exists x :: result[i] == normalise(x)
    ensures DerivableFrom(result, seeds, expand, normalise)
    ensures TotalPreorder(le) ==> SortedBy(result, key, le)
    ensures complete ==> forall i, k :: 0 <= i < |result| && 0 <= k < |expand(result[i])| ==>
      key(normalise(expand(result[i])[k])) in Keys(result, key)
  {
    var entries;
    entries, complete := Closure(seeds, expand, normalise, key, fuel);
    result := SortBy(entries, key, le);
    SortByDistinct(entries, key, le);
    PermutationKeys(entries, result, key);
    if TotalPreorder(le) {
      SortBySorted(entries, key, le);
    }
    SortedFromEntries(entries, result, seeds, expand, normalise, key, complete);
    assert Derivation(entries, seeds, expand, normalise);
  }
}
