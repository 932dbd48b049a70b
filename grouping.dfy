/** The mathematics of the counting sort that `SparseModeNew` performs.
    Entry `i` of the input carries the key `keys[i]` (its coordinate in the
    fixed mode); the sort groups the entries by key, keys in increasing order,
    and keeps input order inside each group. */
module Grouping {

  /** Number of keys strictly below `k`. */
  function Below(keys: seq<nat>, k: nat): (r: nat)
    ensures r <= |keys|
  {
    if keys == [] then 0
    else Below(keys[..|keys| - 1], k) + (if keys[|keys| - 1] < k then 1 else 0)
  }

  /** Number of keys equal to `k`. */
  function CountKey(keys: seq<nat>, k: nat): (r: nat)
    ensures r <= |keys|
  {
    if keys == [] then 0
    else CountKey(keys[..|keys| - 1], k) + (if keys[|keys| - 1] == k then 1 else 0)
  }

  ghost predicate AllBelow(keys: seq<nat>, m: nat)
  {
    forall i :: 0 <= i < |keys| ==> keys[i] < m
  }

  lemma {:induction false} BelowZero(keys: seq<nat>)
    ensures Below(keys, 0) == 0
  {
    if keys != [] {
      BelowZero(keys[..|keys| - 1]);
    }
  }

  /** The keys below `k + 1` are those below `k` and those equal to `k`. */
  lemma {:induction false} BelowStep(keys: seq<nat>, k: nat)
    ensures Below(keys, k + 1) == Below(keys, k) + CountKey(keys, k)
  {
    if keys != [] {
      BelowStep(keys[..|keys| - 1], k);
    }
  }

  lemma {:induction false} BelowMonotone(keys: seq<nat>, k: nat, k': nat)
    requires k <= k'
    ensures Below(keys, k) <= Below(keys, k')
  {
    if keys != [] {
      BelowMonotone(keys[..|keys| - 1], k, k');
    }
  }

  /** When every key is below `m`, all entries are counted below `m`. */
  lemma {:induction false} BelowAll(keys: seq<nat>, m: nat)
    requires AllBelow(keys, m)
    ensures Below(keys, m) == |keys|
  {
    if keys != [] {
      BelowAll(keys[..|keys| - 1], m);
    }
  }

  lemma CountKeyPrefix(keys: seq<nat>, i: nat, k: nat)
    requires i < |keys|
    ensures CountKey(keys[..i + 1], k) == CountKey(keys[..i], k) + (if keys[i] == k then 1 else 0)
  {
    assert keys[..i + 1][..i] == keys[..i];
  }

  lemma {:induction false} CountKeyPrefixMonotone(keys: seq<nat>, i: nat, j: nat, k: nat)
    requires i <= j <= |keys|
    ensures CountKey(keys[..i], k) <= CountKey(keys[..j], k)
  {
    if i < j {
      CountKeyPrefixMonotone(keys, i, j - 1, k);
      CountKeyPrefix(keys, j - 1, k);
    }
  }

  /** The position the counting sort gives entry `i`: after every entry with
      a smaller key and after the earlier entries with the same key. */
  function Slot(keys: seq<nat>, i: nat): (r: nat)
    requires i < |keys|
    ensures Below(keys, keys[i]) <= r < Below(keys, keys[i] + 1) <= |keys|
  {
    CountKeyPrefix(keys, i, keys[i]);
    CountKeyPrefixMonotone(keys, i + 1, |keys|, keys[i]);
    assert keys[..|keys|] == keys;
    BelowStep(keys, keys[i]);
    Below(keys, keys[i]) + CountKey(keys[..i], keys[i])
  }

  /** Stability: of two entries with the same key, the earlier one comes first. */
  lemma SlotStable(keys: seq<nat>, i: nat, j: nat)
    requires i < j < |keys| && keys[i] == keys[j]
    ensures Slot(keys, i) < Slot(keys, j)
  {
    CountKeyPrefix(keys, i, keys[i]);
    CountKeyPrefixMonotone(keys, i + 1, j, keys[i]);
  }

  /** Entries with smaller keys come first. */
  lemma SlotOrdered(keys: seq<nat>, i: nat, j: nat)
    requires i < |keys| && j < |keys| && keys[i] < keys[j]
    ensures Slot(keys, i) < Slot(keys, j)
  {
    BelowMonotone(keys, keys[i] + 1, keys[j]);
  }

  /** No two entries share a position. */
  lemma SlotInjective(keys: seq<nat>, i: nat, j: nat)
    requires i < |keys| && j < |keys| && i != j
    ensures Slot(keys, i) != Slot(keys, j)
  {
    if keys[i] == keys[j] {
      if i < j { SlotStable(keys, i, j); } else { SlotStable(keys, j, i); }
    } else if keys[i] < keys[j] {
      SlotOrdered(keys, i, j);
    } else {
      SlotOrdered(keys, j, i);
    }
  }

  /** What placing entry `i` changes: one more entry with its key in the
      prefix, and a slot no earlier entry occupies. */
  lemma PlaceNext(keys: seq<nat>, i: nat)
    requires i < |keys|
    ensures forall k :: CountKey(keys[..i + 1], k) == CountKey(keys[..i], k) + (if keys[i] == k then 1 else 0)
    ensures forall t :: 0 <= t < i ==> Slot(keys, t) != Slot(keys, i)
  {
    forall k ensures CountKey(keys[..i + 1], k) == CountKey(keys[..i], k) + (if keys[i] == k then 1 else 0) {
      CountKeyPrefix(keys, i, k);
    }
    forall t | 0 <= t < i ensures Slot(keys, t) != Slot(keys, i) {
      SlotInjective(keys, t, i);
    }
  }

  /** The positions `0 .. n - 1` as a set. */
  function Positions(n: nat): (r: set<nat>)
    ensures |r| == n
    ensures forall q: int :: q in r <==> 0 <= q < n
  {
    if n == 0 then {} else Positions(n - 1) + {n - 1}
  }

  lemma {:induction false} SlotImageSize(keys: seq<nat>, j: nat)
    requires j <= |keys|
    ensures |set t: nat | t < j :: Slot(keys, t)| == j
  {
    if j > 0 {
      SlotImageSize(keys, j - 1);
      var before := set t: nat | t < j - 1 :: Slot(keys, t);
      assert (set t: nat | t < j :: Slot(keys, t)) == before + {Slot(keys, j - 1)};
      forall t: nat | t < j - 1 ensures Slot(keys, t) != Slot(keys, j - 1) {
        SlotInjective(keys, t, j - 1);
      }
      assert Slot(keys, j - 1) !in before;
    }
  }

  lemma SubsetSameSize(a: set<nat>, b: set<nat>)
    requires a <= b && |a| == |b|
    ensures a == b
  {
    assert b == a + (b - a);
    assert |b| == |a| + |b - a|;
  }

  /** Every position below the number of entries is the slot of some entry. */
  lemma SlotOnto(keys: seq<nat>, p: nat) returns (i: nat)
    requires p < |keys|
    ensures i < |keys| && Slot(keys, i) == p
  {
    var n := |keys|;
    var image := set t: nat | t < n :: Slot(keys, t);
    SlotImageSize(keys, n);
    SubsetSameSize(image, Positions(n));
    assert p in image;
    i :| i < n && Slot(keys, i) == p;
  }

  /** The entries with key `k`, in input order. */
  function Select<T>(keys: seq<nat>, xs: seq<T>, k: nat): (r: seq<T>)
    requires |keys| == |xs|
    ensures |r| == CountKey(keys, k)
  {
    if keys == [] then []
    else
      Select(keys[..|keys| - 1], xs[..|xs| - 1], k)
      + (if keys[|keys| - 1] == k then [xs[|xs| - 1]] else [])
  }

  /** The entries with key below `m`, in input order. */
  function Keep<T>(keys: seq<nat>, xs: seq<T>, m: nat): (r: seq<T>)
    requires |keys| == |xs|
    ensures |r| == Below(keys, m)
  {
    if keys == [] then []
    else
      Keep(keys[..|keys| - 1], xs[..|xs| - 1], m)
      + (if keys[|keys| - 1] < m then [xs[|xs| - 1]] else [])
  }

  /** The stable grouping of the entries by key: the group of key 0, then the
      group of key 1, ..., up to the group of key `m - 1`. */
  function GroupBy<T>(keys: seq<nat>, xs: seq<T>, m: nat): (r: seq<T>)
    requires |keys| == |xs|
    ensures |r| == Below(keys, m)
  {
    if m == 0 then BelowZero(keys); []
    else
      BelowStep(keys, m - 1);
      GroupBy(keys, xs, m - 1) + Select(keys, xs, m - 1)
  }

  /** Entry `i` is the element of its key's group at its rank among the
      entries with that key. */
  lemma {:induction false} SelectAtRank<T>(keys: seq<nat>, xs: seq<T>, i: nat)
    requires |keys| == |xs| && i < |keys|
    ensures CountKey(keys[..i], keys[i]) < |Select(keys, xs, keys[i])|
    ensures Select(keys, xs, keys[i])[CountKey(keys[..i], keys[i])] == xs[i]
  {
    var n := |keys| - 1;
    var pk, px := keys[..n], xs[..n];
    if i == n {
      assert pk == keys[..i];
    } else {
      SelectAtRank(pk, px, i);
      assert pk[..i] == keys[..i];
    }
  }

  /** Growing the key bound only appends groups: the grouping up to `j` is a
      prefix of the grouping up to `m`. */
  lemma GroupByPrefix<T>(keys: seq<nat>, xs: seq<T>, j: nat, m: nat)
    requires |keys| == |xs| && j <= m
    ensures Below(keys, j) <= |GroupBy(keys, xs, m)|
    ensures GroupBy(keys, xs, m)[..Below(keys, j)] == GroupBy(keys, xs, j)
  {
    var b := Below(keys, j);
    assert GroupBy(keys, xs, j)[..b] == GroupBy(keys, xs, j);
    for t := j to m
      invariant b <= |GroupBy(keys, xs, t)|
      invariant GroupBy(keys, xs, t)[..b] == GroupBy(keys, xs, j)
    {
      var front, group := GroupBy(keys, xs, t), Select(keys, xs, t);
      assert GroupBy(keys, xs, t + 1) == front + group;
      assert (front + group)[..b] == front[..b];
    }
  }

  /** Entry `i` lands at `Slot(keys, i)` of the grouping. */
  lemma GroupByAtSlot<T>(keys: seq<nat>, xs: seq<T>, m: nat, i: nat)
    requires |keys| == |xs| && i < |keys| && keys[i] < m
    ensures Slot(keys, i) < |GroupBy(keys, xs, m)|
    ensures GroupBy(keys, xs, m)[Slot(keys, i)] == xs[i]
  {
    var k := keys[i];
    SelectAtRank(keys, xs, i);
    var rank := CountKey(keys[..i], k);
    GroupBySegment(keys, xs, m, k);
    var whole, lo, hi := GroupBy(keys, xs, m), Below(keys, k), Below(keys, k + 1);
    IndexSegment(whole, lo, hi, rank);
    assert Slot(keys, i) == lo + rank;
    assert whole[lo..hi] == Select(keys, xs, k);
    assert whole[lo + rank] == Select(keys, xs, k)[rank];
  }

  /** Element `rank` of the slice `s[lo..hi]` is element `lo + rank` of `s`. */
  lemma IndexSegment<T>(s: seq<T>, lo: nat, hi: nat, rank: nat)
    requires lo <= hi <= |s| && rank < hi - lo
    ensures s[lo..hi][rank] == s[lo + rank]
  {
  }

  /** The group of key `k` occupies positions `Below(k) .. Below(k + 1)` of
      the grouping. */
  lemma GroupBySegment<T>(keys: seq<nat>, xs: seq<T>, m: nat, k: nat)
    requires |keys| == |xs| && k < m
    ensures Below(keys, k) <= Below(keys, k + 1) <= |GroupBy(keys, xs, m)|
    ensures GroupBy(keys, xs, m)[Below(keys, k)..Below(keys, k + 1)] == Select(keys, xs, k)
  {
    BelowStep(keys, k);
    GroupByPrefix(keys, xs, k + 1, m);
    var front, group := GroupBy(keys, xs, k), Select(keys, xs, k);
    assert GroupBy(keys, xs, k + 1) == front + group;
    SliceOfGroup(GroupBy(keys, xs, m), front, group);
  }

  /** A sequence that starts with `front + group` holds `group` right after
      `front`. */
  lemma SliceOfGroup<T>(whole: seq<T>, front: seq<T>, group: seq<T>)
    requires |front + group| <= |whole| && whole[..|front + group|] == front + group
    ensures whole[|front|..|front| + |group|] == group
  {
    assert whole[|front|..|front| + |group|] == whole[..|front + group|][|front|..];
  }

  /** A sequence holding entry `i` at `Slot(keys, i)` for every `i` is the
      grouping: the slots cover every position. */
  lemma GroupByUnique<T>(keys: seq<nat>, xs: seq<T>, m: nat, out: seq<T>)
    requires |keys| == |xs| == |out| && AllBelow(keys, m)
    requires forall i :: 0 <= i < |keys| ==> out[Slot(keys, i)] == xs[i]
    ensures out == GroupBy(keys, xs, m)
  {
    BelowAll(keys, m);
    forall p | 0 <= p < |out| ensures out[p] == GroupBy(keys, xs, m)[p] {
      var i := SlotOnto(keys, p);
      GroupByAtSlot(keys, xs, m, i);
    }
  }

  lemma {:induction false} KeepNone<T>(keys: seq<nat>, xs: seq<T>)
    requires |keys| == |xs|
    ensures Keep(keys, xs, 0) == []
  {
    if keys != [] {
      KeepNone(keys[..|keys| - 1], xs[..|xs| - 1]);
    }
  }

  lemma {:induction false} KeepAll<T>(keys: seq<nat>, xs: seq<T>, m: nat)
    requires |keys| == |xs| && AllBelow(keys, m)
    ensures Keep(keys, xs, m) == xs
  {
    if keys != [] {
      var n := |keys| - 1;
      KeepAll(keys[..n], xs[..n], m);
      assert xs == xs[..n] + [xs[n]];
    }
  }

  lemma {:induction false} KeepStep<T>(keys: seq<nat>, xs: seq<T>, m: nat)
    requires |keys| == |xs|
    ensures multiset(Keep(keys, xs, m + 1)) == multiset(Keep(keys, xs, m)) + multiset(Select(keys, xs, m))
  {
    if keys != [] {
      KeepStep(keys[..|keys| - 1], xs[..|xs| - 1], m);
    }
  }

  lemma GroupByKeep<T>(keys: seq<nat>, xs: seq<T>, m: nat)
    requires |keys| == |xs|
    ensures multiset(GroupBy(keys, xs, m)) == multiset(Keep(keys, xs, m))
  {
    GroupByKeepZero(keys, xs);
    for j := 0 to m
      invariant multiset(GroupBy(keys, xs, j)) == multiset(Keep(keys, xs, j))
    {
      GroupByKeepStep(keys, xs, j);
    }
  }

  lemma GroupByKeepZero<T>(keys: seq<nat>, xs: seq<T>)
    requires |keys| == |xs|
    ensures multiset(GroupBy(keys, xs, 0)) == multiset(Keep(keys, xs, 0))
  {
    KeepNone(keys, xs);
  }

  lemma GroupByKeepStep<T>(keys: seq<nat>, xs: seq<T>, m: nat)
    requires |keys| == |xs|
    requires multiset(GroupBy(keys, xs, m)) == multiset(Keep(keys, xs, m))
    ensures multiset(GroupBy(keys, xs, m + 1)) == multiset(Keep(keys, xs, m + 1))
  {
    var front, group := GroupBy(keys, xs, m), Select(keys, xs, m);
    assert GroupBy(keys, xs, m + 1) == front + group;
    assert multiset(front + group) == multiset(front) + multiset(group);
    KeepStep(keys, xs, m);
  }

  /** The grouping is a permutation of the entries when every key is below `m`. */
  lemma GroupByPermutation<T>(keys: seq<nat>, xs: seq<T>, m: nat)
    requires |keys| == |xs| && AllBelow(keys, m)
    ensures multiset(GroupBy(keys, xs, m)) == multiset(xs)
  {
    GroupByKeep(keys, xs, m);
    KeepAll(keys, xs, m);
  }
}
