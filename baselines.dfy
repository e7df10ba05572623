/**
 * Baselines: the antenna-pair key of every row, the canonical (smaller
 * antenna first) copies of the antenna columns, and the partition of the
 * rows into groups that share a key.
 */
module Baselines {

  /** One row of the stacked `(row, 2)` baseline array: (antenna1, antenna2). */
  type Key = (int, int)

  /** The baseline array built by stacking two antenna columns side by side. */
  function Stack(a1: seq<int>, a2: seq<int>): (b: seq<Key>)
    requires |a1| == |a2|
    ensures |b| == |a1|
    ensures forall i :: 0 <= i < |b| ==> b[i].0 == a1[i] && b[i].1 == a2[i]
  {
    seq(|a1|, i requires 0 <= i < |a1| => (a1[i], a2[i]))
  }

  function Min(a: int, b: int): int { if b < a then b else a }

  function Max(a: int, b: int): int { if b < a then a else b }

  /** A baseline written with the smaller antenna first. */
  function CanonicalKey(a: int, b: int): (k: Key)
    ensures k.0 <= k.1
  {
    (Min(a, b), Max(a, b))
  }

  /** Two antenna pairs have the same canonical key exactly when they name the same unordered pair. */
  lemma {:induction false} CanonicalKeySameBaseline(a: int, b: int, c: int, d: int)
    ensures CanonicalKey(a, b) == CanonicalKey(c, d) <==> (a == c && b == d) || (a == d && b == c)
  {
  }

  /** The baseline array stacked from the canonical copies of the antenna columns. */
  function CanonicalKeys(a1: seq<int>, a2: seq<int>): (b: seq<Key>)
    requires |a1| == |a2|
    ensures |b| == |a1|
    ensures forall i :: 0 <= i < |b| ==> b[i].0 <= b[i].1 && (b[i] == (a1[i], a2[i]) || b[i] == (a2[i], a1[i]))
  {
    seq(|a1|, i requires 0 <= i < |a1| => CanonicalKey(a1[i], a2[i]))
  }

  /** Writing any rows as their mirror baseline leaves the canonical keys as they were. */
  lemma {:induction false} CanonicalKeysMirrorInvariant(a1: seq<int>, a2: seq<int>, b1: seq<int>, b2: seq<int>)
    requires |a1| == |a2| == |b1| == |b2|
    requires forall i :: 0 <= i < |a1| ==> (b1[i] == a1[i] && b2[i] == a2[i]) || (b1[i] == a2[i] && b2[i] == a1[i])
    ensures CanonicalKeys(a1, a2) == CanonicalKeys(b1, b2)
  {
    forall i | 0 <= i < |a1|
      ensures CanonicalKeys(a1, a2)[i] == CanonicalKeys(b1, b2)[i]
    {
      CanonicalKeySameBaseline(a1[i], a2[i], b1[i], b2[i]);
    }
  }

  /**
   * The copies `ant1`, `ant2` of the antenna columns, with every mirrored
   * row (antenna2 < antenna1) swapped, so that each row reads smaller
   * antenna first. The caller's arrays are read and not changed.
   */
  method CanonicalCopies(antenna1: array<int>, antenna2: array<int>) returns (ant1: array<int>, ant2: array<int>)
    requires antenna1.Length == antenna2.Length
    ensures fresh(ant1) && fresh(ant2)
    ensures ant1.Length == ant2.Length == antenna1.Length
    ensures forall i :: 0 <= i < ant1.Length ==> ant1[i] == Min(antenna1[i], antenna2[i]) && ant2[i] == Max(antenna1[i], antenna2[i])
    ensures Stack(ant1[..], ant2[..]) == CanonicalKeys(antenna1[..], antenna2[..])
  {
    var n := antenna1.Length;
    ant1 := new int[n](i requires 0 <= i < n reads antenna1 => antenna1[i]);
    ant2 := new int[n](i requires 0 <= i < n reads antenna2 => antenna2[i]);
    forall i | 0 <= i < n && antenna2[i] < antenna1[i] {
      ant1[i] := antenna2[i];
    }
    forall i | 0 <= i < n && antenna2[i] < antenna1[i] {
      ant2[i] := antenna1[i];
    }
  }

  /**
   * The rows whose key is `k`, in ascending row order: the rows a boolean
   * mask `keys == k` selects. Every row with key `k` is in it, and nothing else.
   */
  function Group(keys: seq<Key>, k: Key): (g: seq<nat>)
    ensures forall j :: 0 <= j < |g| ==> g[j] < |keys| && keys[g[j]] == k
  {
    if keys == [] then []
    else
      var n := |keys| - 1;
      Group(keys[..n], k) + (if keys[n] == k then [n] else [])
  }

  /** A group lists its rows in ascending row order. */
  lemma {:induction false} GroupAscending(keys: seq<Key>, k: Key)
    ensures forall a, b :: 0 <= a < b < |Group(keys, k)| ==> Group(keys, k)[a] < Group(keys, k)[b]
  {
    if keys != [] {
      var n := |keys| - 1;
      GroupAscending(keys[..n], k);
    }
  }

  /** The group of a prefix of the rows is a prefix of the group. */
  lemma {:induction false} GroupOfPrefix(keys: seq<Key>, k: Key, m: nat)
    requires m <= |keys|
    ensures |Group(keys[..m], k)| <= |Group(keys, k)|
    ensures Group(keys[..m], k) == Group(keys, k)[..|Group(keys[..m], k)|]
    decreases |keys| - m
  {
    if m < |keys| {
      var n := |keys| - 1;
      assert keys[..n][..m] == keys[..m];
      GroupOfPrefix(keys[..n], k, m);
    } else {
      assert keys[..m] == keys;
    }
  }

  /** The position of row `i` within its group: how many earlier rows share its key. */
  function Rank(keys: seq<Key>, i: nat): (r: nat)
    requires i < |keys|
    ensures r < |Group(keys, keys[i])| && Group(keys, keys[i])[r] == i
  {
    var k := keys[i];
    assert keys[..i + 1][..i] == keys[..i];
    assert Group(keys[..i + 1], k) == Group(keys[..i], k) + [i];
    GroupOfPrefix(keys, k, i + 1);
    |Group(keys[..i], k)|
  }

  /** Row `i` lies in exactly one group: the group of its own key. */
  lemma {:induction false} RowInOwnGroupOnly(keys: seq<Key>, i: nat, k: Key)
    requires i < |keys|
    ensures i in Group(keys, k) <==> keys[i] == k
  {
    if keys[i] == k {
      assert Group(keys, k)[Rank(keys, i)] == i;
    }
  }

  /** No earlier row shares the key of row `first`. */
  ghost predicate StartsGroup(keys: seq<Key>, first: nat)
    requires first < |keys|
  {
    forall m :: 0 <= m < first ==> keys[m] != keys[first]
  }

  /** No later row shares the key of row `last`. */
  ghost predicate EndsGroup(keys: seq<Key>, last: nat)
    requires last < |keys|
  {
    forall m :: last < m < |keys| ==> keys[m] != keys[last]
  }

  /** Rows `a` and `b` share a key and no row between them does. */
  ghost predicate Consecutive(keys: seq<Key>, a: nat, b: nat)
    requires a < b < |keys|
  {
    keys[a] == keys[b] && forall m :: a < m < b ==> keys[m] != keys[a]
  }

  /** Entry `t` of a group is the row whose position in the group is `t`. */
  lemma {:induction false} RankInGroup(keys: seq<Key>, k: Key, t: nat)
    requires t < |Group(keys, k)|
    ensures Group(keys, k)[t] < |keys| && Rank(keys, Group(keys, k)[t]) == t
  {
    var g := Group(keys, k);
    GroupAscending(keys, k);
    var r := Rank(keys, g[t]);
  }

  /** Consecutive rows of a key hold consecutive positions of its group. */
  lemma {:induction false} NextInGroup(keys: seq<Key>, i: nat, next: nat)
    requires i < next < |keys| && Consecutive(keys, i, next)
    ensures Rank(keys, i) + 1 < |Group(keys, keys[i])|
    ensures Group(keys, keys[i])[Rank(keys, i) + 1] == next
    ensures Rank(keys, next) == Rank(keys, i) + 1
  {
    var g, j := Group(keys, keys[i]), Rank(keys, i);
    var t := Rank(keys, next);
    GroupAscending(keys, keys[i]);
    assert g[t] == next && j < t;
    assert i < g[j + 1] && keys[g[j + 1]] == keys[i];
    assert next <= g[j + 1];
  }

  /** Row `i` is the first entry of its group exactly when no earlier row shares its key. */
  lemma {:induction false} FirstInGroup(keys: seq<Key>, i: nat)
    requires i < |keys|
    ensures Rank(keys, i) == 0 <==> StartsGroup(keys, i)
  {
    var g, j := Group(keys, keys[i]), Rank(keys, i);
    GroupAscending(keys, keys[i]);
    if j > 0 {
      assert g[0] < i && keys[g[0]] == keys[i];
    } else {
      forall m | 0 <= m < i ensures keys[m] != keys[i] {
        if keys[m] == keys[i] {
          var r := Rank(keys, m);
        }
      }
    }
  }

  /** Row `i` is the last entry of its group exactly when no later row shares its key. */
  lemma {:induction false} LastInGroup(keys: seq<Key>, i: nat)
    requires i < |keys|
    ensures Rank(keys, i) == |Group(keys, keys[i])| - 1 <==> EndsGroup(keys, i)
  {
    var g, j := Group(keys, keys[i]), Rank(keys, i);
    GroupAscending(keys, keys[i]);
    if j < |g| - 1 {
      assert i < g[j + 1] && keys[g[j + 1]] == keys[i];
    } else {
      forall m | i < m < |keys| ensures keys[m] != keys[i] {
        if keys[m] == keys[i] {
          var r := Rank(keys, m);
        }
      }
    }
  }

  /** Some other row shares the key of row `i`. */
  ghost predicate HasPartner(keys: seq<Key>, i: nat)
    requires i < |keys|
  {
    exists m :: 0 <= m < |keys| && m != i && keys[m] == keys[i]
  }

  /** The group of row `i` holds that row alone exactly when no other row shares its key. */
  lemma {:induction false} SingletonGroup(keys: seq<Key>, i: nat)
    requires i < |keys|
    ensures |Group(keys, keys[i])| == 1 <==> !HasPartner(keys, i)
  {
    FirstInGroup(keys, i);
    LastInGroup(keys, i);
  }

  /** The group of row `i` holds two rows or more. */
  predicate Paired(keys: seq<Key>, i: nat)
    requires i < |keys|
  {
    2 <= |Group(keys, keys[i])|
  }

  /** Row `i` shares its key with another row exactly when its group holds two rows or more. */
  lemma {:induction false} PartnerGroupSize(keys: seq<Key>, i: nat)
    requires i < |keys|
    ensures HasPartner(keys, i) <==> Paired(keys, i)
  {
    SingletonGroup(keys, i);
    assert Group(keys, keys[i])[Rank(keys, i)] == i;
  }

  /**
   * The distinct baselines in order of first occurrence: the `ubl` array of
   * `np.unique(baselines, axis=0)`, without numpy's sorting of the keys.
   */
  method UniqueKeys(baselines: seq<Key>) returns (ubl: seq<Key>)
    ensures forall k :: k in ubl <==> k in baselines
    ensures forall a, b :: 0 <= a < b < |ubl| ==> ubl[a] != ubl[b]
  {
    ubl := [];
    var i := 0;
    while i < |baselines|
      invariant i <= |baselines|
      invariant forall k :: k in ubl <==> k in baselines[..i]
      invariant forall a, b :: 0 <= a < b < |ubl| ==> ubl[a] != ubl[b]
    {
      if baselines[i] !in ubl {
        ubl := ubl + [baselines[i]];
      }
      i := i + 1;
    }
    assert baselines[..i] == baselines;
  }
}
