/**
 * A Python `dict`: a map together with the order in which its keys were first
 * inserted. Assigning to a present key keeps its position; `del` removes the
 * key from the order; iteration follows the order.
 */
module Dicts {

  datatype Dict<K, V> = Dict(keys: seq<K>, vals: map<K, V>)

  predicate Distinct<K(==)>(s: seq<K>)
  {
    forall i, j :: 0 <= i < j < |s| ==> s[i] != s[j]
  }

  /** The order lists every key of the map exactly once. */
  ghost predicate Valid<K(!new), V>(d: Dict<K, V>)
  {
    Distinct(d.keys) && forall k :: k in d.vals <==> k in d.keys
  }

  function Empty<K(==, !new), V>(): (d: Dict<K, V>)
    ensures Valid(d) && d.keys == [] && d.vals == map[]
  {
    Dict([], map[])
  }

  /** `d[k] = v`: overwrite in place, or append `k` to the order when it is new. */
  function Put<K(==, !new), V>(d: Dict<K, V>, k: K, v: V): (r: Dict<K, V>)
    requires Valid(d)
    ensures Valid(r)
    ensures r.vals == d.vals[k := v]
    ensures k in d.vals ==> r.keys == d.keys
    ensures k !in d.vals ==> r.keys == d.keys + [k]
  {
    if k in d.vals then Dict(d.keys, d.vals[k := v])
    else Dict(d.keys + [k], d.vals[k := v])
  }

  /** The elements of `s` that are not in `drop`, in their order. */
  function FilterOut<K(==, !new)>(s: seq<K>, drop: set<K>): (r: seq<K>)
    ensures forall x :: x in r <==> x in s && x !in drop
    ensures Distinct(s) ==> Distinct(r)
    decreases |s|
  {
    if s == [] then []
    else if s[0] in drop then FilterOut(s[1..], drop)
    else
      var rest := FilterOut(s[1..], drop);
      assert forall x :: x in rest ==> x in s[1..];
      [s[0]] + rest
  }

  lemma {:induction false} FilterOutTwice<K(!new)>(s: seq<K>, a: set<K>, b: set<K>)
    ensures FilterOut(FilterOut(s, a), b) == FilterOut(s, a + b)
    decreases |s|
  {
    if s != [] {
      FilterOutTwice(s[1..], a, b);
      if s[0] !in a {
        assert FilterOut(s, a) == [s[0]] + FilterOut(s[1..], a);
        assert FilterOut(s, a)[1..] == FilterOut(s[1..], a);
      }
    }
  }

  lemma {:induction false} FilterOutNothing<K(!new)>(s: seq<K>, drop: set<K>)
    requires forall x :: x in s ==> x !in drop
    ensures FilterOut(s, drop) == s
    decreases |s|
  {
    if s != [] {
      assert s[0] in s;
      FilterOutNothing(s[1..], drop);
    }
  }

  /** `del d[k]` for every `k` of `drop` that is present. */
  function Without<K(==, !new), V>(d: Dict<K, V>, drop: set<K>): (r: Dict<K, V>)
    requires Valid(d)
    ensures Valid(r)
  {
    Dict(FilterOut(d.keys, drop), d.vals - drop)
  }

  /** Deleting in two rounds is deleting the union once. */
  lemma WithoutTwice<K(!new), V>(d: Dict<K, V>, a: set<K>, b: set<K>)
    requires Valid(d)
    ensures Without(Without(d, a), b) == Without(d, a + b)
  {
    FilterOutTwice(d.keys, a, b);
    assert (d.vals - a) - b == d.vals - (a + b);
  }

  /** Deleting keys that are absent leaves the dict as it was. */
  lemma WithoutAbsent<K(!new), V>(d: Dict<K, V>, drop: set<K>)
    requires Valid(d)
    requires forall k :: k in drop ==> k !in d.vals
    ensures Without(d, drop) == d
  {
    FilterOutNothing(d.keys, drop);
    assert d.vals - drop == d.vals;
  }

  /** The keys of `s` in the order of their first occurrence. */
  function Dedup<K(==, !new)>(s: seq<K>): (r: seq<K>)
    ensures Distinct(r)
    ensures forall x :: x in r <==> x in s
    decreases |s|
  {
    if s == [] then []
    else
      var p := Dedup(s[..|s| - 1]);
      assert forall x :: x in s <==> x in s[..|s| - 1] || x == s[|s| - 1];
      if s[|s| - 1] in p then p else p + [s[|s| - 1]]
  }

  /** A sequence without repetitions is its own first-occurrence order. */
  lemma {:induction false} DedupDistinct<K(!new)>(s: seq<K>)
    requires Distinct(s)
    ensures Dedup(s) == s
    decreases |s|
  {
    if s != [] {
      DedupDistinct(s[..|s| - 1]);
      assert s[|s| - 1] !in s[..|s| - 1];
      assert s[..|s| - 1] + [s[|s| - 1]] == s;
    }
  }

  function Firsts<K(==, !new), V>(pairs: seq<(K, V)>): (r: seq<K>)
    ensures |r| == |pairs| && forall i :: 0 <= i < |pairs| ==> r[i] == pairs[i].0
  {
    seq(|pairs|, i requires 0 <= i < |pairs| => pairs[i].0)
  }

  /** `{k: v for k, v in pairs}`: the pairs are stored one after another. */
  function FromPairs<K(==, !new), V>(pairs: seq<(K, V)>): (r: Dict<K, V>)
    ensures Valid(r)
    ensures forall k :: k in r.vals <==> k in Firsts(pairs)
    decreases |pairs|
  {
    if pairs == [] then Empty()
    else
      var last := pairs[|pairs| - 1];
      assert Firsts(pairs) == Firsts(pairs[..|pairs| - 1]) + [last.0];
      Put(FromPairs(pairs[..|pairs| - 1]), last.0, last.1)
  }

  /** `pairs[i]` is the last pair whose key is `pairs[i].0`. */
  predicate LastOfKey<K(==, !new), V>(pairs: seq<(K, V)>, i: int)
    requires 0 <= i < |pairs|
  {
    forall j :: i < j < |pairs| ==> pairs[j].0 != pairs[i].0
  }

  /** Building a dict from pairs lists its keys in the order of their first occurrence. */
  lemma {:induction false} FromPairsOrder<K(!new), V>(pairs: seq<(K, V)>)
    ensures FromPairs(pairs).keys == Dedup(Firsts(pairs))
    decreases |pairs|
  {
    if pairs != [] {
      var n := |pairs| - 1;
      FromPairsOrder(pairs[..n]);
      assert Firsts(pairs)[..n] == Firsts(pairs[..n]);
    }
  }

  /**
   * Building a dict from pairs keeps, for each key, the value of its LAST pair:
   * a later pair with the same key overwrites an earlier one.
   */
  lemma {:induction false} FromPairsLastWins<K(!new), V>(pairs: seq<(K, V)>)
    ensures forall i :: 0 <= i < |pairs| && LastOfKey(pairs, i) ==>
              FromPairs(pairs).vals[pairs[i].0] == pairs[i].1
    decreases |pairs|
  {
    if pairs != [] {
      var n := |pairs| - 1;
      var init := pairs[..n];
      FromPairsLastWins(init);
      forall i | 0 <= i < |pairs| && LastOfKey(pairs, i)
        ensures FromPairs(pairs).vals[pairs[i].0] == pairs[i].1
      {
        if i < n {
          assert LastOfKey(init, i);
          assert pairs[n].0 != pairs[i].0;
        }
      }
    }
  }

  /** A concatenation with a non-empty right part, split at its last element. */
  lemma SplitLast<K>(a: seq<K>, b: seq<K>)
    requires |b| > 0
    ensures a + b == (a + b[..|b| - 1]) + [b[|b| - 1]]
  {
    assert b == b[..|b| - 1] + [b[|b| - 1]];
  }

  /** One more element is new to the order or already listed. */
  lemma DedupSnoc<K(!new)>(s: seq<K>, x: K)
    ensures Dedup(s + [x]) == if x in Dedup(s) then Dedup(s) else Dedup(s) + [x]
  {
    var t := s + [x];
    assert t[..|t| - 1] == s;
  }

  /** Removing repetitions first changes nothing about the first-occurrence order of a longer sequence. */
  lemma {:induction false} DedupAfterDedup<K(!new)>(a: seq<K>, b: seq<K>)
    ensures Dedup(Dedup(a) + b) == Dedup(a + b)
    decreases |b|
  {
    if b == [] {
      assert Dedup(a) + b == Dedup(a);
      assert a + b == a;
      DedupDistinct(Dedup(a));
    } else {
      var n := |b| - 1;
      var init, x := b[..n], b[n];
      DedupAfterDedup(a, init);
      SplitLast(Dedup(a), b);
      SplitLast(a, b);
      DedupSnoc(Dedup(a) + init, x);
      DedupSnoc(a + init, x);
    }
  }
}
