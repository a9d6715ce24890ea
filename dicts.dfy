/**
 * Python's dict (and OrderedDict) as a value: a finite map together with the
 * order in which its keys were first inserted, which is the order Python
 * iterates a dict in. Also the sequence helpers that order depends on.
 */
module Dicts {

  /** No element occurs twice. */
  predicate NoDup<T(==,!new)>(s: seq<T>) {
    forall i, j :: 0 <= i < j < |s| ==> s[i] != s[j]
  }

  /** The prefix one longer is the prefix and the next element. */
  lemma PrefixSnoc<T>(s: seq<T>, j: nat)
    requires j < |s|
    ensures s[..j + 1] == s[..j] + [s[j]]
  {
  }

  /** The distinct elements of s, each at the position of its first occurrence. */
  function Distinct<T(==,!new)>(s: seq<T>): (r: seq<T>)
    ensures forall x :: x in r <==> x in s
    ensures |r| <= |s|
  {
    if s == [] then []
    else
      var d := Distinct(s[..|s| - 1]);
      if s[|s| - 1] in d then d else d + [s[|s| - 1]]
  }

  /** The distinct elements have no duplicates. */
  lemma {:induction false} DistinctNoDup<T(!new)>(s: seq<T>)
    ensures NoDup(Distinct(s))
  {
    if s != [] {
      DistinctNoDup(s[..|s| - 1]);
    }
  }

  /** The position of the first occurrence of x in s. */
  function FirstIndex<T(==)>(s: seq<T>, x: T): (i: nat)
    requires x in s
    ensures i < |s| && s[i] == x && forall k :: 0 <= k < i ==> s[k] != x
  {
    if s[0] == x then 0 else 1 + FirstIndex(s[1..], x)
  }

  /** Any position holding x with no x before it is the first occurrence. */
  lemma FirstIndexUnique<T>(s: seq<T>, x: T, i: nat)
    requires i < |s| && s[i] == x && forall k :: 0 <= k < i ==> s[k] != x
    ensures FirstIndex(s, x) == i
  {
  }

  /** The distinct elements come in the order of their first occurrences. */
  lemma {:induction false} DistinctFirstIndexOrder<T(!new)>(s: seq<T>, j1: nat, j2: nat)
    requires j1 < j2 < |Distinct(s)|
    ensures Distinct(s)[j1] in s && Distinct(s)[j2] in s
    ensures FirstIndex(s, Distinct(s)[j1]) < FirstIndex(s, Distinct(s)[j2])
  {
    var init := s[..|s| - 1];
    var d := Distinct(init);
    assert Distinct(s)[..|d|] == d;
    DistinctOld(s, j1);
    if j2 < |d| {
      DistinctOld(s, j2);
      DistinctFirstIndexOrder(init, j1, j2);
    } else {
      DistinctNew(s, j2);
    }
  }

  /** An element of the distinct ones that was already among the earlier elements keeps its first position. */
  lemma DistinctOld<T(!new)>(s: seq<T>, j: nat)
    requires s != [] && j < |Distinct(s[..|s| - 1])| && j < |Distinct(s)|
    ensures Distinct(s)[j] == Distinct(s[..|s| - 1])[j] && Distinct(s)[j] in s[..|s| - 1]
    ensures FirstIndex(s, Distinct(s)[j]) == FirstIndex(s[..|s| - 1], Distinct(s)[j])
  {
    var init := s[..|s| - 1];
    DistinctKeepsOld(s, j);
    var x := Distinct(init)[j];
    assert x in init;
    FirstIndexPrefix(s, |s| - 1, x);
  }

  /** One more element leaves the earlier distinct elements where they were. */
  lemma DistinctKeepsOld<T(!new)>(s: seq<T>, j: nat)
    requires s != [] && j < |Distinct(s[..|s| - 1])|
    ensures j < |Distinct(s)| && Distinct(s)[j] == Distinct(s[..|s| - 1])[j]
  {
  }

  /** An element of a prefix first occurs in the whole sequence where it first occurs in the prefix. */
  lemma FirstIndexPrefix<T>(s: seq<T>, k: nat, x: T)
    requires k <= |s| && x in s[..k]
    ensures x in s && FirstIndex(s, x) == FirstIndex(s[..k], x)
  {
    var i := FirstIndex(s[..k], x);
    assert s[i] == x && forall m :: 0 <= m < i ==> s[m] == s[..k][m];
    FirstIndexUnique(s, x, i);
  }

  /** The element a last step adds to the distinct ones first occurs at that step. */
  lemma DistinctNew<T(!new)>(s: seq<T>, j: nat)
    requires s != [] && |Distinct(s[..|s| - 1])| <= j < |Distinct(s)|
    ensures Distinct(s)[j] == s[|s| - 1] && s[|s| - 1] !in s[..|s| - 1]
    ensures FirstIndex(s, Distinct(s)[j]) == |s| - 1
  {
    var init := s[..|s| - 1];
    assert s[|s| - 1] !in Distinct(init);
    FirstIndexUnique(s, s[|s| - 1], |s| - 1);
  }

  /** a is b with some elements left out, the rest in their order. */
  predicate IsSubsequence<T(==)>(a: seq<T>, b: seq<T>)
    decreases |b|
  {
    if a == [] then true
    else if b == [] then false
    else if a[0] == b[0] then IsSubsequence(a[1..], b[1..])
    else IsSubsequence(a, b[1..])
  }

  /** An element in front of b may be skipped. */
  lemma {:induction false} SubsequenceSkip<T>(a: seq<T>, x: T, b: seq<T>)
    requires IsSubsequence(a, b)
    ensures IsSubsequence(a, [x] + b)
    decreases |a| + |b|, 1
  {
    assert ([x] + b)[1..] == b;
    if a != [] && a[0] == x {
      SubsequenceTail(a, b);
    }
  }

  lemma {:induction false} SubsequenceTail<T>(a: seq<T>, b: seq<T>)
    requires a != [] && IsSubsequence(a, b)
    ensures IsSubsequence(a[1..], b)
    decreases |a| + |b|, 0
  {
    assert b == [b[0]] + b[1..];
    if a[0] == b[0] {
      SubsequenceSkip(a[1..], b[0], b[1..]);
    } else {
      SubsequenceTail(a, b[1..]);
      SubsequenceSkip(a[1..], b[0], b[1..]);
    }
  }

  /** Keeping or dropping the first element of b keeps a subsequence of b. */
  lemma SubsequenceCons<T>(keep: bool, rest: seq<T>, b: seq<T>)
    requires b != [] && IsSubsequence(rest, b[1..])
    ensures IsSubsequence((if keep then [b[0]] else []) + rest, b)
  {
    assert b == [b[0]] + b[1..];
    if keep {
      assert ([b[0]] + rest)[1..] == rest;
    } else {
      assert [] + rest == rest;
      SubsequenceSkip(rest, b[0], b[1..]);
    }
  }

  /** Every element of a subsequence occurs in the sequence. */
  lemma {:induction false} SubsequenceMembers<T>(a: seq<T>, b: seq<T>, x: T)
    requires IsSubsequence(a, b) && x in a
    ensures x in b
    decreases |b|
  {
    if a[0] == b[0] {
      if x != a[0] {
        assert x in a[1..];
        SubsequenceMembers(a[1..], b[1..], x);
      }
    } else {
      SubsequenceMembers(a, b[1..], x);
    }
  }

  /** Without duplicates, every element occurs at most once. */
  lemma {:induction false} NoDupCount<T(!new)>(s: seq<T>, x: T)
    requires NoDup(s)
    ensures multiset(s)[x] <= 1
  {
    if s != [] {
      assert s == [s[0]] + s[1..];
      assert NoDup(s[1..]) by {
        forall i, j | 0 <= i < j < |s[1..]| ensures s[1..][i] != s[1..][j] {
          assert s[1..][i] == s[i + 1] && s[1..][j] == s[j + 1];
        }
      }
      NoDupCount(s[1..], x);
      if x == s[0] {
        assert x !in s[1..] by {
          forall k | 0 <= k < |s[1..]| ensures s[1..][k] != x {
            assert s[1..][k] == s[k + 1];
          }
        }
      }
    }
  }

  /** A rearrangement of a sequence without duplicates has none either. */
  lemma NoDupPermutation<T(!new)>(a: seq<T>, b: seq<T>)
    requires multiset(a) == multiset(b) && NoDup(a)
    ensures NoDup(b)
  {
    forall i, j | 0 <= i < j < |b| ensures b[i] != b[j] {
      if b[i] == b[j] {
        assert b == b[..j] + b[j..];
        assert b[i] in b[..j] && b[j] in b[j..];
        assert multiset(b)[b[i]] == multiset(b[..j])[b[i]] + multiset(b[j..])[b[i]];
        NoDupCount(a, b[i]);
        assert false;
      }
    }
  }

  datatype Dict<K(==,!new), V> = Dict(keys: seq<K>, vals: map<K, V>)

  /** The key order lists each key of the map exactly once. */
  ghost predicate Valid<K(!new), V>(d: Dict<K, V>) {
    NoDup(d.keys) && forall k :: k in d.vals <==> k in d.keys
  }

  function Empty<K(==,!new), V>(): (d: Dict<K, V>)
    ensures Valid(d) && d.keys == [] && d.vals == map[]
  {
    Dict([], map[])
  }

  /** d[k] = v: an existing key keeps its position, a new key goes last. */
  function Put<K(==,!new), V>(d: Dict<K, V>, k: K, v: V): (r: Dict<K, V>)
    requires Valid(d)
    ensures Valid(r)
    ensures r.vals == d.vals[k := v]
    ensures r.keys == if k in d.vals then d.keys else d.keys + [k]
  {
    if k in d.vals then Dict(d.keys, d.vals[k := v]) else Dict(d.keys + [k], d.vals[k := v])
  }

  /** The keys of a list of pairs, in order. */
  function Firsts<K, V>(ps: seq<(K, V)>): (r: seq<K>)
    ensures |r| == |ps| && forall i :: 0 <= i < |ps| ==> r[i] == ps[i].0
  {
    seq(|ps|, i requires 0 <= i < |ps| => ps[i].0)
  }

  /** The distinct keys of the pairs gain the last key unless an earlier pair has it. */
  lemma DistinctFirstsSnoc<K(!new), V>(ps: seq<(K, V)>)
    requires ps != []
    ensures var d := Distinct(Firsts(ps[..|ps| - 1]));
            Distinct(Firsts(ps)) == if ps[|ps| - 1].0 in d then d else d + [ps[|ps| - 1].0]
  {
    assert Firsts(ps)[..|ps| - 1] == Firsts(ps[..|ps| - 1]);
  }

  /** (k, v) is the last pair of ps whose key is k. */
  ghost predicate IsLastValue<K(!new), V>(ps: seq<(K, V)>, k: K, v: V) {
    exists i :: 0 <= i < |ps| && ps[i] == (k, v) && forall j :: i < j < |ps| ==> ps[j].0 != k
  }

  /**
   * dict(ps): keys in order of first occurrence, and for a repeated key the
   * value of its last pair.
   */
  function FromPairs<K(==,!new), V>(ps: seq<(K, V)>): (r: Dict<K, V>)
    ensures r.keys == Distinct(Firsts(ps))
    ensures forall k :: k in r.vals <==> k in r.keys
    ensures forall k :: k in r.vals ==> IsLastValue(ps, k, r.vals[k])
  {
    if ps == [] then Empty()
    else
      var init := ps[..|ps| - 1];
      var prev := FromPairs(init);
      var last := ps[|ps| - 1];
      DistinctFirstsSnoc(ps);
      DistinctNoDup(Firsts(init));
      var r := Put(prev, last.0, last.1);
      LastValueSnoc(init, last, prev.vals, r.vals);
      assert init + [last] == ps;
      r
  }

  /** dict(ps) holds exactly the keys of the pairs. */
  lemma FromPairsMembers<K(!new), V>(ps: seq<(K, V)>, k: K)
    ensures k in FromPairs(ps).vals <==> exists i :: 0 <= i < |ps| && ps[i].0 == k
  {
    FromPairsValid(ps);
    if exists i :: 0 <= i < |ps| && ps[i].0 == k {
      var i :| 0 <= i < |ps| && ps[i].0 == k;
      assert Firsts(ps)[i] == k;
    }
    if k in FromPairs(ps).vals {
      var i :| 0 <= i < |ps| && Firsts(ps)[i] == k;
    }
  }

  /** dict(ps) lists each of its keys once. */
  lemma FromPairsValid<K(!new), V>(ps: seq<(K, V)>)
    ensures Valid(FromPairs(ps))
  {
    DistinctNoDup(Firsts(ps));
  }

  /** Appending a pair makes it the last value of its key and leaves other keys' last values. */
  lemma LastValueSnoc<K(!new), V>(init: seq<(K, V)>, last: (K, V), m: map<K, V>, m': map<K, V>)
    requires forall k :: k in m ==> IsLastValue(init, k, m[k])
    requires m' == m[last.0 := last.1]
    ensures forall k :: k in m' ==> IsLastValue(init + [last], k, m'[k])
  {
    var ps := init + [last];
    forall k | k in m' ensures IsLastValue(ps, k, m'[k]) {
      if k == last.0 {
        assert ps[|ps| - 1] == (k, last.1);
      } else {
        var i :| 0 <= i < |init| && init[i] == (k, m[k]) && forall j :: i < j < |init| ==> init[j].0 != k;
        assert ps[i] == (k, m[k]);
      }
    }
  }

  /** A property of every pair of ps holds of every entry of dict(ps). */
  lemma FromPairsValues<K(!new), V>(ps: seq<(K, V)>, P: ((K, V)) -> bool)
    requires forall i :: 0 <= i < |ps| ==> P(ps[i])
    ensures forall k :: k in FromPairs(ps).vals ==> P((k, FromPairs(ps).vals[k]))
  {
    var d := FromPairs(ps);
    forall k | k in d.vals ensures P((k, d.vals[k])) {
      assert IsLastValue(ps, k, d.vals[k]);
      var i :| 0 <= i < |ps| && ps[i] == (k, d.vals[k]) && forall j :: i < j < |ps| ==> ps[j].0 != k;
    }
  }

  /** The items of a dict in iteration order, d.items(). */
  function Items<K(==,!new), V>(d: Dict<K, V>): (r: seq<(K, V)>)
    requires Valid(d)
    ensures |r| == |d.keys|
    ensures forall i :: 0 <= i < |r| ==> r[i] == (d.keys[i], d.vals[d.keys[i]])
  {
    seq(|d.keys|, i requires 0 <= i < |d.keys| => (d.keys[i], d.vals[d.keys[i]]))
  }

  /** A rearrangement of a dict's items has each key once. */
  lemma ItemsPermutationKeys<K(!new), V(!new)>(d: Dict<K, V>, s: seq<(K, V)>)
    requires Valid(d) && multiset(s) == multiset(Items(d))
    ensures NoDup(Firsts(s))
    ensures forall i :: 0 <= i < |s| ==> s[i].0 in d.vals && s[i].1 == d.vals[s[i].0]
    ensures forall k :: k in Firsts(s) <==> k in d.keys
  {
    var items := Items(d);
    assert NoDup(items) by {
      forall i, j | 0 <= i < j < |items| ensures items[i] != items[j] {
        assert items[i].0 == d.keys[i] && items[j].0 == d.keys[j];
      }
    }
    NoDupPermutation(items, s);
    forall i | 0 <= i < |s| ensures s[i].0 in d.vals && s[i].1 == d.vals[s[i].0] {
      assert s[i] in multiset(items);
      var k :| 0 <= k < |items| && items[k] == s[i];
    }
    forall i, j | 0 <= i < j < |s| ensures Firsts(s)[i] != Firsts(s)[j] {
      assert s[i] != s[j];
      assert s[i].1 == d.vals[s[i].0] && s[j].1 == d.vals[s[j].0];
    }
    forall k ensures k in Firsts(s) <==> k in d.keys {
      if k in Firsts(s) {
        var i :| 0 <= i < |s| && Firsts(s)[i] == k;
      }
      if k in d.keys {
        var i :| 0 <= i < |d.keys| && d.keys[i] == k;
        assert items[i] in multiset(s);
        var j :| 0 <= j < |s| && s[j] == items[i];
        assert Firsts(s)[j] == k;
      }
    }
  }
}
