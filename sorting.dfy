/**
 * Python's sorted(): a stable sort by a "goes no later than" relation. An
 * element is inserted in front of the first element it may precede, so
 * elements that compare equal keep their input order, as Python guarantees
 * (also with reverse=True).
 */
module Sorting {

  /** le is total and transitive: the shape Python's key comparisons have. */
  ghost predicate TotalPreorder<T(!new)>(le: (T, T) -> bool) {
    && (forall a, b :: le(a, b) || le(b, a))
    && (forall a, b, c :: le(a, b) && le(b, c) ==> le(a, c))
  }

  predicate SortedBy<T>(s: seq<T>, le: (T, T) -> bool) {
    forall i, j :: 0 <= i < j < |s| ==> le(s[i], s[j])
  }

  /** Insert x into s in front of the first element it may precede. */
  function Insert<T(!new)>(x: T, s: seq<T>, le: (T, T) -> bool): (r: seq<T>)
    ensures multiset(r) == multiset(s) + multiset{x}
    ensures TotalPreorder(le) && SortedBy(s, le) ==> SortedBy(r, le)
  {
    if s == [] then [x]
    else if le(x, s[0]) then [x] + s
    else
      var rest := Insert(x, s[1..], le);
      assert s == [s[0]] + s[1..];
      assert TotalPreorder(le) && SortedBy(s, le) ==> SortedBy([s[0]] + rest, le) by {
        if TotalPreorder(le) && SortedBy(s, le) {
          InsertBehindHead(x, s, rest, le);
        }
      }
      [s[0]] + rest
  }

  /**
   * When x goes after the head of a sorted s, the head followed by x inserted
   * into the tail is still sorted.
   */
  lemma InsertBehindHead<T(!new)>(x: T, s: seq<T>, rest: seq<T>, le: (T, T) -> bool)
    requires TotalPreorder(le) && SortedBy(s, le) && s != [] && !le(x, s[0])
    requires multiset(rest) == multiset(s[1..]) + multiset{x} && SortedBy(rest, le)
    ensures SortedBy([s[0]] + rest, le)
  {
    forall y | y in multiset(rest) ensures le(s[0], y) {
      if y != x {
        assert y in multiset(s[1..]);
        assert y in s[1..];
      }
    }
    forall j | 0 < j < |[s[0]] + rest| ensures le(([s[0]] + rest)[0], ([s[0]] + rest)[j]) {
      assert rest[j - 1] in multiset(rest);
    }
  }

  /** sorted(s): a permutation of s that is ordered by le. */
  function Sort<T(!new)>(s: seq<T>, le: (T, T) -> bool): (r: seq<T>)
    ensures multiset(r) == multiset(s)
    ensures TotalPreorder(le) ==> SortedBy(r, le)
  {
    if s == [] then []
    else
      assert s == [s[0]] + s[1..];
      Insert(s[0], Sort(s[1..], le), le)
  }

  /** The elements of s that compare equal to x, in their order in s. */
  function Equivalents<T>(s: seq<T>, x: T, le: (T, T) -> bool): seq<T> {
    if s == [] then []
    else (if le(x, s[0]) && le(s[0], x) then [s[0]] else []) + Equivalents(s[1..], x, le)
  }

  /**
   * Inserting y puts it in front of every element equal to it, so among the
   * elements equal to any x, y comes first and the others keep their order.
   */
  lemma {:induction false} InsertEquivalents<T(!new)>(y: T, s: seq<T>, x: T, le: (T, T) -> bool)
    requires TotalPreorder(le)
    ensures Equivalents(Insert(y, s, le), x, le) ==
              (if le(x, y) && le(y, x) then [y] else []) + Equivalents(s, x, le)
  {
    if s == [] {
    } else if le(y, s[0]) {
      assert ([y] + s)[1..] == s;
    } else {
      var rest := Insert(y, s[1..], le);
      InsertEquivalents(y, s[1..], x, le);
      NotBothEquivalent(x, y, s[0], le);
      EquivalentsBehindHead(y, s, rest, x, le);
    }
  }

  /** Two elements that compare equal to x cannot be in strictly increasing order. */
  lemma NotBothEquivalent<T(!new)>(x: T, y: T, z: T, le: (T, T) -> bool)
    requires TotalPreorder(le) && !le(y, z)
    ensures !(le(x, y) && le(y, x) && le(x, z) && le(z, x))
  {
  }

  /**
   * With the head kept in front and y inserted behind it, the elements equal
   * to x are y's share followed by those of s, when y and the head are not
   * both equal to x.
   */
  lemma EquivalentsBehindHead<T>(y: T, s: seq<T>, rest: seq<T>, x: T, le: (T, T) -> bool)
    requires s != [] && !(le(x, y) && le(y, x) && le(x, s[0]) && le(s[0], x))
    requires Equivalents(rest, x, le) == (if le(x, y) && le(y, x) then [y] else []) + Equivalents(s[1..], x, le)
    ensures Equivalents([s[0]] + rest, x, le) == (if le(x, y) && le(y, x) then [y] else []) + Equivalents(s, x, le)
  {
    assert ([s[0]] + rest)[1..] == rest;
    var hy := if le(x, y) && le(y, x) then [y] else [];
    var h0 := if le(x, s[0]) && le(s[0], x) then [s[0]] else [];
    assert Equivalents([s[0]] + rest, x, le) == h0 + Equivalents(rest, x, le);
    assert Equivalents(s, x, le) == h0 + Equivalents(s[1..], x, le);
    if h0 == [] {
      assert h0 + Equivalents(rest, x, le) == Equivalents(rest, x, le);
      assert h0 + Equivalents(s[1..], x, le) == Equivalents(s[1..], x, le);
    } else {
      assert hy == [];
      assert Equivalents(rest, x, le) == Equivalents(s[1..], x, le);
    }
  }

  /** sorted() is stable: the elements that compare equal to any x keep their input order. */
  lemma {:induction false} SortStable<T(!new)>(s: seq<T>, x: T, le: (T, T) -> bool)
    requires TotalPreorder(le)
    ensures Equivalents(Sort(s, le), x, le) == Equivalents(s, x, le)
  {
    if s != [] {
      SortStable(s[1..], x, le);
      InsertEquivalents(s[0], Sort(s[1..], le), x, le);
    }
  }
}
