/**
 * Python's `list.sort()` and `sorted()` on `str` keys, as a stable
 * insertion sort, with the facts that make its result unique.
 */
module Sorting {
  import opened Text

  /** `s` is in ascending order of `key`. */
  predicate SortedBy<T>(s: seq<T>, key: T -> string) {
    forall i, j :: 0 <= i < j < |s| ==> LessEq(key(s[i]), key(s[j]))
  }

  /** `s` is in strictly ascending order of `key`. */
  predicate StrictlySortedBy<T>(s: seq<T>, key: T -> string) {
    forall i, j :: 0 <= i < j < |s| ==> Less(key(s[i]), key(s[j]))
  }

  /** No two different elements of `m` have the same key. */
  ghost predicate KeyInjective<T>(m: multiset<T>, key: T -> string) {
    forall x, y :: x in m && y in m && key(x) == key(y) ==> x == y
  }

  lemma SortedPrepend<T>(x: T, s: seq<T>, key: T -> string)
    requires SortedBy(s, key)
    requires s != [] ==> LessEq(key(x), key(s[0]))
    ensures SortedBy([x] + s, key)
  {
    var r := [x] + s;
    forall i, j | 0 <= i < j < |r|
      ensures LessEq(key(r[i]), key(r[j]))
    {
      if i == 0 {
        LessEqTotalOrder(key(x), key(s[0]), key(s[j - 1]));
      }
    }
  }

  /** Inserts `x` after every element whose key is not greater than its own,
      which keeps equal keys in their original order. */
  function Insert<T>(x: T, s: seq<T>, key: T -> string): (r: seq<T>)
    requires SortedBy(s, key)
    ensures SortedBy(r, key)
    ensures multiset(r) == multiset(s) + multiset{x}
  {
    if s == [] then [x]
    else if Less(key(x), key(s[0])) then
      SortedPrepend(x, s, key);
      [x] + s
    else
      var rest := Insert(x, s[1..], key);
      assert s == [s[0]] + s[1..];
      LessTotal(key(x), key(s[0]));
      assert rest != [] ==> LessEq(key(s[0]), key(rest[0])) by {
        if rest != [] {
          assert rest[0] in multiset(rest);
          if rest[0] != x {
            assert rest[0] in s[1..];
          }
        }
      }
      SortedPrepend(s[0], rest, key);
      [s[0]] + rest
  }

  /** Python's `sorted(s, key=key)`: an ascending permutation of `s`. */
  function SortBy<T>(s: seq<T>, key: T -> string): (r: seq<T>)
    ensures SortedBy(r, key)
    ensures multiset(r) == multiset(s)
  {
    if s == [] then []
    else
      assert s == s[..|s| - 1] + [s[|s| - 1]];
      Insert(s[|s| - 1], SortBy(s[..|s| - 1], key), key)
  }

  /** The first element of an ascending sequence has the least key. */
  lemma SortedHeadLeast<T>(s: seq<T>, key: T -> string, x: T)
    requires SortedBy(s, key) && x in s
    ensures LessEq(key(s[0]), key(x))
  {
    var i :| 0 <= i < |s| && s[i] == x;
  }

  /** Two ascending arrangements of the same elements are the same sequence,
      as long as the key tells the elements apart. The order in which the
      elements were found therefore does not matter after sorting. */
  lemma {:induction false} SortedUnique<T>(s: seq<T>, t: seq<T>, key: T -> string)
    requires SortedBy(s, key) && SortedBy(t, key)
    requires multiset(s) == multiset(t)
    requires KeyInjective(multiset(s), key)
    ensures s == t
  {
    assert |s| == |multiset(s)| == |t|;
    if s != [] {
      SortedSameHead(s, t, key);
      SameTails(s, t, key);
      assert s == [s[0]] + s[1..] && t == [t[0]] + t[1..];
      SortedUnique(s[1..], t[1..], key);
    }
  }

  /** Two ascending arrangements of the same elements start alike. */
  lemma SortedSameHead<T>(s: seq<T>, t: seq<T>, key: T -> string)
    requires SortedBy(s, key) && SortedBy(t, key)
    requires multiset(s) == multiset(t) && s != []
    requires KeyInjective(multiset(s), key)
    ensures t != [] && s[0] == t[0]
  {
    assert s[0] in multiset(t);
    assert t[0] in multiset(s);
    SortedHeadLeast(s, key, t[0]);
    SortedHeadLeast(t, key, s[0]);
    LessEqTotalOrder(key(s[0]), key(t[0]), key(t[0]));
  }

  /** Removing a common first element leaves the same elements, among
      which the key still tells elements apart. */
  lemma SameTails<T>(s: seq<T>, t: seq<T>, key: T -> string)
    requires s != [] && t != [] && s[0] == t[0] && multiset(s) == multiset(t)
    requires KeyInjective(multiset(s), key)
    ensures multiset(s[1..]) == multiset(t[1..])
    ensures KeyInjective(multiset(s[1..]), key)
  {
    assert s == [s[0]] + s[1..];
    assert t == [t[0]] + t[1..];
    assert multiset(s) == multiset{s[0]} + multiset(s[1..]);
    assert multiset(t) == multiset{s[0]} + multiset(t[1..]);
    forall x | x in multiset(s[1..])
      ensures x in multiset(s)
    {
    }
  }



  /** An ascending arrangement without repeated elements, whose key tells
      the elements apart, is strictly ascending. */
  lemma SortedStrictly<T>(s: seq<T>, key: T -> string)
    requires SortedBy(s, key)
    requires KeyInjective(multiset(s), key)
    requires forall x :: multiset(s)[x] <= 1
    ensures StrictlySortedBy(s, key)
  {
    forall i, j | 0 <= i < j < |s|
      ensures Less(key(s[i]), key(s[j]))
    {
      if key(s[i]) == key(s[j]) {
        assert s[i] in multiset(s) && s[j] in multiset(s);
        RepeatedElement(s, i, j);
        assert false;
      }
    }
  }

  /** An element at two positions occurs at least twice. */
  lemma RepeatedElement<T>(s: seq<T>, i: nat, j: nat)
    requires i < j < |s|
    ensures s[i] == s[j] ==> multiset(s)[s[i]] >= 2
  {
    assert s == s[..j] + [s[j]] + s[j + 1..];
    assert s[i] in multiset(s[..j]);
  }

  /** Some arrangement of the elements of a finite set. */
  ghost function SetToSeq<T>(s: set<T>): (r: seq<T>)
    ensures multiset(r) == multiset(s)
  {
    if s == {} then []
    else
      var x :| x in s;
      assert multiset(s) == multiset(s - {x}) + multiset{x};
      [x] + SetToSeq(s - {x})
  }
}
