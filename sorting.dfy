/** Python's `sorted` on a list of strings: strings compare character by
    character by code point, and a proper prefix comes first. */
module Sorting {

  /** `a <= b` on Python strings. */
  predicate StrLe(a: string, b: string) {
    if a == [] then true
    else if b == [] then false
    else if a[0] != b[0] then a[0] < b[0]
    else StrLe(a[1..], b[1..])
  }

  /** Any two strings are comparable. */
  lemma {:induction false} StrLeTotal(a: string, b: string)
    ensures StrLe(a, b) || StrLe(b, a)
  {
    if a != [] && b != [] && a[0] == b[0] {
      StrLeTotal(a[1..], b[1..]);
    }
  }

  /** Strings that are each at most the other are equal. */
  lemma {:induction false} StrLeAntisymmetric(a: string, b: string)
    requires StrLe(a, b) && StrLe(b, a)
    ensures a == b
  {
    if a != [] && b != [] {
      StrLeAntisymmetric(a[1..], b[1..]);
      assert a == [a[0]] + a[1..] && b == [b[0]] + b[1..];
    }
  }

  /** The order is transitive. */
  lemma {:induction false} StrLeTransitive(a: string, b: string, c: string)
    requires StrLe(a, b) && StrLe(b, c)
    ensures StrLe(a, c)
  {
    if a != [] && b != [] && c != [] && a[0] == b[0] && b[0] == c[0] {
      StrLeTransitive(a[1..], b[1..], c[1..]);
    }
  }

  /** Every string is at most itself. */
  lemma {:induction false} StrLeReflexive(a: string)
    ensures StrLe(a, a)
  {
    if a != [] {
      StrLeReflexive(a[1..]);
    }
  }

  /** Ascending order. */
  predicate Sorted(s: seq<string>) {
    forall i, j :: 0 <= i < j < |s| ==> StrLe(s[i], s[j])
  }

  /** A string at most every element of a sorted sequence can go in front. */
  lemma ConsSorted(x: string, s: seq<string>)
    requires Sorted(s)
    requires forall y :: y in multiset(s) ==> StrLe(x, y)
    ensures Sorted([x] + s)
  {
    var r := [x] + s;
    forall i, j | 0 <= i < j < |r| ensures StrLe(r[i], r[j]) {
      assert r[j] == s[j - 1];
      if i > 0 { assert r[i] == s[i - 1]; } else { assert r[j] in multiset(s); }
    }
  }

  /** The head of a sorted sequence is at most every element. */
  lemma SortedHead(s: seq<string>)
    requires Sorted(s) && s != []
    ensures forall y :: y in multiset(s) ==> StrLe(s[0], y)
  {
    forall y | y in multiset(s) ensures StrLe(s[0], y) {
      var k :| 0 <= k < |s| && s[k] == y;
      if k == 0 { StrLeReflexive(y); }
    }
  }

  /** `x` inserted in front of the first element it is at most. */
  function Insert(x: string, s: seq<string>): (r: seq<string>)
    requires Sorted(s)
    ensures Sorted(r)
    ensures multiset(r) == multiset(s) + multiset{x}
  {
    if s == [] then [x]
    else if StrLe(x, s[0]) then
      SortedHead(s);
      assert forall y :: y in multiset(s) ==> StrLe(x, y) by {
        forall y | y in multiset(s) ensures StrLe(x, y) {
          StrLeTransitive(x, s[0], y);
        }
      }
      ConsSorted(x, s);
      [x] + s
    else
      assert s == [s[0]] + s[1..];
      var t := Insert(x, s[1..]);
      StrLeTotal(x, s[0]);
      SortedHead(s);
      assert forall y :: y in multiset(t) ==> StrLe(s[0], y) by {
        forall y | y in multiset(t) ensures StrLe(s[0], y) {
          assert y == x || y in multiset(s[1..]);
        }
      }
      ConsSorted(s[0], t);
      [s[0]] + t
  }

  /** `sorted(names)`: the names in ascending order, each as often as given. */
  function Sort(names: seq<string>): (r: seq<string>)
    ensures Sorted(r)
    ensures multiset(r) == multiset(names)
  {
    if names == [] then []
    else
      assert names == names[..|names| - 1] + [names[|names| - 1]];
      Insert(names[|names| - 1], Sort(names[..|names| - 1]))
  }

  /** Two sorted sequences holding the same strings start with the same one. */
  lemma SortedSameHead(a: seq<string>, b: seq<string>)
    requires Sorted(a) && Sorted(b) && multiset(a) == multiset(b) && a != []
    ensures b != [] && a[0] == b[0]
  {
    assert a[0] in multiset(b);
    assert b != [];
    SortedHead(a);
    SortedHead(b);
    assert b[0] in multiset(a);
    StrLeAntisymmetric(a[0], b[0]);
  }

  /** Dropping the head keeps a sequence sorted and removes one copy. */
  lemma SortedTail(a: seq<string>)
    requires Sorted(a) && a != []
    ensures Sorted(a[1..])
    ensures multiset(a[1..]) == multiset(a) - multiset{a[0]}
  {
    assert a == [a[0]] + a[1..];
  }

  /** There is only one ascending order of a collection of strings: a sorted
      permutation of the names is `sorted(names)`. */
  lemma {:induction false} SortedUnique(a: seq<string>, b: seq<string>)
    requires Sorted(a) && Sorted(b) && multiset(a) == multiset(b)
    ensures a == b
    decreases |a|
  {
    if a != [] {
      SortedSameHead(a, b);
      SortedTail(a);
      SortedTail(b);
      SortedUnique(a[1..], b[1..]);
      assert a == [a[0]] + a[1..] && b == [b[0]] + b[1..];
    } else {
      assert |b| == |multiset(b)|;
    }
  }
}
