/**
 * Orders built from String.compareTo with Comparator.comparing(...).thenComparing(...),
 * and the sorted sequences that model TreeSet and TreeMap iteration order.
 */
module Ordered {
  import opened JavaText

  /**
   * Lexicographic order on sort keys: compare the first strings with compareTo,
   * and only when they are equal go on to the next ones.
   */
  predicate KeyLess(a: seq<string>, b: seq<string>)
  {
    if a == [] then b != []
    else if b == [] then false
    else StrLess(a[0], b[0]) || (a[0] == b[0] && KeyLess(a[1..], b[1..]))
  }

  lemma {:induction false} KeyLessIrreflexive(a: seq<string>)
    ensures !KeyLess(a, a)
  {
    if a != [] {
      StrLessIsStrictTotalOrder();
      KeyLessIrreflexive(a[1..]);
    }
  }

  lemma {:induction false} KeyLessTransitive(a: seq<string>, b: seq<string>, c: seq<string>)
    requires KeyLess(a, b) && KeyLess(b, c)
    ensures KeyLess(a, c)
  {
    if a != [] && b != [] && c != [] {
      StrLessIsStrictTotalOrder();
      if a[0] == b[0] && b[0] == c[0] {
        KeyLessTransitive(a[1..], b[1..], c[1..]);
      }
    }
  }

  lemma {:induction false} KeyLessTotal(a: seq<string>, b: seq<string>)
    ensures a == b || KeyLess(a, b) || KeyLess(b, a)
  {
    if a != [] && b != [] {
      StrLessIsStrictTotalOrder();
      if a[0] == b[0] {
        KeyLessTotal(a[1..], b[1..]);
        if a[1..] == b[1..] {
          assert a == [a[0]] + a[1..] && b == [b[0]] + b[1..];
        }
      }
    }
  }

  /** KeyLess is a strict total order: the order a comparator chain over compareTo defines. */
  lemma KeyLessIsStrictTotalOrder()
    ensures forall a :: !KeyLess(a, a)
    ensures forall a, b, c :: KeyLess(a, b) && KeyLess(b, c) ==> KeyLess(a, c)
    ensures forall a, b :: a == b || KeyLess(a, b) || KeyLess(b, a)
  {
    forall a ensures !KeyLess(a, a) { KeyLessIrreflexive(a); }
    forall a, b, c | KeyLess(a, b) && KeyLess(b, c) ensures KeyLess(a, c) {
      KeyLessTransitive(a, b, c);
    }
    forall a, b ensures a == b || KeyLess(a, b) || KeyLess(b, a) { KeyLessTotal(a, b); }
  }

  /** The sign a comparator chain reports for two sort keys. */
  function KeyCompare(a: seq<string>, b: seq<string>): (r: int)
    ensures r == 0 <==> a == b
    ensures r < 0 <==> KeyLess(a, b)
    ensures r > 0 <==> KeyLess(b, a)
  {
    KeyLessIsStrictTotalOrder();
    if KeyLess(a, b) then -1 else if a == b then 0 else 1
  }

  /** Iteration order of a TreeSet or TreeMap: keys strictly ascending. */
  ghost predicate SortedBy<T>(s: seq<T>, key: T -> seq<string>)
  {
    forall i, j :: 0 <= i < j < |s| ==> KeyLess(key(s[i]), key(s[j]))
  }

  /** Whether s holds an element the comparator treats as equal to x. */
  ghost predicate HasKey<T>(s: seq<T>, x: T, key: T -> seq<string>)
  {
    exists i :: 0 <= i < |s| && key(s[i]) == key(x)
  }

  /**
   * TreeSet.add (and TreeMap.computeIfAbsent on the key set): when the set
   * already holds an element the comparator treats as equal, nothing changes;
   * otherwise x goes in at its place in the order.
   */
  function Add<T(!new)>(s: seq<T>, x: T, key: T -> seq<string>): (r: seq<T>)
    requires SortedBy(s, key)
    ensures SortedBy(r, key)
    ensures HasKey(s, x, key) ==> r == s
    ensures !HasKey(s, x, key) ==> |r| == |s| + 1 && x in r
    ensures !HasKey(s, x, key) ==> forall y :: y in r <==> y == x || y in s
  {
    KeyLessIsStrictTotalOrder();
    if s == [] then [x]
    else if key(s[0]) == key(x) then s
    else if KeyLess(key(x), key(s[0])) then
      assert !HasKey(s, x, key);
      [x] + s
    else
      var r' := Add(s[1..], x, key);
      assert HasKey(s, x, key) <==> HasKey(s[1..], x, key) by {
        if HasKey(s, x, key) {
          var i :| 0 <= i < |s| && key(s[i]) == key(x);
          assert i > 0 && key(s[1..][i - 1]) == key(x);
        }
        if HasKey(s[1..], x, key) {
          var i :| 0 <= i < |s| - 1 && key(s[1..][i]) == key(x);
          assert key(s[i + 1]) == key(x);
        }
      }
      assert forall y :: y in s <==> y == s[0] || y in s[1..];
      assert forall k :: 0 <= k < |r'| ==> KeyLess(key(s[0]), key(r'[k])) by {
        forall k | 0 <= k < |r'| ensures KeyLess(key(s[0]), key(r'[k])) {
          assert r'[k] in r';
          if r'[k] != x {
            var m :| 0 <= m < |s[1..]| && s[1..][m] == r'[k];
            assert s[m + 1] == r'[k];
          }
        }
      }
      [s[0]] + r'
  }

  /** Names the first element of a non-empty sequence. */
  lemma HeadIn<T>(s: seq<T>)
    requires s != []
    ensures s[0] in s
  {
  }

  /** The first element of a strictly sorted sequence is below every other element. */
  lemma SortedFirstIsLeast<T>(s: seq<T>, x: T, key: T -> seq<string>)
    requires SortedBy(s, key) && x in s
    ensures x == s[0] || KeyLess(key(s[0]), key(x))
  {
    var k :| 0 <= k < |s| && s[k] == x;
    if k > 0 { assert KeyLess(key(s[0]), key(s[k])); }
  }

  /** Two strictly sorted sequences with the same elements are the same sequence. */
  lemma {:induction false} SortedUnique<T>(s: seq<T>, t: seq<T>, key: T -> seq<string>)
    requires SortedBy(s, key) && SortedBy(t, key)
    requires forall x :: x in s <==> x in t
    ensures s == t
  {
    if s != [] && t != [] {
      KeyLessIsStrictTotalOrder();
      SortedFirstIsLeast(s, t[0], key);
      SortedFirstIsLeast(t, s[0], key);
      assert s[0] == t[0];
      forall x ensures x in s[1..] <==> x in t[1..] {
        if x in s[1..] {
          var k :| 1 <= k < |s| && s[k] == x;
          assert KeyLess(key(s[0]), key(x));
          assert x in t;
        }
        if x in t[1..] {
          var k :| 1 <= k < |t| && t[k] == x;
          assert KeyLess(key(t[0]), key(x));
          assert x in s;
        }
      }
      SortedUnique(s[1..], t[1..], key);
      assert s == [s[0]] + s[1..] && t == [t[0]] + t[1..];
    } else {
      if s != [] { HeadIn(s); assert false; }
      if t != [] { HeadIn(t); assert false; }
    }
  }

  /** Sortedness depends only on the keys of the elements present. */
  lemma SortedByAgree<T>(s: seq<T>, key1: T -> seq<string>, key2: T -> seq<string>)
    requires SortedBy(s, key1)
    requires forall i :: 0 <= i < |s| ==> key1(s[i]) == key2(s[i])
    ensures SortedBy(s, key2)
  {
  }
}
