/** Byte-wise string order, sorting by a string key, and the facts about Go's `map` walks that
    the controllers rely on: a walk visits every key once in an arbitrary order, and sorting by
    an injective key forgets that order.
  */
module Ordering {

  /** Go's `<` on strings. */
  predicate Less(a: string, b: string)
    decreases |a|
  {
    |b| > 0 && (|a| == 0 || a[0] < b[0] || (a[0] == b[0] && Less(a[1..], b[1..])))
  }

  lemma {:induction false} LessIrreflexive(a: string)
    ensures !Less(a, a)
    decreases |a|
  {
    if |a| > 0 {
      LessIrreflexive(a[1..]);
    }
  }

  lemma {:induction false} LessTotal(a: string, b: string)
    ensures a == b || Less(a, b) || Less(b, a)
    decreases |a|
  {
    if |a| > 0 && |b| > 0 && a[0] == b[0] {
      LessTotal(a[1..], b[1..]);
      if a[1..] == b[1..] {
        assert a == [a[0]] + a[1..] == [b[0]] + b[1..] == b;
      }
    }
  }

  lemma {:induction false} LessTransitive(a: string, b: string, c: string)
    requires Less(a, b) && Less(b, c)
    ensures Less(a, c)
    decreases |a|
  {
    if |a| > 0 && a[0] == b[0] == c[0] {
      LessTransitive(a[1..], b[1..], c[1..]);
    }
  }

  lemma LessAsymmetric(a: string, b: string)
    requires Less(a, b)
    ensures !Less(b, a)
  {
    if Less(b, a) {
      LessTransitive(a, b, a);
      LessIrreflexive(a);
    }
  }

  /** A common prefix does not change the order: `namespace/name` keys sort like names. */
  lemma {:induction false} LessAfterPrefix(p: string, a: string, b: string)
    ensures Less(p + a, p + b) <==> Less(a, b)
    decreases |p|
  {
    if |p| == 0 {
      assert p + a == a && p + b == b;
    } else {
      assert (p + a)[1..] == p[1..] + a && (p + b)[1..] == p[1..] + b;
      LessAfterPrefix(p[1..], a, b);
    }
  }

  /** Strictly increasing in the key, hence without duplicates. */
  ghost predicate Sorted<T>(s: seq<T>, key: T -> string) {
    forall i, j :: 0 <= i < j < |s| ==> Less(key(s[i]), key(s[j]))
  }

  ghost predicate DistinctKeys<T>(s: seq<T>, key: T -> string) {
    forall i, j :: 0 <= i < j < |s| ==> key(s[i]) != key(s[j])
  }

  function Insert<T>(x: T, s: seq<T>, key: T -> string): (r: seq<T>)
    ensures multiset(r) == multiset{x} + multiset(s)
    decreases |s|
  {
    if |s| == 0 then [x]
    else if Less(key(x), key(s[0])) then
      [x] + s
    else
      assert s == [s[0]] + s[1..];
      [s[0]] + Insert(x, s[1..], key)
  }

  /** `slices.SortFunc` with a comparison of string keys. */
  function Sort<T>(s: seq<T>, key: T -> string): (r: seq<T>)
    ensures multiset(r) == multiset(s)
    decreases |s|
  {
    if |s| == 0 then []
    else
      assert s == [s[0]] + s[1..];
      Insert(s[0], Sort(s[1..], key), key)
  }

  lemma RemoveOne<T>(a: seq<T>, x: T, b: seq<T>, c: seq<T>)
    requires multiset(c + [x]) == multiset(a + [x] + b)
    ensures multiset(c) == multiset(a + b)
  {
    assert multiset(c + [x]) == multiset(c) + multiset{x};
    assert multiset(a + [x] + b) == multiset(a + b) + multiset{x};
    assert multiset(c) == multiset(c + [x]) - multiset{x};
    assert multiset(a + b) == multiset(a + [x] + b) - multiset{x};
  }

  lemma SameElements<T>(a: seq<T>, b: seq<T>)
    requires multiset(a) == multiset(b)
    ensures |a| == |b|
    ensures forall x :: x in a <==> x in b
  {
    assert |multiset(a)| == |multiset(b)|;
    assert forall x :: x in a <==> x in multiset(a);
    assert forall x :: x in b <==> x in multiset(b);
  }

  /** No later key is smaller: what sorting gives when keys may repeat. */
  ghost predicate Ordered<T>(s: seq<T>, key: T -> string) {
    forall i, j :: 0 <= i < j < |s| ==> !Less(key(s[j]), key(s[i]))
  }

  lemma NotLessTransitive(a: string, b: string, c: string)
    requires !Less(b, a) && !Less(c, b)
    ensures !Less(c, a)
  {
    if Less(c, a) {
      LessTotal(a, b);
      if a != b {
        LessTransitive(c, a, b);
      }
    }
  }

  lemma {:induction false} InsertOrdered<T>(x: T, s: seq<T>, key: T -> string)
    requires Ordered(s, key)
    ensures Ordered(Insert(x, s, key), key)
    decreases |s|
  {
    if |s| > 0 {
      if Less(key(x), key(s[0])) {
        LessAsymmetric(key(x), key(s[0]));
        forall j | 0 < j < |s| ensures !Less(key(s[j]), key(x)) {
          NotLessTransitive(key(x), key(s[0]), key(s[j]));
        }
      } else {
        InsertOrdered(x, s[1..], key);
        var t := Insert(x, s[1..], key);
        forall j | 0 <= j < |t| ensures !Less(key(t[j]), key(s[0])) {
          assert t[j] in multiset(t);
          assert t[j] == x || t[j] in s[1..];
        }
      }
    }
  }

  lemma {:induction false} SortOrdered<T>(s: seq<T>, key: T -> string)
    ensures Ordered(Sort(s, key), key)
    decreases |s|
  {
    if |s| > 0 {
      SortOrdered(s[1..], key);
      InsertOrdered(s[0], Sort(s[1..], key), key);
    }
  }

  lemma SortSorted<T>(s: seq<T>, key: T -> string)
    requires DistinctKeys(s, key)
    ensures Sorted(Sort(s, key), key)
  {
    var r := Sort(s, key);
    SortOrdered(s, key);
    SortKeepsDistinct(s, key);
    forall i, j | 0 <= i < j < |r| ensures Less(key(r[i]), key(r[j])) {
      LessTotal(key(r[i]), key(r[j]));
    }
  }

  lemma {:induction false} SortKeepsDistinct<T>(s: seq<T>, key: T -> string)
    requires DistinctKeys(s, key)
    ensures DistinctKeys(Sort(s, key), key)
    decreases |s|
  {
    if |s| > 0 {
      var rest := s[1..];
      var t := Sort(rest, key);
      SortKeepsDistinct(rest, key);
      forall i | 0 <= i < |t| ensures key(t[i]) != key(s[0]) {
        assert t[i] in multiset(t) && t[i] in multiset(rest);
        var j :| 0 <= j < |rest| && rest[j] == t[i];
        assert key(s[0]) != key(s[j + 1]);
      }
      InsertKeepsDistinct(s[0], t, key);
    }
  }

  lemma {:induction false} InsertKeepsDistinct<T>(x: T, s: seq<T>, key: T -> string)
    requires DistinctKeys(s, key) && forall i :: 0 <= i < |s| ==> key(s[i]) != key(x)
    ensures DistinctKeys(Insert(x, s, key), key)
    decreases |s|
  {
    if |s| > 0 && !Less(key(x), key(s[0])) {
      InsertKeepsDistinct(x, s[1..], key);
      var t := Insert(x, s[1..], key);
      forall j | 0 <= j < |t| ensures key(s[0]) != key(t[j]) {
        assert t[j] in multiset(t);
        assert t[j] == x || t[j] in s[1..];
      }
    }
  }

  /** A set has one strictly sorted listing. */
  lemma {:induction false} SortedUnique<T>(a: seq<T>, b: seq<T>, key: T -> string)
    requires Sorted(a, key) && Sorted(b, key)
    requires forall x :: x in a <==> x in b
    ensures a == b
    decreases |a|
  {
    assert |b| > 0 ==> b[0] in b && b[0] in a;
    if |a| > 0 {
      assert a[0] in a && a[0] in b;
      if a[0] != b[0] {
        LessAsymmetric(key(a[0]), key(b[0]));
      }
      LessIrreflexive(key(a[0]));
      forall x ensures x in a[1..] <==> x in b[1..] {
        assert x in a <==> x == a[0] || x in a[1..];
        assert x in b <==> x == b[0] || x in b[1..];
      }
      SortedUnique(a[1..], b[1..], key);
      assert a == [a[0]] + a[1..] && b == [b[0]] + b[1..];
    }
  }

  /** Sorting forgets the order in which distinct keys were listed. */
  lemma SortForgetsOrder<T>(a: seq<T>, b: seq<T>, key: T -> string)
    requires DistinctKeys(a, key) && DistinctKeys(b, key)
    requires forall x :: x in a <==> x in b
    ensures Sort(a, key) == Sort(b, key)
  {
    SortSorted(a, key);
    SortSorted(b, key);
    SameElements(Sort(a, key), a);
    SameElements(Sort(b, key), b);
    SortedUnique(Sort(a, key), Sort(b, key), key);
  }

  lemma {:induction false} InsertCongruent<T>(x: T, s: seq<T>, f: T -> string, g: T -> string)
    requires f(x) == g(x) && forall y :: y in s ==> f(y) == g(y)
    ensures Insert(x, s, f) == Insert(x, s, g)
    decreases |s|
  {
    if |s| > 0 {
      InsertCongruent(x, s[1..], f, g);
    }
  }

  /** Only the keys of the elements matter. */
  lemma {:induction false} SortCongruent<T>(s: seq<T>, f: T -> string, g: T -> string)
    requires forall y :: y in s ==> f(y) == g(y)
    ensures Sort(s, f) == Sort(s, g)
    decreases |s|
  {
    if |s| > 0 {
      var rest := s[1..];
      SortCongruent(rest, f, g);
      var sorted := Sort(rest, f);
      forall y | y in sorted ensures f(y) == g(y) {
        assert y in multiset(sorted) && y in rest;
      }
      InsertCongruent(s[0], sorted, f, g);
    }
  }

  /** Inserting leaves a prefix alone, and what follows that prefix is larger. */
  lemma {:induction false} InsertKeepsPrefix<T>(x: T, s: seq<T>, key: T -> string) returns (k: nat)
    ensures k <= |s| < |Insert(x, s, key)| && Insert(x, s, key)[..k] == s[..k]
    ensures k < |s| ==> Less(key(x), key(s[k]))
    decreases |s|
  {
    if |s| == 0 || Less(key(x), key(s[0])) {
      k := 0;
    } else {
      var rest := s[1..];
      var j := InsertKeepsPrefix(x, rest, key);
      k := j + 1;
      assert s[..k] == [s[0]] + rest[..j];
    }
  }

  /** In a sorted sequence, what is smaller than a bound that position `k` exceeds comes before `k`. */
  lemma SmallerComesBefore<T>(s: seq<T>, key: T -> string, bound: string, k: nat, x: T)
    requires Sorted(s, key) && k <= |s| && (k < |s| ==> Less(bound, key(s[k])))
    requires x in s && Less(key(x), bound)
    ensures x in s[..k]
  {
    var i :| 0 <= i < |s| && s[i] == x;
    if k <= i {
      LessTransitive(key(x), bound, key(s[k]));
      LessAsymmetric(key(x), key(s[k]));
      LessIrreflexive(key(x));
    }
    assert s[..k][i] == x;
  }

  ghost predicate NoDuplicates<T>(s: seq<T>) {
    forall i, j :: 0 <= i < j < |s| ==> s[i] != s[j]
  }

  /** One walk of a Go map: every key exactly once. */
  ghost predicate Walks<T(!new)>(walk: seq<T>, keys: set<T>) {
    NoDuplicates(walk) && (forall x :: x in walk <==> x in keys)
  }

  lemma {:induction false} WalkLength<T(!new)>(walk: seq<T>, keys: set<T>)
    requires Walks(walk, keys)
    ensures |walk| == |keys|
    decreases |walk|
  {
    if |walk| == 0 {
      assert keys == {};
    } else {
      var x := walk[0];
      assert x in walk;
      forall y ensures y in walk[1..] <==> y in keys - {x} {
        assert y in walk <==> y == x || y in walk[1..];
      }
      WalkLength(walk[1..], keys - {x});
    }
  }

  lemma SubsetCard<T>(a: set<T>, b: set<T>)
    requires a <= b
    ensures |a| <= |b|
  {
    if a != {} {
      var x :| x in a;
      SubsetCard(a - {x}, b - {x});
    }
  }
}
