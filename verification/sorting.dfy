/** The stable sort `Array.prototype.sort` performs with a comparator that
    returns a negative number when its first argument goes first, modelled as
    an insertion sort, with the facts about it that every caller relies on:
    it permutes its input, it orders by any total preorder it is given, and
    it keeps tied elements in input order. */
module Sorting {

  /** Inserts `x` before the first element it does not sort after. */
  function Insert<T>(cmp: (T, T) -> int, x: T, s: seq<T>): seq<T> {
    if |s| == 0 || cmp(x, s[0]) <= 0 then [x] + s else [s[0]] + Insert(cmp, x, s[1..])
  }

  function SortBy<T>(cmp: (T, T) -> int, s: seq<T>): seq<T> {
    if |s| == 0 then [] else Insert(cmp, s[0], SortBy(cmp, s[1..]))
  }

  /** `cmp` is the sign function of a total preorder. */
  ghost predicate TotalPreorder<T(!new)>(cmp: (T, T) -> int) {
    && (forall a, b :: cmp(a, b) > 0 ==> cmp(b, a) < 0)
    && (forall a, b :: cmp(a, b) < 0 ==> cmp(b, a) > 0)
    && (forall a, b, c :: cmp(a, b) <= 0 && cmp(b, c) <= 0 ==> cmp(a, c) <= 0)
  }

  ghost predicate SortedBy<T>(cmp: (T, T) -> int, s: seq<T>) {
    forall i, j :: 0 <= i < j < |s| ==> cmp(s[i], s[j]) <= 0
  }

  /** The elements of `s` that tie with `x`, in the order of `s`. */
  function Ties<T>(cmp: (T, T) -> int, s: seq<T>, x: T): seq<T> {
    if |s| == 0 then []
    else (if cmp(s[0], x) == 0 then [s[0]] else []) + Ties(cmp, s[1..], x)
  }

  lemma {:induction false} InsertPermutes<T>(cmp: (T, T) -> int, x: T, s: seq<T>)
    ensures multiset(Insert(cmp, x, s)) == multiset{x} + multiset(s)
  {
    if |s| > 0 && cmp(x, s[0]) > 0 {
      InsertPermutes(cmp, x, s[1..]);
      assert s == [s[0]] + s[1..];
    }
  }

  /** The sort returns a permutation of its input. */
  lemma {:induction false} SortPermutes<T>(cmp: (T, T) -> int, s: seq<T>)
    ensures multiset(SortBy(cmp, s)) == multiset(s)
  {
    if |s| > 0 {
      SortPermutes(cmp, s[1..]);
      InsertPermutes(cmp, s[0], SortBy(cmp, s[1..]));
      assert s == [s[0]] + s[1..];
    }
  }

  /** Whatever holds of `x` and of every element of `s` holds of every
      element of the insertion. */
  lemma {:induction false} InsertAll<T>(cmp: (T, T) -> int, p: T -> bool, x: T, s: seq<T>)
    requires p(x) && forall k :: 0 <= k < |s| ==> p(s[k])
    ensures forall k :: 0 <= k < |Insert(cmp, x, s)| ==> p(Insert(cmp, x, s)[k])
  {
    if |s| > 0 && cmp(x, s[0]) > 0 {
      InsertAll(cmp, p, x, s[1..]);
      var t := Insert(cmp, x, s[1..]);
      assert Insert(cmp, x, s) == [s[0]] + t;
      forall k | 0 <= k < |Insert(cmp, x, s)| ensures p(Insert(cmp, x, s)[k]) {
        if k > 0 { assert Insert(cmp, x, s)[k] == t[k - 1]; }
      }
    }
  }

  lemma {:induction false} InsertSorted<T(!new)>(cmp: (T, T) -> int, x: T, s: seq<T>)
    requires TotalPreorder(cmp)
    requires SortedBy(cmp, s)
    ensures SortedBy(cmp, Insert(cmp, x, s))
  {
    if |s| > 0 && cmp(x, s[0]) > 0 {
      var t := Insert(cmp, x, s[1..]);
      InsertSorted(cmp, x, s[1..]);
      InsertAll(cmp, a => cmp(s[0], a) <= 0, x, s[1..]);
      ConsSorted(cmp, s[0], t);
    } else {
      ConsSorted(cmp, x, s);
    }
  }

  /** A head no greater than anything after it extends a sorted sequence. */
  lemma ConsSorted<T(!new)>(cmp: (T, T) -> int, h: T, t: seq<T>)
    requires TotalPreorder(cmp)
    requires SortedBy(cmp, t)
    requires forall k :: 0 <= k < |t| ==> cmp(h, t[k]) <= 0
    ensures SortedBy(cmp, [h] + t)
  {
    var s := [h] + t;
    forall i, j | 0 <= i < j < |s| ensures cmp(s[i], s[j]) <= 0 {
      assert s[j] == t[j - 1];
      if i > 0 { assert s[i] == t[i - 1]; }
    }
  }

  /** Under a total preorder the output is ordered by it. */
  lemma {:induction false} SortSorted<T(!new)>(cmp: (T, T) -> int, s: seq<T>)
    requires TotalPreorder(cmp)
    ensures SortedBy(cmp, SortBy(cmp, s))
  {
    if |s| > 0 {
      SortSorted(cmp, s[1..]);
      InsertSorted(cmp, s[0], SortBy(cmp, s[1..]));
    }
  }

  /** `cmp` puts a smaller key first and a larger key last. */
  ghost predicate RespectsKey<T(!new)>(cmp: (T, T) -> int, key: T -> int) {
    forall a, b :: (key(a) < key(b) ==> cmp(a, b) < 0) && (key(a) > key(b) ==> cmp(a, b) > 0)
  }

  ghost predicate KeySorted<T>(key: T -> int, s: seq<T>) {
    forall i, j :: 0 <= i < j < |s| ==> key(s[i]) <= key(s[j])
  }

  lemma {:induction false} InsertKeySorted<T(!new)>(cmp: (T, T) -> int, key: T -> int, x: T, s: seq<T>)
    requires RespectsKey(cmp, key)
    requires KeySorted(key, s)
    ensures KeySorted(key, Insert(cmp, x, s))
  {
    if |s| > 0 && cmp(x, s[0]) > 0 {
      var t := Insert(cmp, x, s[1..]);
      InsertKeySorted(cmp, key, x, s[1..]);
      InsertAll(cmp, a => key(s[0]) <= key(a), x, s[1..]);
      ConsKeySorted(key, s[0], t);
    } else {
      ConsKeySorted(key, x, s);
    }
  }

  lemma ConsKeySorted<T>(key: T -> int, h: T, t: seq<T>)
    requires KeySorted(key, t)
    requires forall k :: 0 <= k < |t| ==> key(h) <= key(t[k])
    ensures KeySorted(key, [h] + t)
  {
    var s := [h] + t;
    forall i, j | 0 <= i < j < |s| ensures key(s[i]) <= key(s[j]) {
      assert s[j] == t[j - 1];
      if i > 0 { assert s[i] == t[i - 1]; }
    }
  }

  /** A comparator that decides first by an integer key leaves the output
      ordered by that key, whatever it does among equal keys. */
  lemma {:induction false} SortKeySorted<T(!new)>(cmp: (T, T) -> int, key: T -> int, s: seq<T>)
    requires RespectsKey(cmp, key)
    ensures KeySorted(key, SortBy(cmp, s))
  {
    if |s| > 0 {
      SortKeySorted(cmp, key, s[1..]);
      InsertKeySorted(cmp, key, s[0], SortBy(cmp, s[1..]));
    }
  }

  /** Any two elements tied with `x` may go in either order. */
  ghost predicate TiesInterchangeable<T(!new)>(cmp: (T, T) -> int, x: T) {
    forall a, b :: cmp(a, x) == 0 && cmp(b, x) == 0 ==> cmp(a, b) <= 0
  }

  lemma PreorderTies<T(!new)>(cmp: (T, T) -> int, x: T)
    requires TotalPreorder(cmp)
    ensures TiesInterchangeable(cmp, x)
  {
  }

  lemma {:induction false} InsertTies<T(!new)>(cmp: (T, T) -> int, y: T, s: seq<T>, x: T)
    requires TiesInterchangeable(cmp, x)
    ensures Ties(cmp, Insert(cmp, y, s), x) == (if cmp(y, x) == 0 then [y] else []) + Ties(cmp, s, x)
  {
    if |s| == 0 || cmp(y, s[0]) <= 0 {
      TiesCons(cmp, y, s, x);
    } else {
      var t := Insert(cmp, y, s[1..]);
      var a := if cmp(s[0], x) == 0 then [s[0]] else [];
      var b := if cmp(y, x) == 0 then [y] else [];
      InsertTies(cmp, y, s[1..], x);
      assert Insert(cmp, y, s) == [s[0]] + t;
      TiesCons(cmp, s[0], t, x);
      TiesCons(cmp, s[0], s[1..], x);
      assert [s[0]] + s[1..] == s;
      NotBothTied(cmp, x, y, s[0]);
      SwapSmall(a, b, Ties(cmp, s[1..], x));
    }
  }

  /** An element sorting strictly after another is not tied with it. */
  lemma NotBothTied<T(!new)>(cmp: (T, T) -> int, x: T, y: T, h: T)
    requires TiesInterchangeable(cmp, x)
    requires cmp(y, h) > 0
    ensures !(cmp(y, x) == 0 && cmp(h, x) == 0)
  {
  }

  lemma SwapSmall<T>(a: seq<T>, b: seq<T>, rest: seq<T>)
    requires a == [] || b == []
    ensures a + (b + rest) == b + (a + rest)
  {
    if a == [] {
      assert a + (b + rest) == b + rest;
    } else {
      assert b + (a + rest) == a + rest;
    }
  }

  lemma TiesCons<T>(cmp: (T, T) -> int, h: T, t: seq<T>, x: T)
    ensures Ties(cmp, [h] + t, x) == (if cmp(h, x) == 0 then [h] else []) + Ties(cmp, t, x)
  {
    assert ([h] + t)[1..] == t;
  }

  /** Stability: the elements tied with any `x` keep their input order. */
  lemma {:induction false} SortStable<T(!new)>(cmp: (T, T) -> int, s: seq<T>, x: T)
    requires TotalPreorder(cmp)
    ensures Ties(cmp, SortBy(cmp, s), x) == Ties(cmp, s, x)
  {
    if |s| > 0 {
      SortStable(cmp, s[1..], x);
      PreorderTies(cmp, x);
      InsertTies(cmp, s[0], SortBy(cmp, s[1..]), x);
    }
  }

  /** Two comparators that agree on the elements of `s` sort it alike. */
  lemma {:induction false} SortAgree<T>(c1: (T, T) -> int, c2: (T, T) -> int, s: seq<T>)
    requires forall a, b :: a in s && b in s ==> c1(a, b) == c2(a, b)
    ensures SortBy(c1, s) == SortBy(c2, s)
  {
    if |s| > 0 {
      AgreeOnTail(c1, c2, s);
      SortAgree(c1, c2, s[1..]);
      SortPermutes(c1, s[1..]);
      TailWithin(s);
      InsertAgree(c1, c2, s[0], SortBy(c1, s[1..]), s);
    }
  }

  lemma AgreeOnTail<T>(c1: (T, T) -> int, c2: (T, T) -> int, s: seq<T>)
    requires |s| > 0
    requires forall a, b :: a in s && b in s ==> c1(a, b) == c2(a, b)
    ensures forall a, b :: a in s[1..] && b in s[1..] ==> c1(a, b) == c2(a, b)
  {
    forall a, b | a in s[1..] && b in s[1..] ensures c1(a, b) == c2(a, b) {
      assert a in s && b in s;
    }
  }

  lemma TailWithin<T>(s: seq<T>)
    requires |s| > 0
    ensures s[0] in s && multiset(s[1..]) <= multiset(s)
  {
    assert s == [s[0]] + s[1..];
  }

  lemma {:induction false} InsertAgree<T>(c1: (T, T) -> int, c2: (T, T) -> int, x: T, t: seq<T>, s: seq<T>)
    requires x in s && multiset(t) <= multiset(s)
    requires forall a, b :: a in s && b in s ==> c1(a, b) == c2(a, b)
    ensures Insert(c1, x, t) == Insert(c2, x, t)
  {
    if |t| > 0 {
      assert t[0] in multiset(t);
      assert t[0] in s;
      assert multiset(t[1..]) <= multiset(t) by {
        assert t == [t[0]] + t[1..];
      }
      InsertAgree(c1, c2, x, t[1..], s);
    }
  }
}
