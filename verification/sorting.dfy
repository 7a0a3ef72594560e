/**
 * A stable sort by a numeric key, the behaviour of `fast-sort`'s `inPlaceSort(xs).asc(key)`
 * on top of JavaScript's stable `Array.prototype.sort`.  Descending sorts use the negated key.
 *
 * The reference definition of "stable sort" is: the result is ordered by key, and for every
 * key value the elements carrying that key appear in the same order as in the input
 * (`Block` below).  `SortBy` meets it, and `StableSortIsUnique` shows that only one
 * sequence does.
 */
module Sorting {

  /** Ascending by key. */
  predicate SortedBy<T>(s: seq<T>, key: T -> real)
  {
    forall i, j :: 0 <= i < j < |s| ==> key(s[i]) <= key(s[j])
  }

  /** The elements of `s` whose key is `k`, in their order in `s`. */
  function Block<T>(s: seq<T>, key: T -> real, k: real): seq<T>
  {
    if |s| == 0 then []
    else Block(s[..|s| - 1], key, k) + (if key(s[|s| - 1]) == k then [s[|s| - 1]] else [])
  }

  /** Every element of `s` has a key at least `k`. */
  predicate AllAtLeast<T>(s: seq<T>, key: T -> real, k: real)
  {
    forall i :: 0 <= i < |s| ==> k <= key(s[i])
  }

  /** Inserts `x` after every element whose key does not exceed its own. */
  function Insert<T>(r: seq<T>, x: T, key: T -> real): seq<T>
  {
    if |r| == 0 then [x]
    else if key(x) < key(r[0]) then [x] + r
    else [r[0]] + Insert(r[1..], x, key)
  }

  /** Inserting adds exactly one copy of `x`. */
  lemma {:induction false} InsertMultiset<T>(r: seq<T>, x: T, key: T -> real)
    ensures |Insert(r, x, key)| == |r| + 1
    ensures multiset(Insert(r, x, key)) == multiset(r) + multiset{x}
    decreases |r|
  {
    if |r| > 0 {
      assert r == [r[0]] + r[1..];
      InsertMultiset(r[1..], x, key);
    }
  }

  /** Inserting into a sorted sequence keeps it sorted. */
  lemma {:induction false} InsertSorted<T>(r: seq<T>, x: T, key: T -> real)
    requires SortedBy(r, key)
    ensures SortedBy(Insert(r, x, key), key)
    decreases |r|
  {
    if |r| > 0 && key(r[0]) <= key(x) {
      var tail := Insert(r[1..], x, key);
      InsertSorted(r[1..], x, key);
      InsertMultiset(r[1..], x, key);
      forall j | 0 <= j < |tail|
        ensures key(r[0]) <= key(tail[j])
      {
        assert tail[j] in multiset(r[1..]) + multiset{x};
        if tail[j] != x {
          assert tail[j] in r[1..];
        }
      }
    }
  }

  /** Stable insertion sort: each element, taken in input order, goes after its equals. */
  function SortBy<T>(s: seq<T>, key: T -> real): seq<T>
  {
    if |s| == 0 then []
    else Insert(SortBy(s[..|s| - 1], key), s[|s| - 1], key)
  }

  lemma SortBySingleton<T>(x: T, key: T -> real)
    ensures SortBy([x], key) == [x]
  {
    assert [x][..0] == [];
  }

  /** `SortBy` returns an ordered rearrangement of its input. */
  lemma {:induction false} SortBySpec<T>(s: seq<T>, key: T -> real)
    ensures SortedBy(SortBy(s, key), key)
    ensures multiset(SortBy(s, key)) == multiset(s)
    decreases |s|
  {
    if |s| > 0 {
      var front := s[..|s| - 1];
      assert s == front + [s[|s| - 1]];
      SortBySpec(front, key);
      InsertSorted(SortBy(front, key), s[|s| - 1], key);
      InsertMultiset(SortBy(front, key), s[|s| - 1], key);
    }
  }

  lemma BlockOfSingleton<T>(x: T, key: T -> real, k: real)
    ensures Block([x], key, k) == (if key(x) == k then [x] else [])
  {
    assert [x][..0] == [];
  }

  /** Taking a key's block distributes over concatenation. */
  lemma {:induction false} BlockAppend<T>(a: seq<T>, b: seq<T>, key: T -> real, k: real)
    ensures Block(a + b, key, k) == Block(a, key, k) + Block(b, key, k)
    decreases |b|
  {
    if |b| == 0 {
      assert a + b == a;
    } else {
      var b' := b[..|b| - 1];
      assert (a + b)[..|a + b| - 1] == a + b';
      BlockAppend(a, b', key, k);
    }
  }

  /** A sequence whose keys all exceed `k` has an empty `k` block. */
  lemma {:induction false} BlockAbove<T>(s: seq<T>, key: T -> real, k: real)
    requires forall i :: 0 <= i < |s| ==> k < key(s[i])
    ensures Block(s, key, k) == []
    decreases |s|
  {
    if |s| > 0 {
      BlockAbove(s[..|s| - 1], key, k);
    }
  }

  /** Inserting `x` into a sorted sequence appends `x` to its own block and leaves the others alone. */
  lemma {:induction false} InsertBlock<T>(r: seq<T>, x: T, key: T -> real, k: real)
    requires SortedBy(r, key)
    ensures Block(Insert(r, x, key), key, k) == Block(r, key, k) + (if key(x) == k then [x] else [])
    decreases |r|
  {
    if |r| == 0 {
      BlockOfSingleton(x, key, k);
    } else if key(x) < key(r[0]) {
      InsertBlockFront(r, x, key, k);
    } else {
      var tail := r[1..];
      assert r == [r[0]] + tail;
      assert Insert(r, x, key) == [r[0]] + Insert(tail, x, key);
      InsertBlock(tail, x, key, k);
      ConsBlock(r[0], tail, key, k);
      ConsBlock(r[0], Insert(tail, x, key), key, k);
    }
  }

  /** The block of `[y] + s` is `y`'s contribution followed by the block of `s`. */
  lemma ConsBlock<T>(y: T, s: seq<T>, key: T -> real, k: real)
    ensures Block([y] + s, key, k) == Block([y], key, k) + Block(s, key, k)
  {
    BlockAppend([y], s, key, k);
  }

  /** Inserting below the first element puts `x` in front, where it is the only one of its key. */
  lemma InsertBlockFront<T>(r: seq<T>, x: T, key: T -> real, k: real)
    requires SortedBy(r, key) && |r| > 0 && key(x) < key(r[0])
    ensures Block(Insert(r, x, key), key, k) == Block(r, key, k) + (if key(x) == k then [x] else [])
  {
    assert Insert(r, x, key) == [x] + r;
    BlockOfSingleton(x, key, k);
    BlockAppend([x], r, key, k);
    if key(x) == k {
      BlockAbove(r, key, k);
    }
  }

  /** `SortBy` is stable: every key's block keeps its input order. */
  lemma {:induction false} SortByStable<T>(s: seq<T>, key: T -> real, k: real)
    ensures Block(SortBy(s, key), key, k) == Block(s, key, k)
    decreases |s|
  {
    if |s| > 0 {
      var front := s[..|s| - 1];
      SortByStable(front, key, k);
      SortBySpec(front, key);
      InsertBlock(SortBy(front, key), s[|s| - 1], key, k);
    }
  }

  /** Inserting an element no smaller than everything present appends it. */
  lemma {:induction false} InsertLast<T>(r: seq<T>, x: T, key: T -> real)
    requires forall i :: 0 <= i < |r| ==> key(r[i]) <= key(x)
    ensures Insert(r, x, key) == r + [x]
    decreases |r|
  {
    if |r| > 0 {
      InsertLast(r[1..], x, key);
      assert r == [r[0]] + r[1..];
    }
  }

  /** Sorting a sequence that is already in order changes nothing. */
  lemma {:induction false} SortBySorted<T>(s: seq<T>, key: T -> real)
    requires SortedBy(s, key)
    ensures SortBy(s, key) == s
    decreases |s|
  {
    if |s| > 0 {
      var front := s[..|s| - 1];
      SortBySorted(front, key);
      InsertLast(front, s[|s| - 1], key);
      assert front + [s[|s| - 1]] == s;
    }
  }

  /** A non-empty block has a witness with that key. */
  lemma {:induction false} BlockMember<T>(s: seq<T>, key: T -> real, k: real, x: T)
    requires x in Block(s, key, k)
    ensures x in s && key(x) == k
    decreases |s|
  {
    var front := s[..|s| - 1];
    if x in Block(front, key, k) {
      BlockMember(front, key, k, x);
      assert s == front + [s[|s| - 1]];
    }
  }

  /** The last element of a non-empty sequence is in its own key's block, at the end. */
  lemma LastInBlock<T>(s: seq<T>, key: T -> real)
    requires |s| > 0
    ensures Block(s, key, key(s[|s| - 1])) == Block(s[..|s| - 1], key, key(s[|s| - 1])) + [s[|s| - 1]]
  {
  }

  /** In a sorted sequence no element has a larger key than the last one. */
  lemma AtMostLast<T>(b: seq<T>, key: T -> real, x: T)
    requires SortedBy(b, key) && x in b
    ensures key(x) <= key(b[|b| - 1])
  {
    var i :| 0 <= i < |b| && b[i] == x;
  }

  /** If `a`'s last element's block is the same in `b`, its key is at most the key of `b`'s last element. */
  lemma LastKeyBound<T>(a: seq<T>, b: seq<T>, key: T -> real)
    requires SortedBy(b, key) && |a| > 0 && |b| > 0
    requires Block(a, key, key(a[|a| - 1])) == Block(b, key, key(a[|a| - 1]))
    ensures key(a[|a| - 1]) <= key(b[|b| - 1])
  {
    var x := a[|a| - 1];
    LastInBlock(a, key);
    assert x in Block(b, key, key(x));
    BlockMember(b, key, key(x), x);
    AtMostLast(b, key, x);
  }

  /** Two sorted sequences that agree on every block end with the same element. */
  lemma SameLast<T>(a: seq<T>, b: seq<T>, key: T -> real)
    requires SortedBy(a, key) && SortedBy(b, key) && |a| > 0 && |b| > 0
    requires forall k :: Block(a, key, k) == Block(b, key, k)
    ensures a[|a| - 1] == b[|b| - 1]
  {
    var x, y := a[|a| - 1], b[|b| - 1];
    LastKeyBound(a, b, key);
    LastKeyBound(b, a, key);
    // both are the last element of the same block
    var A, B := Block(a, key, key(x)), Block(b, key, key(x));
    LastInBlock(a, key);
    LastInBlock(b, key);
    assert A == B;
    assert A[|A| - 1] == x && B[|B| - 1] == y;
  }

  /** Dropping the same last element from two sequences that agree on every block keeps them agreeing. */
  lemma SameBlocksOfFronts<T>(a: seq<T>, b: seq<T>, key: T -> real, k: real)
    requires |a| > 0 && |b| > 0 && a[|a| - 1] == b[|b| - 1]
    requires Block(a, key, k) == Block(b, key, k)
    ensures Block(a[..|a| - 1], key, k) == Block(b[..|b| - 1], key, k)
  {
    var x := a[|a| - 1];
    var a', b' := a[..|a| - 1], b[..|b| - 1];
    var tailA := if key(x) == k then [x] else [];
    assert Block(a, key, k) == Block(a', key, k) + tailA;
    assert Block(b, key, k) == Block(b', key, k) + tailA;
    assert (Block(a', key, k) + tailA)[..|Block(a', key, k)|] == Block(a', key, k);
    assert (Block(b', key, k) + tailA)[..|Block(b', key, k)|] == Block(b', key, k);
  }

  /**
   * Two sequences that are both sorted and agree on every block are equal: a stable sort
   * has exactly one possible output.
   */
  lemma {:induction false} StableSortIsUnique<T>(a: seq<T>, b: seq<T>, key: T -> real)
    requires SortedBy(a, key) && SortedBy(b, key)
    requires forall k :: Block(a, key, k) == Block(b, key, k)
    ensures a == b
    decreases |a|
  {
    if |a| == 0 {
      if |b| > 0 {
        LastInBlock(b, key);
        assert false;
      }
    } else {
      if |b| == 0 {
        LastInBlock(a, key);
        assert false;
      } else {
        var a', b' := a[..|a| - 1], b[..|b| - 1];
        SameLast(a, b, key);
        forall k
          ensures Block(a', key, k) == Block(b', key, k)
        {
          SameBlocksOfFronts(a, b, key, k);
        }
        StableSortIsUnique(a', b', key);
        assert a == a' + [a[|a| - 1]] && b == b' + [b[|b| - 1]];
      }
    }
  }

  /** The characterisation of `SortBy`: it is the stable sort. */
  lemma SortByIsTheStableSort<T>(s: seq<T>, r: seq<T>, key: T -> real)
    requires SortedBy(r, key)
    requires forall k :: Block(r, key, k) == Block(s, key, k)
    ensures r == SortBy(s, key)
  {
    forall k
      ensures Block(r, key, k) == Block(SortBy(s, key), key, k)
    {
      SortByStable(s, key, k);
    }
    SortBySpec(s, key);
    StableSortIsUnique(r, SortBy(s, key), key);
  }
  /** The sum of a natural-number measure over the elements of a sequence. */
  function Total<T>(s: seq<T>, f: T -> nat): nat
  {
    if |s| == 0 then 0 else f(s[0]) + Total(s[1..], f)
  }

  lemma {:induction false} TotalAppend<T>(a: seq<T>, b: seq<T>, f: T -> nat)
    ensures Total(a + b, f) == Total(a, f) + Total(b, f)
    decreases |a|
  {
    if |a| == 0 {
      assert a + b == b;
    } else {
      assert (a + b)[1..] == a[1..] + b;
      TotalAppend(a[1..], b, f);
    }
  }

  /** Inserting an element adds its measure. */
  lemma {:induction false} InsertTotal<T>(r: seq<T>, x: T, key: T -> real, f: T -> nat)
    ensures Total(Insert(r, x, key), f) == Total(r, f) + f(x)
    decreases |r|
  {
    if |r| == 0 {
      assert Total([x], f) == f(x) + Total([], f);
    } else if key(x) < key(r[0]) {
      assert ([x] + r)[1..] == r;
    } else {
      var tail := Insert(r[1..], x, key);
      assert Insert(r, x, key) == [r[0]] + tail;
      assert ([r[0]] + tail)[1..] == tail;
      InsertTotal(r[1..], x, key, f);
    }
  }

  /** Sorting keeps the total of any measure. */
  lemma {:induction false} SortTotal<T>(s: seq<T>, key: T -> real, f: T -> nat)
    ensures Total(SortBy(s, key), f) == Total(s, f)
    decreases |s|
  {
    if |s| > 0 {
      var front, last := s[..|s| - 1], s[|s| - 1];
      SortTotal(front, key, f);
      InsertTotal(SortBy(front, key), last, key, f);
      assert Total(s, f) == Total(front, f) + f(last) by {
        assert s == front + [last];
        TotalAppend(front, [last], f);
        assert Total([last], f) == f(last) + Total([], f);
      }
    }
  }
  /** An element no larger than every element of a sorted sequence can go in front of it. */
  lemma SortedConsBound<T>(x: T, s: seq<T>, key: T -> real)
    requires SortedBy(s, key) && forall y | y in s :: key(x) <= key(y)
    ensures SortedBy([x] + s, key)
  {
    var r := [x] + s;
    forall i, j | 0 <= i < j < |r|
      ensures key(r[i]) <= key(r[j])
    {
      assert r[j] == s[j - 1];
      if i > 0 {
        assert r[i] == s[i - 1];
      }
    }
  }
}
