/** Ordering and sorting shared by both parsers.

    Both parsers finish with `sort.Slice` over a comparison built from Go's
    string `<` on a rendering of each item, and the fitting parser sorts its
    line indices with `sort.Ints`. Here the comparison is a non-strict
    relation `le`; a sort is specified by "sorted by `le`" plus "a
    permutation of its input". */
module Sorting {

  /** Go's `<=` on strings: byte-wise lexicographic order. UTF-8 byte order
      coincides with code-point order, so comparing characters is the same. */
  predicate Below(a: string, b: string)
    decreases |a|
  {
    a == [] || (b != [] && (a[0] < b[0] || (a[0] == b[0] && Below(a[1..], b[1..]))))
  }

  lemma {:induction false} BelowTotal(a: string, b: string)
    ensures Below(a, b) || Below(b, a)
    decreases |a|
  {
    if a != [] && b != [] && a[0] == b[0] {
      BelowTotal(a[1..], b[1..]);
    }
  }

  lemma {:induction false} BelowTransitive(a: string, b: string, c: string)
    requires Below(a, b) && Below(b, c)
    ensures Below(a, c)
    decreases |a|
  {
    if a != [] && a[0] == b[0] && b[0] == c[0] {
      BelowTransitive(a[1..], b[1..], c[1..]);
    }
  }

  lemma {:induction false} BelowAntisymmetric(a: string, b: string)
    requires Below(a, b) && Below(b, a)
    ensures a == b
    decreases |a|
  {
    if a != [] {
      BelowAntisymmetric(a[1..], b[1..]);
      assert a == [a[0]] + a[1..] && b == [b[0]] + b[1..];
    }
  }

  ghost predicate TotalPreorder<T(!new)>(le: (T, T) -> bool)
  {
    && (forall a, b :: le(a, b) || le(b, a))
    && (forall a, b, c :: le(a, b) && le(b, c) ==> le(a, c))
  }

  ghost predicate Antisymmetric<T(!new)>(le: (T, T) -> bool)
  {
    forall a, b :: le(a, b) && le(b, a) ==> a == b
  }

  ghost predicate Injective<T(!new)>(key: T -> string)
  {
    forall a, b :: key(a) == key(b) ==> a == b
  }

  predicate SortedBy<T>(s: seq<T>, le: (T, T) -> bool)
  {
    forall i, j :: 0 <= i < j < |s| ==> le(s[i], s[j])
  }

  /** The comparison `sort.Slice` is given: items ordered by their rendering. */
  function KeyOrder<T>(key: T -> string): (T, T) -> bool
  {
    (a, b) => Below(key(a), key(b))
  }

  /** The comparison `sort.Ints` uses. */
  const IntOrder: (int, int) -> bool := (a, b) => a <= b

  lemma KeyOrderIsTotalPreorder<T(!new)>(key: T -> string)
    ensures TotalPreorder(KeyOrder(key))
  {
    var le := KeyOrder(key);
    forall a, b ensures le(a, b) || le(b, a) {
      BelowTotal(key(a), key(b));
    }
    forall a, b, c | le(a, b) && le(b, c) ensures le(a, c) {
      BelowTransitive(key(a), key(b), key(c));
    }
  }

  /** With an injective rendering, two items that sort equal are the same item. */
  lemma KeyOrderIsAntisymmetric<T(!new)>(key: T -> string)
    requires Injective(key)
    ensures Antisymmetric(KeyOrder(key))
  {
    var le := KeyOrder(key);
    forall a, b | le(a, b) && le(b, a) ensures a == b {
      BelowAntisymmetric(key(a), key(b));
    }
  }

  lemma IntOrderIsTotalPreorder()
    ensures TotalPreorder(IntOrder)
  {
  }

  lemma IntOrderIsAntisymmetric()
    ensures Antisymmetric(IntOrder)
  {
  }

  /** Go's string `<=` as a comparison. */
  const StringOrder: (string, string) -> bool := (a, b) => Below(a, b)

  lemma StringOrderIsAntisymmetric()
    ensures Antisymmetric(StringOrder)
  {
    forall a, b | StringOrder(a, b) && StringOrder(b, a) ensures a == b {
      BelowAntisymmetric(a, b);
    }
  }

  lemma {:induction false} BelowReflexive(a: string)
    ensures Below(a, a)
    decreases |a|
  {
    if a != [] {
      BelowReflexive(a[1..]);
    }
  }

  /** The renderings of the elements of `s`, in order. */
  function Rendered<T>(s: seq<T>, key: T -> string): (r: seq<string>)
    ensures |r| == |s|
  {
    seq(|s|, i requires 0 <= i < |s| => key(s[i]))
  }

  lemma RenderedAppend<T>(u: seq<T>, v: seq<T>, key: T -> string)
    ensures Rendered(u + v, key) == Rendered(u, key) + Rendered(v, key)
  {
  }

  /** Rendering a permutation gives a permutation of the renderings. */
  lemma {:induction false} RenderedPermutation<T>(a: seq<T>, b: seq<T>, key: T -> string)
    requires multiset(a) == multiset(b)
    ensures multiset(Rendered(a, key)) == multiset(Rendered(b, key))
    decreases |a|
  {
    if a == [] {
      assert |b| == |multiset(b)| == 0;
    } else {
      var n := |a| - 1;
      var x := a[n];
      var j := Position(b, x, a);
      var front, back := b[..j], b[j + 1..];
      RemovePosition(a, b, j);
      RenderedPermutation(a[..n], front + back, key);
      RenderedAppend(a[..n], [x], key);
      RenderedAppend(front, [x], key);
      RenderedAppend(front + [x], back, key);
      RenderedAppend(front, back, key);
      Reinsert(Rendered(a[..n], key), Rendered(front, key), Rendered(back, key), key(x));
    }
  }

  /** A position at which `s` holds `x`, when `x` is the last element of a
      permutation of `s`. */
  lemma Position<T>(s: seq<T>, x: T, t: seq<T>) returns (j: int)
    requires t != [] && x == t[|t| - 1] && multiset(t) == multiset(s)
    ensures 0 <= j < |s| && s[j] == x
  {
    assert x in multiset(t);
    j :| 0 <= j < |s| && s[j] == x;
  }

  /** Dropping the last element of `a` and the same element at `j` in `b`
      leaves permutations of each other. */
  lemma RemovePosition<T>(a: seq<T>, b: seq<T>, j: int)
    requires a != [] && multiset(a) == multiset(b)
    requires 0 <= j < |b| && b[j] == a[|a| - 1]
    ensures a == a[..|a| - 1] + [b[j]]
    ensures b == b[..j] + [b[j]] + b[j + 1..]
    ensures multiset(a[..|a| - 1]) == multiset(b[..j] + b[j + 1..])
  {
    assert a == a[..|a| - 1] + [b[j]];
    assert b == b[..j] + [b[j]] + b[j + 1..];
    calc {
      multiset(a[..|a| - 1]);
      multiset(a) - multiset{b[j]};
      multiset(b) - multiset{b[j]};
      multiset(b[..j]) + multiset(b[j + 1..]);
      multiset(b[..j] + b[j + 1..]);
    }
  }

  /** Putting back the same element, at the end of one sequence and
      between the two halves of the other, keeps equal multisets equal. */
  lemma Reinsert<T>(init: seq<T>, front: seq<T>, back: seq<T>, y: T)
    requires multiset(init) == multiset(front + back)
    ensures multiset(init + [y]) == multiset(front + [y] + back)
  {
  }

  /** Sorting by rendering sorts the renderings. */
  lemma SortedRendered<T>(a: seq<T>, key: T -> string)
    requires SortedBy(a, KeyOrder(key))
    ensures SortedBy(Rendered(a, key), StringOrder)
  {
  }

  /** What any two sorts by rendering of the same items agree on, whatever
      order the items came in: the same items, and position by position the
      same rendering. Items with equal renderings may still change places. */
  lemma SortedSameKeys<T>(a: seq<T>, b: seq<T>, key: T -> string)
    requires SortedBy(a, KeyOrder(key)) && SortedBy(b, KeyOrder(key))
    requires multiset(a) == multiset(b)
    ensures |a| == |b|
    ensures forall i :: 0 <= i < |a| ==> key(a[i]) == key(b[i])
  {
    RenderedPermutation(a, b, key);
    SortedRendered(a, key);
    SortedRendered(b, key);
    StringOrderIsAntisymmetric();
    SortedUnique(Rendered(a, key), Rendered(b, key), StringOrder);
    assert forall i :: 0 <= i < |a| ==> Rendered(a, key)[i] == key(a[i]) && Rendered(b, key)[i] == key(b[i]);
  }

  /** Two distinct items with the same rendering are sorted in either
      order: the sort by rendering does not fix their relative order. */
  lemma EqualRenderingsEitherOrder<T>(x: T, y: T, key: T -> string)
    requires key(x) == key(y)
    ensures SortedBy([x, y], KeyOrder(key)) && SortedBy([y, x], KeyOrder(key))
  {
    BelowReflexive(key(x));
  }

  /** A sort is determined by its input's contents: two sorted permutations
      of one multiset are equal when the order is antisymmetric. */
  lemma {:induction false} SortedUnique<T(!new)>(a: seq<T>, b: seq<T>, le: (T, T) -> bool)
    requires Antisymmetric(le)
    requires SortedBy(a, le) && SortedBy(b, le)
    requires multiset(a) == multiset(b)
    ensures a == b
    decreases |a|
  {
    if a != [] {
      SameHeadSameTail(a, b, le);
      SortedUnique(a[1..], b[1..], le);
      assert a == [a[0]] + a[1..] && b == [b[0]] + b[1..];
    } else {
      assert |b| == |multiset(b)| == 0;
    }
  }

  /** Two non-empty sorted permutations agree at the head, and their tails
      are again sorted permutations of each other. */
  lemma SameHeadSameTail<T(!new)>(a: seq<T>, b: seq<T>, le: (T, T) -> bool)
    requires Antisymmetric(le)
    requires SortedBy(a, le) && SortedBy(b, le)
    requires multiset(a) == multiset(b)
    requires a != []
    ensures b != [] && a[0] == b[0]
    ensures SortedBy(a[1..], le) && SortedBy(b[1..], le)
    ensures multiset(a[1..]) == multiset(b[1..])
  {
    assert |b| == |multiset(b)| == |multiset(a)| == |a|;
    SameHead(a, b, le);
    DropHead(a);
    DropHead(b);
    SortedTail(a, le);
    SortedTail(b, le);
  }

  lemma DropHead<T>(a: seq<T>)
    requires a != []
    ensures multiset(a[1..]) == multiset(a) - multiset{a[0]}
  {
    assert a == [a[0]] + a[1..];
  }

  lemma SortedTail<T>(a: seq<T>, le: (T, T) -> bool)
    requires a != [] && SortedBy(a, le)
    ensures SortedBy(a[1..], le)
  {
    forall i, j | 0 <= i < j < |a| - 1
      ensures le(a[1..][i], a[1..][j])
    {
      assert a[1..][i] == a[i + 1] && a[1..][j] == a[j + 1];
    }
  }

  /** Both sorted permutations start with the same, least, element. */
  lemma SameHead<T(!new)>(a: seq<T>, b: seq<T>, le: (T, T) -> bool)
    requires Antisymmetric(le)
    requires SortedBy(a, le) && SortedBy(b, le)
    requires multiset(a) == multiset(b)
    requires a != [] && b != []
    ensures a[0] == b[0]
  {
    assert a[0] in multiset(b);
    var j :| 0 <= j < |b| && b[j] == a[0];
    assert b[0] in multiset(a);
    var i :| 0 <= i < |a| && a[i] == b[0];
    if i != 0 && j != 0 {
      assert le(a[0], a[i]) && le(b[0], b[j]);
    }
  }

  /** Places `x` after every element of `r` that is `le` it. */
  method Insert<T(!new)>(r: seq<T>, x: T, le: (T, T) -> bool) returns (r': seq<T>)
    requires TotalPreorder(le)
    requires SortedBy(r, le)
    ensures SortedBy(r', le)
    ensures multiset(r') == multiset(r) + multiset{x}
  {
    var j := 0;
    while j < |r| && le(r[j], x)
      invariant 0 <= j <= |r|
      invariant forall k :: 0 <= k < j ==> le(r[k], x)
    {
      j := j + 1;
    }
    r' := r[..j] + [x] + r[j..];
    InsertAt(r, x, j, le);
  }

  /** `x` placed between the elements of `r` below it and the first that
      is not keeps `r` sorted and adds exactly `x`. */
  lemma InsertAt<T(!new)>(r: seq<T>, x: T, j: int, le: (T, T) -> bool)
    requires TotalPreorder(le)
    requires SortedBy(r, le)
    requires 0 <= j <= |r|
    requires forall k :: 0 <= k < j ==> le(r[k], x)
    requires j < |r| ==> !le(r[j], x)
    ensures SortedBy(r[..j] + [x] + r[j..], le)
    ensures multiset(r[..j] + [x] + r[j..]) == multiset(r) + multiset{x}
  {
    BelowTheRest(r, x, j, le);
    Splice(r, x, j, le);
    assert r == r[..j] + r[j..];
  }

  /** An element that the first of a sorted suffix is not `le` is `le`
      every element of the suffix. */
  lemma BelowTheRest<T(!new)>(r: seq<T>, x: T, j: int, le: (T, T) -> bool)
    requires TotalPreorder(le)
    requires SortedBy(r, le)
    requires 0 <= j <= |r|
    requires j < |r| ==> !le(r[j], x)
    ensures forall k :: j <= k < |r| ==> le(x, r[k])
  {
    forall k | j <= k < |r| ensures le(x, r[k]) {
      assert le(x, r[j]);
      if k != j {
        assert le(r[j], r[k]);
      }
    }
  }

  /** Splicing between a prefix `le` it and a suffix it is `le` keeps a
      sorted sequence sorted. */
  lemma Splice<T>(r: seq<T>, x: T, j: int, le: (T, T) -> bool)
    requires SortedBy(r, le)
    requires 0 <= j <= |r|
    requires forall k :: 0 <= k < j ==> le(r[k], x)
    requires forall k :: j <= k < |r| ==> le(x, r[k])
    ensures SortedBy(r[..j] + [x] + r[j..], le)
  {
    var s := r[..j] + [x] + r[j..];
    forall a, b | 0 <= a < b < |s| ensures le(s[a], s[b]) {
      if b < j {
        assert s[a] == r[a] && s[b] == r[b];
      } else if b == j {
        assert s[a] == r[a];
      } else if a == j {
        assert s[b] == r[b - 1];
      } else if a < j {
        assert s[a] == r[a] && s[b] == r[b - 1];
      } else {
        assert s[a] == r[a - 1] && s[b] == r[b - 1];
      }
    }
  }

  /** Sorts `s` by `le`, as `sort.Slice` and `sort.Ints` do. */
  method SortBy<T(!new)>(s: seq<T>, le: (T, T) -> bool) returns (r: seq<T>)
    requires TotalPreorder(le)
    ensures SortedBy(r, le)
    ensures multiset(r) == multiset(s)
  {
    r := [];
    var i := 0;
    while i < |s|
      invariant 0 <= i <= |s|
      invariant SortedBy(r, le)
      invariant multiset(r) == multiset(s[..i])
    {
      r := Insert(r, s[i], le);
      assert s[..i + 1] == s[..i] + [s[i]];
      i := i + 1;
    }
    assert s[..|s|] == s;
  }

  /** Sorting by the keys' string order: Go's `sort.Slice` with a
      less-than that compares the rendered elements. */
  method SortByKey<T(!new)>(s: seq<T>, key: T -> string) returns (r: seq<T>)
    ensures SortedBy(r, KeyOrder(key))
    ensures multiset(r) == multiset(s)
    ensures |r| == |s|
  {
    KeyOrderIsTotalPreorder(key);
    r := SortBy(s, KeyOrder(key));
    assert |r| == |multiset(r)| == |multiset(s)| == |s|;
  }

  /** Go's `sort.Ints`: ascending order. */
  method SortInts(s: seq<int>) returns (r: seq<int>)
    ensures SortedBy(r, IntOrder)
    ensures multiset(r) == multiset(s)
    ensures |r| == |s|
  {
    IntOrderIsTotalPreorder();
    r := SortBy(s, IntOrder);
    assert |r| == |multiset(r)| == |multiset(s)| == |s|;
  }
}
