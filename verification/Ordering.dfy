/** The order of strings, and sorting by a comparison that may or may not be an order. */
module Ordering {
  /** Go's `<` on strings.  Byte order and code point order agree for UTF-8. */
  predicate Less(a: string, b: string) {
    b != "" && (a == "" || a[0] < b[0] || (a[0] == b[0] && Less(a[1..], b[1..])))
  }

  lemma {:induction false} LessIsTotal(a: string, b: string)
    ensures a == b || Less(a, b) || Less(b, a)
    ensures !(Less(a, b) && Less(b, a)) && !Less(a, a)
  {
    if a != "" && b != "" {
      LessIsTotal(a[1..], b[1..]);
      LessIsTotal(a[1..], a[1..]);
      assert a == [a[0]] + a[1..] && b == [b[0]] + b[1..];
    } else if a != "" {
      LessIsTotal(a[1..], a[1..]);
    }
  }

  lemma {:induction false} LessIsTransitive(a: string, b: string, c: string)
    requires Less(a, b) && Less(b, c)
    ensures Less(a, c)
  {
    if a != "" && a[0] == b[0] == c[0] {
      LessIsTransitive(a[1..], b[1..], c[1..]);
    }
  }

  lemma {:induction false} LessThanLonger(a: string, b: string)
    requires b != ""
    ensures Less(a, a + b)
  {
    if a == "" {
    } else {
      assert (a + b)[1..] == a[1..] + b;
      LessThanLonger(a[1..], b);
    }
  }

  // ---- Stable insertion sort ----

  function Insert<T>(less: (T, T) -> bool, s: seq<T>, x: T): seq<T> {
    if s == [] then [x]
    else if less(x, s[|s| - 1]) then Insert(less, s[..|s| - 1], x) + [s[|s| - 1]]
    else s + [x]
  }

  function Sort<T>(less: (T, T) -> bool, s: seq<T>): seq<T> {
    if s == [] then [] else Insert(less, Sort(less, s[..|s| - 1]), s[|s| - 1])
  }

  /** No element comes before one that should follow it. */
  ghost predicate Ordered<T(!new)>(less: (T, T) -> bool, s: seq<T>) {
    forall i, j :: 0 <= i < j < |s| ==> !less(s[j], s[i])
  }

  /** The comparison is a strict weak order on these elements. */
  ghost predicate Weak<T(!new)>(less: (T, T) -> bool, s: seq<T>) {
    && (forall a, b :: a in s && b in s && less(a, b) ==> !less(b, a))
    && (forall a, b, c :: a in s && b in s && c in s && less(a, c) ==> less(a, b) || less(b, c))
  }

  lemma {:induction false} InsertKeeps<T>(less: (T, T) -> bool, s: seq<T>, x: T)
    ensures multiset(Insert(less, s, x)) == multiset(s) + multiset{x}
  {
    if s == [] {
    } else {
      var init, last := s[..|s| - 1], s[|s| - 1];
      assert s == init + [last];
      if less(x, last) {
        InsertKeeps(less, init, x);
      }
    }
  }

  lemma {:induction false} SortKeeps<T>(less: (T, T) -> bool, s: seq<T>)
    ensures multiset(Sort(less, s)) == multiset(s) && |Sort(less, s)| == |s|
  {
    if s == [] {
    } else {
      var init, last := s[..|s| - 1], s[|s| - 1];
      assert s == init + [last];
      SortKeeps(less, init);
      InsertKeeps(less, Sort(less, init), last);
      SameSize(Sort(less, s), s);
    }
  }

  lemma SameSize<T>(a: seq<T>, b: seq<T>)
    requires multiset(a) == multiset(b)
    ensures |a| == |b|
  {
    assert |multiset(a)| == |a| && |multiset(b)| == |b|;
  }

  lemma SameElement<T>(a: seq<T>, b: seq<T>, x: T)
    requires multiset(a) == multiset(b)
    ensures x in a <==> x in b
  {
    assert x in a <==> x in multiset(a);
    assert x in b <==> x in multiset(b);
  }

  lemma {:induction false} Inserted<T>(less: (T, T) -> bool, s: seq<T>, x: T, y: T)
    ensures y in Insert(less, s, x) <==> y in s || y == x
  {
    InsertKeeps(less, s, x);
    assert y in Insert(less, s, x) <==> y in multiset(Insert(less, s, x));
    assert y in s <==> y in multiset(s);
  }

  lemma {:induction false} InsertOrders<T(!new)>(less: (T, T) -> bool, s: seq<T>, x: T)
    requires Weak(less, s + [x]) && Ordered(less, s)
    ensures Ordered(less, Insert(less, s, x))
  {
    if s == [] {
    } else {
      var init, last := s[..|s| - 1], s[|s| - 1];
      var all := s + [x];
      assert x in all && last in all;
      if less(x, last) {
        var r := Insert(less, init, x);
        InsertOrders(less, init, x);
        forall i | 0 <= i < |r|
          ensures !less(last, r[i])
        {
          Inserted(less, init, x, r[i]);
        }
      } else {
        forall i | 0 <= i < |s|
          ensures !less(x, s[i])
        {
          assert s[i] in all;
        }
      }
    }
  }

  lemma {:induction false} SortOrders<T(!new)>(less: (T, T) -> bool, s: seq<T>)
    requires Weak(less, s)
    ensures Ordered(less, Sort(less, s))
  {
    if s == [] {
    } else {
      var init, last := s[..|s| - 1], s[|s| - 1];
      var sorted := Sort(less, init);
      SortOrders(less, init);
      SortKeeps(less, init);
      forall x | x in sorted + [last]
        ensures x in s
      {
        SameElement(sorted, init, x);
      }
      InsertOrders(less, sorted, last);
    }
  }

  /** The element that a stable sort puts first: it beats all before it and none after it beats it. */
  ghost predicate StableLeast<T(!new)>(less: (T, T) -> bool, s: seq<T>, i: nat) {
    && i < |s|
    && (forall j :: 0 <= j < i ==> less(s[i], s[j]))
    && (forall j :: i < j < |s| ==> !less(s[j], s[i]))
  }

  lemma {:induction false} InsertHead<T(!new)>(less: (T, T) -> bool, s: seq<T>, x: T)
    requires s != [] && Weak(less, s + [x]) && Ordered(less, s)
    ensures Insert(less, s, x)[0] == if less(x, s[0]) then x else s[0]
  {
    var init, last, all := s[..|s| - 1], s[|s| - 1], s + [x];
    assert x in all && last in all && s[0] in all;
    assert |s| > 1 ==> !less(last, s[0]);
    if less(x, last) && init != [] {
      InsertHead(less, init, x);
      assert Insert(less, init, x) != [] by {
        InsertKeeps(less, init, x);
      }
    }
  }

  /** An inserted element comes first only if it beats every other. */
  lemma {:induction false} InsertHeadCases<T>(less: (T, T) -> bool, s: seq<T>, x: T, y: T)
    requires y in s
    ensures var r := Insert(less, s, x); r != [] && (r[0] == s[0] || (r[0] == x && less(x, y)))
  {
    var init, last := s[..|s| - 1], s[|s| - 1];
    assert s == init + [last];
    if init == [] {
      assert Insert(less, init, x) == [x];
    } else if less(x, last) {
      InsertHeadCases(less, init, x, if y in init then y else init[0]);
      assert Insert(less, s, x)[0] == Insert(less, init, x)[0];
    }
  }

  lemma {:induction false} SortPutsLeastFirst<T(!new)>(less: (T, T) -> bool, s: seq<T>) returns (i: nat)
    requires s != [] && Weak(less, s)
    ensures StableLeast(less, s, i) && Sort(less, s) != [] && Sort(less, s)[0] == s[i]
  {
    var init, last := s[..|s| - 1], s[|s| - 1];
    hide Weak, StableLeast, Ordered;
    SortKeeps(less, s);
    assert s == init + [last];
    if init == [] {
      OnlyIsLeast(less, s);
      return 0;
    }
    WeakWhenSorted(less, init, last);
    i := SortPutsLeastFirst(less, init);
    SortOrders(less, init);
    InsertHead(less, Sort(less, init), last);
    LeastSoFar(less, init, last, i);
    if less(last, init[i]) {
      i := |init|;
    }
  }

  lemma OnlyIsLeast<T(!new)>(less: (T, T) -> bool, s: seq<T>)
    requires |s| == 1
    ensures StableLeast(less, s, 0) && Sort(less, s) == s
  {
    assert s[..0] == [] && Sort(less, s[..0]) == [];
  }

  lemma {:induction false} WeakWhenSorted<T(!new)>(less: (T, T) -> bool, init: seq<T>, last: T)
    requires Weak(less, init + [last])
    ensures Weak(less, init) && Weak(less, Sort(less, init) + [last])
  {
    var s, sorted := init + [last], Sort(less, init);
    SortKeeps(less, init);
    forall x | x in sorted + [last]
      ensures x in s
    {
      SameElement(sorted, init, x);
    }
  }

  lemma {:induction false} LeastSoFar<T(!new)>(less: (T, T) -> bool, init: seq<T>, last: T, i: nat)
    requires Weak(less, init + [last]) && StableLeast(less, init, i)
    ensures i < |init| && StableLeast(less, init + [last], if less(last, init[i]) then |init| else i)
  {
    var s := init + [last];
    assert last in s && init[i] in s;
    if less(last, init[i]) {
      forall j | 0 <= j < |init|
        ensures less(last, init[j])
      {
        assert init[j] == s[j] && init[j] in s;
      }
    }
  }

  ghost predicate Comparable<T(!new)>(less: (T, T) -> bool, s: seq<T>) {
    forall x, y :: x in s && y in s ==> x == y || less(x, y) || less(y, x)
  }

  // ---- Strictly sorted sequences ----

  ghost predicate Strict<T(!new)>(less: (T, T) -> bool, s: seq<T>) {
    forall i, j :: 0 <= i < j < |s| ==> less(s[i], s[j])
  }

  ghost predicate Asymmetric<T(!new)>(less: (T, T) -> bool, s: seq<T>) {
    forall x, y :: x in s && y in s && less(x, y) ==> !less(y, x)
  }

  ghost predicate Once<T>(s: seq<T>) {
    forall i, j :: 0 <= i < j < |s| ==> s[i] != s[j]
  }

  lemma {:induction false} TwiceCounts<T>(s: seq<T>, i: nat, j: nat)
    requires i < j < |s|
    ensures s[i] == s[j] ==> multiset(s)[s[i]] >= 2
  {
    var head, tail := s[..j], s[j..];
    assert s == head + tail;
    assert head[i] in multiset(head) && tail[0] in multiset(tail);
  }

  lemma {:induction false} OnceCounts<T>(s: seq<T>, x: T)
    requires Once(s)
    ensures multiset(s)[x] <= 1
  {
    if s == [] {
    } else {
      var init, last := s[..|s| - 1], s[|s| - 1];
      assert s == init + [last];
      OnceCounts(init, x);
      if x == last {
        assert x !in init;
        assert multiset(init)[x] == 0;
      }
    }
  }

  lemma {:induction false} OnceWhenRearranged<T(!new)>(a: seq<T>, b: seq<T>)
    requires Once(a) && multiset(a) == multiset(b)
    ensures Once(b)
  {
    forall i, j | 0 <= i < j < |b|
      ensures b[i] != b[j]
    {
      OnceCounts(a, b[i]);
      TwiceCounts(b, i, j);
    }
  }

  /** Sorting different elements under a total order gives a strictly sorted sequence of the same elements. */
  lemma {:induction false} SortIsStrict<T(!new)>(less: (T, T) -> bool, s: seq<T>)
    requires Weak(less, s) && Comparable(less, s) && Once(s)
    ensures Strict(less, Sort(less, s)) && forall x :: x in Sort(less, s) <==> x in s
  {
    hide Sort, Weak, Once;
    var sorted := Sort(less, s);
    SortOrders(less, s);
    SortKeeps(less, s);
    OnceWhenRearranged(s, sorted);
    forall x: T
      ensures x in sorted <==> x in s
    {
      SameElement(sorted, s, x);
    }
    forall i, j | 0 <= i < j < |sorted|
      ensures less(sorted[i], sorted[j])
    {
      assert sorted[i] in sorted && sorted[j] in sorted;
    }
  }

  lemma {:induction false} StrictTail<T(!new)>(less: (T, T) -> bool, s: seq<T>)
    requires s != [] && Strict(less, s) && Asymmetric(less, s)
    ensures Strict(less, s[1..]) && Asymmetric(less, s[1..])
    ensures forall x :: x in s[1..] <==> x in s && x != s[0]
  {
    forall x: T
      ensures x in s[1..] <==> x in s && x != s[0]
    {
      if x in s && x != s[0] {
        var i :| 0 <= i < |s| && s[i] == x;
        assert s[1..][i - 1] == x;
      }
      if x in s[1..] {
        var i :| 0 <= i < |s[1..]| && s[1..][i] == x;
        assert s[i + 1] == x && s[0] in s;
        assert less(s[0], x);
      }
    }
  }

  /** A set of elements has one strictly sorted arrangement. */
  lemma {:induction false} StrictIsUnique<T(!new)>(less: (T, T) -> bool, a: seq<T>, b: seq<T>)
    requires Strict(less, a) && Strict(less, b) && Asymmetric(less, a) && forall x :: x in a <==> x in b
    ensures a == b
  {
    assert (a != [] ==> a[0] in a) && (b != [] ==> b[0] in b);
    if a != [] && b != [] {
      StrictHead(less, a, b);
      assert Asymmetric(less, b);
      StrictTail(less, a);
      StrictTail(less, b);
      hide Strict, Asymmetric;
      StrictIsUnique(less, a[1..], b[1..]);
      assert a == [a[0]] + a[1..] && b == [b[0]] + b[1..];
    }
  }

  lemma {:induction false} StrictHead<T(!new)>(less: (T, T) -> bool, a: seq<T>, b: seq<T>)
    requires Strict(less, a) && Strict(less, b) && Asymmetric(less, a) && forall x :: x in a <==> x in b
    requires a != [] && b != []
    ensures a[0] == b[0]
  {
    assert a[0] in a && b[0] in b;
    assert a[0] in b && b[0] in a;
    var i :| 0 <= i < |a| && a[i] == b[0];
    var j :| 0 <= j < |b| && b[j] == a[0];
  }
}
