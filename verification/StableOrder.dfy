/** The library's sort sorts: for a comparison that is an order, nothing is left out of order. */
module StableOrder {
  import opened Ordering
  import opened StableSort

  /** No element of `b` comes before one of `a`. */
  ghost predicate Apart<T(!new)>(less: (T, T) -> bool, a: seq<T>, b: seq<T>) {
    forall x, y :: x in a && y in b ==> !less(y, x)
  }

  lemma {:induction false} OrderedJoin<T(!new)>(less: (T, T) -> bool, a: seq<T>, b: seq<T>)
    requires Ordered(less, a) && Ordered(less, b) && Apart(less, a, b)
    ensures Ordered(less, a + b)
  {
    var s := a + b;
    forall i, j | 0 <= i < j < |s|
      ensures !less(s[j], s[i])
    {
      if i < |a| <= j {
        assert a[i] in a && b[j - |a|] in b;
      }
    }
  }

  lemma {:induction false} OrderedPart<T(!new)>(less: (T, T) -> bool, s: seq<T>, i: nat, j: nat)
    requires Ordered(less, s) && i <= j <= |s|
    ensures Ordered(less, s[i..j])
  {
  }

  lemma {:induction false} WeakPart<T(!new)>(less: (T, T) -> bool, part: seq<T>, s: seq<T>)
    requires Weak(less, s) && forall x :: x in part ==> x in s
    ensures Weak(less, part)
  {
  }

  /** An element put between two parts of an ordered sequence, where it fits with its neighbours. */
  lemma {:induction false} Between<T(!new)>(less: (T, T) -> bool, t: seq<T>, k: nat, x: T)
    requires k <= |t| && Ordered(less, t) && Weak(less, t + [x])
    requires k > 0 ==> !less(x, t[k - 1])
    requires k < |t| ==> !less(t[k], x)
    ensures Ordered(less, t[..k] + [x] + t[k..])
  {
    assert x in t + [x] && forall h :: 0 <= h < |t| ==> t[h] in t + [x];
    forall h | 0 <= h < |t|
      ensures h < k ==> !less(x, t[h])
      ensures h >= k ==> !less(t[h], x)
    {
      assert h < k - 1 ==> !less(t[k - 1], t[h]);
      assert h > k ==> !less(t[h], t[k]);
    }
    hide Weak;
    var a, b := t[..k], t[k..];
    OrderedPart(less, t, 0, k);
    OrderedPart(less, t, k, |t|);
    assert a == t[0..k] && b == t[k..|t|];
    assert Apart(less, a, [x]) && Apart(less, [x], b) && Apart(less, a, b);
    hide Ordered, Apart;
    SingleIsOrdered(less, x);
    OrderedJoin(less, a, [x]);
    ApartJoin(less, a, [x], b);
    OrderedJoin(less, a + [x], b);
  }

  lemma SingleIsOrdered<T(!new)>(less: (T, T) -> bool, x: T)
    ensures Ordered(less, [x])
  {
  }

  lemma ApartJoin<T(!new)>(less: (T, T) -> bool, a: seq<T>, b: seq<T>, c: seq<T>)
    requires Apart(less, a, c) && Apart(less, b, c)
    ensures Apart(less, a + b, c)
  {
  }

  lemma {:induction false} PutFirstSorts<T(!new)>(less: (T, T) -> bool, s: seq<T>)
    requires s != [] && Weak(less, s) && Ordered(less, s[1..])
    ensures Ordered(less, PutFirst(less, s))
  {
    hide Bisect, Ordered;
    var p := (h: nat) => h < |s| && less(s[h], s[0]);
    var i := Bisect(p, 1, |s|);
    var t := s[1..];
    assert i > 1 ==> p(i - 1);
    assert i < |s| ==> !p(i);
    assert s[0] in s && (i > 1 ==> s[i - 1] in s);
    assert i > 1 ==> !less(s[0], t[i - 2]);
    WeakPart(less, t + [s[0]], s);
    hide Weak;
    Between(less, t, i - 1, s[0]);
    assert t[..i - 1] == s[1..i] && t[i - 1..] == s[i..];
  }

  lemma {:induction false} PutLastSorts<T(!new)>(less: (T, T) -> bool, s: seq<T>)
    requires s != [] && Weak(less, s) && Ordered(less, s[..|s| - 1])
    ensures Ordered(less, PutLast(less, s))
  {
    hide Bisect, Ordered;
    var m := |s| - 1;
    var p := (h: nat) => h < |s| && !less(s[m], s[h]);
    var i := Bisect(p, 0, m);
    var t := s[..m];
    assert i > 0 ==> p(i - 1);
    assert i < m ==> !p(i);
    assert s[m] in s && (i < m ==> s[i] in s);
    assert i < m ==> !less(t[i], s[m]);
    WeakPart(less, t + [s[m]], s);
    hide Weak;
    Between(less, t, i, s[m]);
    assert t[..i] == s[..i] && t[i..] == s[i..m];
  }

  /** What the split point is: partners on its left stay, the next one does not. */
  lemma {:induction false} SplitMeans<T>(less: (T, T) -> bool, s: seq<T>, m: nat)
    requires 1 < m && m + 1 < |s|
    ensures var start := SplitPoint(less, s, m); var end := |s| / 2 + m - start;
            && (start > 0 && end < |s| ==> !less(s[end], s[start - 1]))
            && (start < m < end ==> less(s[end - 1], s[start]))
  {
    hide Bisect;
    var mid := |s| / 2;
    var n := mid + m;
    var stays := (c: nat) => Stays(less, s, n, c);
    var from, to := if m > mid then n - |s| else 0, if m > mid then mid else m;
    var start := Bisect(stays, from, to);
    assert start == SplitPoint(less, s, m) by {
      hide Stays;
    }
    assert start > from ==> stays(start - 1);
    assert start < to ==> !stays(start);
  }

  lemma {:induction false} HalvesApart<T(!new)>(less: (T, T) -> bool, s: seq<T>, m: nat)
    requires 1 < m && m + 1 < |s| && Weak(less, s) && Ordered(less, s[..m]) && Ordered(less, s[m..])
    ensures var start := SplitPoint(less, s, m); Apart(less, Low(s, m, start), High(s, m, start))
  {
    hide SplitPoint, Weak, Ordered, Low, High, Apart;
    SplitMeans(less, s, m);
    PartsApart(less, s, m, SplitPoint(less, s, m));
  }

  lemma {:induction false} PartsApart<T(!new)>(less: (T, T) -> bool, s: seq<T>, m: nat, start: nat)
    requires start <= m <= |s| && start <= |s| / 2 && |s| / 2 + m - start <= |s|
    requires Weak(less, s) && Ordered(less, s[..m]) && Ordered(less, s[m..])
    requires var end := |s| / 2 + m - start;
             && (start > 0 && end < |s| ==> !less(s[end], s[start - 1]))
             && (start < m < end ==> less(s[end - 1], s[start]))
    ensures Apart(less, Low(s, m, start), High(s, m, start))
  {
    hide Weak, Ordered, Low, High;
    var low, high, end := Low(s, m, start), High(s, m, start), |s| / 2 + m - start;
    forall x, y | x in low && y in high
      ensures !less(y, x)
    {
      var i := PlaceInLow(s, m, start, x);
      var j := PlaceInHigh(s, m, start, y);
      Compared(less, s, m, start, end, i, j);
    }
  }

  lemma {:induction false} PlaceInLow<T>(s: seq<T>, m: nat, start: nat, x: T) returns (i: nat)
    requires start <= m <= |s| && start <= |s| / 2 && |s| / 2 + m - start <= |s| && x in Low(s, m, start)
    ensures i < |s| && s[i] == x && (i < start || m <= i < |s| / 2 + m - start)
  {
    var a :| 0 <= a < |s| / 2 && Low(s, m, start)[a] == x;
    i := if a < start then a else m + a - start;
  }

  lemma {:induction false} PlaceInHigh<T>(s: seq<T>, m: nat, start: nat, x: T) returns (i: nat)
    requires start <= m <= |s| && start <= |s| / 2 && |s| / 2 + m - start <= |s| && x in High(s, m, start)
    ensures i < |s| && s[i] == x && (start <= i < m || |s| / 2 + m - start <= i)
  {
    var high := High(s, m, start);
    var a :| 0 <= a < |high| && high[a] == x;
    i := if a < m - start then start + a else |s| / 2 + a;
  }

  lemma {:induction false} Compared<T(!new)>(
    less: (T, T) -> bool, s: seq<T>, m: nat, start: nat, end: nat, i: nat, j: nat)
    requires start <= m <= end <= |s| && Weak(less, s) && Ordered(less, s[..m]) && Ordered(less, s[m..])
    requires start > 0 && end < |s| ==> !less(s[end], s[start - 1])
    requires start < m < end ==> less(s[end - 1], s[start])
    requires i < |s| && j < |s| && (i < start || m <= i < end) && (start <= j < m || end <= j)
    ensures !less(s[j], s[i])
  {
    var l, r := s[..m], s[m..];
    assert s[i] in s && s[j] in s;
    if i < start && j < m {
      assert !less(l[j], l[i]);
    } else if i < start {
      assert i < start - 1 ==> !less(l[start - 1], l[i]);
      assert j > end ==> !less(r[j - m], r[end - m]);
      assert s[start - 1] in s && s[end] in s;
    } else if j < m {
      assert i < end - 1 ==> !less(r[end - 1 - m], r[i - m]);
      assert j > start ==> !less(l[j], l[start]);
      assert s[end - 1] in s && s[start] in s;
    } else {
      assert !less(r[j - m], r[i - m]);
    }
  }

  lemma {:induction false} HalvesOrdered<T(!new)>(less: (T, T) -> bool, s: seq<T>, m: nat, start: nat)
    requires start <= m <= |s| && start <= |s| / 2 && |s| / 2 + m - start <= |s|
    requires Ordered(less, s[..m]) && Ordered(less, s[m..])
    ensures var low, high := Low(s, m, start), High(s, m, start);
            && Ordered(less, low[..start]) && Ordered(less, low[start..])
            && Ordered(less, high[..m - start]) && Ordered(less, high[m - start..])
            && (forall x :: x in low ==> x in s) && forall x :: x in high ==> x in s
  {
    var l, r, end := s[..m], s[m..], |s| / 2 + m - start;
    var low, high := Low(s, m, start), High(s, m, start);
    OrderedPart(less, l, 0, start);
    OrderedPart(less, l, start, m);
    OrderedPart(less, r, 0, end - m);
    OrderedPart(less, r, end - m, |r|);
    assert low[..start] == l[0..start] && low[start..] == r[0..end - m];
    assert high[..m - start] == l[start..m] && high[m - start..] == r[end - m..|r|];
  }

  /** Merging two parts in order gives a whole in order. */
  lemma {:induction false} MergeSorts<T(!new)>(less: (T, T) -> bool, s: seq<T>, m: nat)
    requires m <= |s| && Weak(less, s) && Ordered(less, s[..m]) && Ordered(less, s[m..])
    ensures Ordered(less, MergePart(less, s, m))
    decreases |s|
  {
    if !(0 < m < |s|) {
      assert s[..m] == s || s[m..] == s;
    } else if m == 1 {
      PutFirstSorts(less, s);
    } else if m + 1 == |s| {
      assert s[..m] == s[..|s| - 1];
      PutLastSorts(less, s);
    } else {
      var start := SplitPoint(less, s, m);
      var low, high := Low(s, m, start), High(s, m, start);
      var left, right := MergePart(less, low, start), MergePart(less, high, m - start);
      assert MergePart(less, s, m) == left + right;
      hide PutFirst, PutLast, MergePart, SymMerge, SplitPoint;
      HalvesOrdered(less, s, m, start);
      HalvesApart(less, s, m);
      WeakPart(less, low, s);
      WeakPart(less, high, s);
      MergeSorts(less, low, start);
      MergeSorts(less, high, m - start);
      MergeKeeps(less, low, start);
      MergeKeeps(less, high, m - start);
      StillApart(less, low, high, left, right);
      OrderedJoin(less, left, right);
    }
  }

  lemma {:induction false} StillApart<T(!new)>(less: (T, T) -> bool, a: seq<T>, b: seq<T>, c: seq<T>, d: seq<T>)
    requires Apart(less, a, b) && multiset(a) == multiset(c) && multiset(b) == multiset(d)
    ensures Apart(less, c, d)
  {
    forall x, y | x in c && y in d
      ensures !less(y, x)
    {
      SameElement(a, c, x);
      SameElement(b, d, y);
    }
  }

  // ---- Blocks and rounds ----

  /** Every block of the sequence is in order. */
  ghost predicate Blocks<T(!new)>(less: (T, T) -> bool, s: seq<T>, size: nat)
    requires size > 0
    decreases |s|
  {
    if |s| <= size then Ordered(less, s) else Ordered(less, s[..size]) && Blocks(less, s[size..], size)
  }

  lemma {:induction false} SortedBlocks<T(!new)>(less: (T, T) -> bool, s: seq<T>, size: nat)
    requires size > 0 && Weak(less, s)
    ensures Blocks(less, SortBlocks(less, s, size), size)
    decreases |s|
  {
    hide Ordered, Weak;
    if |s| <= size {
      SortOrders(less, s);
      SortKeeps(less, s);
    } else {
      WeakPart(less, s[..size], s);
      WeakPart(less, s[size..], s);
      SortOrders(less, s[..size]);
      SortKeeps(less, s[..size]);
      SortedBlocks(less, s[size..], size);
      var all, rest := SortBlocks(less, s, size), SortBlocks(less, s[size..], size);
      BlocksKeep(less, s[size..], size);
      SameSize(rest, s[size..]);
      assert all[..size] == Sort(less, s[..size]) && all[size..] == rest;
    }
  }

  lemma {:induction false} PairSorts<T(!new)>(less: (T, T) -> bool, s: seq<T>, size: nat)
    requires 0 < size < |s| && Weak(less, s) && Ordered(less, s[..size]) && Ordered(less, s[size..])
    ensures Ordered(less, SymMerge(less, s, size))
  {
    hide Ordered, Weak, SymMerge;
    MergeSorts(less, s, size);
  }

  lemma {:induction false} PassSorts<T(!new)>(less: (T, T) -> bool, s: seq<T>, size: nat)
    requires size > 0 && Weak(less, s) && Blocks(less, s, size)
    ensures Blocks(less, MergePass(less, s, size), 2 * size)
    decreases |s|
  {
    hide Ordered, Weak, SymMerge;
    if |s| <= size {
    } else if |s| < 2 * size {
      PairSorts(less, s, size);
    } else {
      var n := 2 * size;
      var pair, rest := s[..n], s[n..];
      WeakPart(less, pair, s);
      WeakPart(less, rest, s);
      assert pair[..size] == s[..size] && pair[size..] == s[size..][..size] && s[size..][size..] == rest;
      SecondInOrder(less, s[size..], size);
      PairSorts(less, pair, size);
      PassSorts(less, rest, size);
      var all := MergePass(less, s, size);
      assert all[..n] == SymMerge(less, pair, size) && all[n..] == MergePass(less, rest, size);
      assert |s| == n ==> all == all[..n];
    }
  }

  lemma {:induction false} SecondInOrder<T(!new)>(less: (T, T) -> bool, s: seq<T>, size: nat)
    requires 0 < size <= |s| && Blocks(less, s, size)
    ensures Ordered(less, s[..size]) && Blocks(less, s[size..], size)
  {
    if |s| == size {
      assert s[..size] == s;
    }
  }

  lemma {:induction false} RoundsSort<T(!new)>(less: (T, T) -> bool, s: seq<T>, size: nat)
    requires size > 0 && Weak(less, s) && Blocks(less, s, size)
    ensures Ordered(less, Rounds(less, s, size))
    decreases |s| - size
  {
    hide Ordered, Weak, MergePass;
    if size >= |s| {
    } else {
      PassSorts(less, s, size);
      PassKeeps(less, s, size);
      var next := MergePass(less, s, size);
      forall x | x in next
        ensures x in s
      {
        SameElement(next, s, x);
      }
      WeakPart(less, next, s);
      RoundsSort(less, next, 2 * size);
    }
  }

  /** For a comparison that is a weak order on the elements, the result is in order. */
  lemma {:induction false} SliceStableSorts<T(!new)>(less: (T, T) -> bool, s: seq<T>)
    requires Weak(less, s)
    ensures Ordered(less, SliceStable(less, s)) && multiset(SliceStable(less, s)) == multiset(s)
  {
    hide Ordered, Weak, SortBlocks, Rounds;
    var b := SortBlocks(less, s, BLOCK);
    SortedBlocks(less, s, BLOCK);
    BlocksKeep(less, s, BLOCK);
    forall x | x in b
      ensures x in s
    {
      SameElement(b, s, x);
    }
    WeakPart(less, b, s);
    RoundsSort(less, b, BLOCK);
    hide SliceStable;
    StableKeeps(less, s);
  }
}
