/**
 Go's `sort.SliceStable`: insertion sort of blocks of twenty, then rounds of the in-place
 merge SymMerge.  The comparison may be any; what is shown is which element comes first.
 */
module StableSort {
  import opened Wrappers
  import opened Ordering

  const BLOCK := 20

  // ---- The algorithm ----

  /** The binary search of the merge: `p` should hold below the result and not from it on. */
  function Bisect(p: nat -> bool, i: nat, j: nat): (r: nat)
    requires i <= j
    ensures i <= r <= j && (r == i || p(r - 1)) && (r == j || !p(r))
    decreases j - i
  {
    if i == j then i
    else
      var h := (i + j) / 2;
      if p(h) then Bisect(p, h + 1, j) else Bisect(p, i, h)
  }

  /** The element at `c` of the left part is not beaten by its partner at `n - 1 - c` in the right part. */
  predicate Stays<T>(less: (T, T) -> bool, s: seq<T>, n: nat, c: nat) {
    c < |s| && c < n && n - 1 - c < |s| && !less(s[n - 1 - c], s[c])
  }

  /** Where the general step splits the left part; its partner in the right part is `|s| / 2 + m - start`. */
  function SplitPoint<T>(less: (T, T) -> bool, s: seq<T>, m: nat): (start: nat)
    requires 1 < m && m + 1 < |s|
    ensures start <= m && start <= |s| / 2 && |s| / 2 + m - start <= |s|
  {
    var mid := |s| / 2;
    var n := mid + m;
    var stays := (c: nat) => Stays(less, s, n, c);
    if m > mid then Bisect(stays, n - |s|, mid) else Bisect(stays, 0, m)
  }

  /** Puts the first element in its place among the others. */
  function PutFirst<T>(less: (T, T) -> bool, s: seq<T>): (r: seq<T>)
    requires s != []
    ensures |r| == |s|
  {
    var i := Bisect((h: nat) => h < |s| && less(s[h], s[0]), 1, |s|);
    s[1..i] + [s[0]] + s[i..]
  }

  /** Puts the last element in its place among the others. */
  function PutLast<T>(less: (T, T) -> bool, s: seq<T>): (r: seq<T>)
    requires s != []
    ensures |r| == |s|
  {
    var m := |s| - 1;
    var i := Bisect((h: nat) => h < |s| && !less(s[m], s[h]), 0, m);
    s[..i] + [s[m]] + s[i..m]
  }

  /** The front half of the rearranged parts. */
  function Low<T>(s: seq<T>, m: nat, start: nat): (low: seq<T>)
    requires start <= m <= |s| && start <= |s| / 2 && |s| / 2 + m - start <= |s|
    ensures |low| == |s| / 2
  {
    s[..start] + s[m..|s| / 2 + m - start]
  }

  function High<T>(s: seq<T>, m: nat, start: nat): (high: seq<T>)
    requires start <= m <= |s| && start <= |s| / 2 && |s| / 2 + m - start <= |s|
    ensures |high| == |s| - |s| / 2
  {
    s[start..m] + s[|s| / 2 + m - start..]
  }

  /** Merges `s[..m]` with `s[m..]`. */
  function SymMerge<T>(less: (T, T) -> bool, s: seq<T>, m: nat): (r: seq<T>)
    requires 0 < m < |s|
    ensures |r| == |s|
    decreases |s|, 0
  {
    if m == 1 then PutFirst(less, s)
    else if m + 1 == |s| then PutLast(less, s)
    else
      var start := SplitPoint(less, s, m);
      MergePart(less, Low(s, m, start), start) + MergePart(less, High(s, m, start), m - start)
  }

  /** The same where one of the two may be empty. */
  function MergePart<T>(less: (T, T) -> bool, s: seq<T>, m: nat): (r: seq<T>)
    ensures |r| == |s|
    decreases |s|, 1
  {
    if 0 < m < |s| then SymMerge(less, s, m) else s
  }

  function SortBlocks<T>(less: (T, T) -> bool, s: seq<T>, size: nat): seq<T>
    requires size > 0
    decreases |s|
  {
    if |s| <= size then Sort(less, s) else Sort(less, s[..size]) + SortBlocks(less, s[size..], size)
  }

  /** One round: every two neighbouring blocks become one. */
  function MergePass<T>(less: (T, T) -> bool, s: seq<T>, size: nat): (r: seq<T>)
    requires size > 0
    ensures |r| == |s|
    decreases |s|
  {
    if |s| >= 2 * size then SymMerge(less, s[..2 * size], size) + MergePass(less, s[2 * size..], size)
    else if |s| > size then SymMerge(less, s, size)
    else s
  }

  function Rounds<T>(less: (T, T) -> bool, s: seq<T>, size: nat): seq<T>
    requires size > 0
    decreases |s| - size
  {
    if size >= |s| then s else Rounds(less, MergePass(less, s, size), 2 * size)
  }

  function SliceStable<T>(less: (T, T) -> bool, s: seq<T>): seq<T> {
    Rounds(less, SortBlocks(less, s, BLOCK), BLOCK)
  }

  /** Up to twenty elements the sort is an insertion sort. */
  lemma ShortIsInsertion<T>(less: (T, T) -> bool, s: seq<T>)
    requires |s| <= 20
    ensures SliceStable(less, s) == Sort(less, s)
  {
    SortKeeps(less, s);
  }

  /** Up to forty elements it is one merge of two of them. */
  lemma {:induction false} TwoBlocksAreMerged<T>(less: (T, T) -> bool, s: seq<T>)
    requires 20 < |s| <= 40
    ensures |Sort(less, s[..20])| == 20
    ensures SliceStable(less, s) == SymMerge(less, Sort(less, s[..20]) + Sort(less, s[20..]), 20)
  {
    hide SymMerge;
    SortKeeps(less, s[..20]);
    SortKeeps(less, s[20..]);
    var b := Sort(less, s[..20]) + Sort(less, s[20..]);
    assert SortBlocks(less, s, BLOCK) == b;
    assert |b| == 40 ==> b[..40] == b && MergePass(less, b[40..], BLOCK) == [];
    assert MergePass(less, b, BLOCK) == SymMerge(less, b, 20);
    assert Rounds(less, SymMerge(less, b, 20), 40) == SymMerge(less, b, 20);
  }

  // ---- The merge is a rearrangement ----

  lemma {:induction false} MovedBack<T>(s: seq<T>, i: nat)
    requires 1 <= i <= |s|
    ensures multiset(s[1..i] + [s[0]] + s[i..]) == multiset(s)
  {
    assert s == [s[0]] + s[1..i] + s[i..];
  }

  lemma {:induction false} MovedUp<T>(s: seq<T>, i: nat)
    requires i < |s|
    ensures multiset(s[..i] + [s[|s| - 1]] + s[i..|s| - 1]) == multiset(s)
  {
    assert s == s[..i] + s[i..|s| - 1] + [s[|s| - 1]];
  }

  lemma {:induction false} PutFirstKeeps<T>(less: (T, T) -> bool, s: seq<T>)
    requires s != []
    ensures multiset(PutFirst(less, s)) == multiset(s)
  {
    hide Bisect;
    MovedBack(s, Bisect((h: nat) => h < |s| && less(s[h], s[0]), 1, |s|));
  }

  lemma {:induction false} PutLastKeeps<T>(less: (T, T) -> bool, s: seq<T>)
    requires s != []
    ensures multiset(PutLast(less, s)) == multiset(s)
  {
    hide Bisect;
    var m := |s| - 1;
    MovedUp(s, Bisect((h: nat) => h < |s| && !less(s[m], s[h]), 0, m));
  }

  lemma {:induction false} HalvesKeep<T>(s: seq<T>, m: nat, start: nat)
    requires start <= m <= |s| && start <= |s| / 2 && |s| / 2 + m - start <= |s|
    ensures multiset(Low(s, m, start)) + multiset(High(s, m, start)) == multiset(s)
  {
    var end := |s| / 2 + m - start;
    assert s == s[..start] + s[start..m] + s[m..end] + s[end..];
  }

  lemma {:induction false} MergeKeeps<T>(less: (T, T) -> bool, s: seq<T>, m: nat)
    ensures multiset(MergePart(less, s, m)) == multiset(s)
    decreases |s|
  {
    if !(0 < m < |s|) {
    } else if m == 1 {
      PutFirstKeeps(less, s);
    } else if m + 1 == |s| {
      PutLastKeeps(less, s);
    } else {
      var start := SplitPoint(less, s, m);
      var low, high := Low(s, m, start), High(s, m, start);
      var left, right := MergePart(less, low, start), MergePart(less, high, m - start);
      assert SymMerge(less, s, m) == left + right;
      hide PutFirst, PutLast, Low, High, SplitPoint, MergePart, SymMerge;
      HalvesKeep(s, m, start);
      MergeKeeps(less, low, start);
      MergeKeeps(less, high, m - start);
      assert multiset(left + right) == multiset(left) + multiset(right);
    }
  }

  // ---- Which element comes first ----

  lemma {:induction false} PutFirstHead<T>(less: (T, T) -> bool, s: seq<T>) returns (j: nat)
    requires |s| >= 2
    ensures 1 <= j < |s|
    ensures var r := PutFirst(less, s);
            (r[0] == s[1] && less(s[j], s[0])) || (r[0] == s[0] && !less(s[1], s[0]))
  {
    hide Bisect;
    var p := (h: nat) => h < |s| && less(s[h], s[0]);
    var i := Bisect(p, 1, |s|);
    j := if i == 1 then 1 else i - 1;
    assert i > 1 ==> p(i - 1);
    assert i == 1 ==> !p(1);
  }

  lemma {:induction false} PutLastHead<T>(less: (T, T) -> bool, s: seq<T>) returns (j: nat)
    requires |s| >= 2
    ensures j < |s| - 1
    ensures var r, last := PutLast(less, s), s[|s| - 1];
            (r[0] == last && less(last, s[0])) || (r[0] == s[0] && !less(last, s[j]))
  {
    hide Bisect;
    var m := |s| - 1;
    var p := (h: nat) => h < |s| && !less(s[m], s[h]);
    var i := Bisect(p, 0, m);
    j := if i == 0 then 0 else i - 1;
    assert i > 0 ==> p(i - 1);
    assert i == 0 ==> !p(0);
  }

  /** If nothing of the left part stays in front, something beats its head. */
  lemma {:induction false} NothingStays<T>(less: (T, T) -> bool, s: seq<T>, m: nat)
    requires 1 < m && m + 1 < |s| && SplitPoint(less, s, m) == 0
    ensures var j := |s| / 2 + m - 1; m <= j < |s| && less(s[j], s[0])
  {
    hide Bisect;
    var n := |s| / 2 + m;
    assert !Stays(less, s, n, 0);
  }

  /** If nothing of the right part comes to the front, its head fails to beat something. */
  lemma {:induction false} NothingComes<T>(less: (T, T) -> bool, s: seq<T>, m: nat)
    requires 1 < m && m + 1 < |s| && SplitPoint(less, s, m) == |s| / 2
    ensures var j := |s| / 2 - 1; j < m && !less(s[m], s[j])
  {
    hide Bisect;
    var mid := |s| / 2;
    var n := mid + m;
    var stays := (c: nat) => Stays(less, s, n, c);
    var from := if m > mid then n - |s| else 0;
    assert from < mid <= m && Bisect(stays, from, mid) == mid by {
      hide Stays;
    }
    assert stays(mid - 1);
  }

  /**
   The first element of a merge: the head of the right part, and then something of it
   beats the head of the left part; or the head of the left part, and then the head of the
   right part does not beat all of the left; or the first of a smaller merge.
   */
  lemma {:induction false} MergeHead<T>(less: (T, T) -> bool, s: seq<T>, m: nat) returns (start: nat, j: nat)
    requires 0 < m < |s|
    ensures var r := SymMerge(less, s, m);
            || (r[0] == s[m] && m <= j < |s| && less(s[j], s[0]))
            || (r[0] == s[0] && j < m && !less(s[m], s[j]))
            || (&& 0 < start <= m < j <= |s| && start + j - m < |s|
                && r[0] == SymMerge(less, s[..start] + s[m..j], start)[0])
  {
    hide PutFirst, PutLast, SplitPoint;
    start := 0;
    if m == 1 {
      j := PutFirstHead(less, s);
      if !less(s[j], s[0]) || SymMerge(less, s, m)[0] != s[m] {
        j := 0;
      }
    } else if m + 1 == |s| {
      j := PutLastHead(less, s);
      if less(s[m], s[j]) || SymMerge(less, s, m)[0] != s[0] {
        j := m;
      }
    } else {
      var mid := |s| / 2;
      start := SplitPoint(less, s, m);
      if start == 0 {
        NothingStays(less, s, m);
      } else if start == mid {
        NothingComes(less, s, m);
      }
      j := if start == 0 then mid + m - 1 else if start == mid then mid - 1 else mid + m - start;
      assert Low(s, m, start) == s[..start] + s[m..mid + m - start];
      assert start == 0 ==> Low(s, m, start)[0] == s[m];
      assert start > 0 ==> Low(s, m, start)[0] == s[0];
    }
  }

  // ---- Leaders ----

  /** A leader beats every other element and is beaten by none of them; if `strong`, not even by another leader. */
  ghost predicate Leading<T(!new)>(less: (T, T) -> bool, top: T -> bool, strong: bool, s: seq<T>) {
    forall x, y :: x in s && y in s && top(x) ==> (!top(y) ==> less(x, y) && !less(y, x)) && (strong ==> !less(y, x))
  }

  ghost predicate HasTop<T(!new)>(top: T -> bool, s: seq<T>) {
    exists x :: x in s && top(x)
  }

  lemma {:induction false} MergeLeads<T(!new)>(less: (T, T) -> bool, top: T -> bool, strong: bool, s: seq<T>, m: nat)
    requires 0 < m < |s| && Leading(less, top, strong, s)
    requires (HasTop(top, s[..m]) ==> top(s[0])) && (HasTop(top, s[m..]) ==> top(s[m]))
    ensures var head := SymMerge(less, s, m)[0];
            && (HasTop(top, s) ==> top(head))
            && (strong && top(s[0]) ==> head == s[0])
            && (strong && !HasTop(top, s[..m]) && top(s[m]) ==> head == s[m])
    decreases |s|
  {
    hide SymMerge;
    var head := SymMerge(less, s, m)[0];
    var start, j := MergeHead(less, s, m);
    assert s[0] in s[..m] && s[m] in s[m..] && s[0] in s && s[m] in s;
    assert HasTop(top, s) ==> HasTop(top, s[..m]) || HasTop(top, s[m..]) by {
      assert s == s[..m] + s[m..];
    }
    if head == s[m] && m <= j < |s| && less(s[j], s[0]) {
      assert s[j] in s[m..] && s[j] in s;
    } else if head == s[0] && j < m && !less(s[m], s[j]) {
      assert s[j] in s[..m] && s[j] in s;
    } else {
      var t := s[..start] + s[m..j];
      assert t[0] == s[0] && t[start] == s[m] && t[..start] == s[..start] && t[start..] == s[m..j];
      assert forall x :: x in s[..start] ==> x in s[..m];
      assert forall x :: x in s[m..j] ==> x in s[m..];
      assert forall x :: x in t ==> x in s;
      assert t[0] in t && t[start] in t;
      MergeLeads(less, top, strong, t, start);
    }
  }

  /** The first leader. */
  ghost function FirstTop<T>(top: T -> bool, s: seq<T>): Option<T> {
    if s == [] then None else if top(s[0]) then Some(s[0]) else FirstTop(top, s[1..])
  }

  lemma {:induction false} FirstTopIs<T(!new)>(top: T -> bool, s: seq<T>)
    ensures FirstTop(top, s).Some? <==> HasTop(top, s)
    ensures FirstTop(top, s).Some? ==> top(FirstTop(top, s).value) && FirstTop(top, s).value in s
  {
    if s == [] {
    } else {
      FirstTopIs(top, s[1..]);
      assert s == [s[0]] + s[1..];
    }
  }

  lemma {:induction false} FirstTopJoin<T(!new)>(top: T -> bool, a: seq<T>, b: seq<T>)
    ensures FirstTop(top, a + b) == if FirstTop(top, a).Some? then FirstTop(top, a) else FirstTop(top, b)
  {
    if a == [] {
      assert a + b == b;
    } else {
      assert (a + b)[1..] == a[1..] + b;
      FirstTopJoin(top, a[1..], b);
    }
  }

  /** `b` is a rearrangement of `a` in which a leader comes first, if `strong` the first of `a`. */
  ghost predicate Led<T(!new)>(top: T -> bool, strong: bool, a: seq<T>, b: seq<T>) {
    && multiset(a) == multiset(b)
    && (FirstTop(top, a).Some? ==> b != [] && top(b[0]) && (strong ==> b[0] == FirstTop(top, a).value))
  }

  lemma {:induction false} LedHasTop<T(!new)>(top: T -> bool, strong: bool, a: seq<T>, b: seq<T>)
    requires Led(top, strong, a, b)
    ensures HasTop(top, b) <==> FirstTop(top, a).Some?
    ensures HasTop(top, b) ==> b != [] && top(b[0])
  {
    FirstTopIs(top, a);
    forall x: T
      ensures x in a <==> x in b
    {
      SameElement(a, b, x);
    }
  }

  /** Merging two parts that are led gives one that is led. */
  lemma {:induction false} LedMerge<T(!new)>(
    less: (T, T) -> bool, top: T -> bool, strong: bool, a: seq<T>, b: seq<T>, c: seq<T>, d: seq<T>)
    requires Led(top, strong, a, b) && Led(top, strong, c, d) && b != [] && d != []
    requires Leading(less, top, strong, b + d)
    ensures Led(top, strong, a + c, SymMerge(less, b + d, |b|))
  {
    var s, m := b + d, |b|;
    assert s[..m] == b && s[m..] == d && s[0] == b[0] && s[m] == d[0];
    assert multiset(a + c) == multiset(s);
    LedHasTop(top, strong, a, b);
    LedHasTop(top, strong, c, d);
    FirstTopJoin(top, a, c);
    hide SymMerge, Leading;
    MergeLeads(less, top, strong, s, m);
    MergeKeeps(less, s, m);
    assert MergePart(less, s, m) == SymMerge(less, s, m);
    assert HasTop(top, b) ==> HasTop(top, s) by {
      assert forall x :: x in b ==> x in s;
    }
    assert HasTop(top, d) ==> HasTop(top, s) by {
      assert forall x :: x in d ==> x in s;
    }
  }

  // ---- Insertion ----

  lemma {:induction false} BeatsAll<T(!new)>(less: (T, T) -> bool, s: seq<T>, x: T)
    requires forall y :: y in s ==> less(x, y)
    ensures Insert(less, s, x) != [] && Insert(less, s, x)[0] == x
  {
    if s == [] {
    } else {
      assert forall y :: y in s[..|s| - 1] ==> y in s;
      BeatsAll(less, s[..|s| - 1], x);
      assert s[|s| - 1] in s;
    }
  }

  lemma {:induction false} LedInsert<T(!new)>(
    less: (T, T) -> bool, top: T -> bool, strong: bool, a: seq<T>, b: seq<T>, x: T)
    requires Led(top, strong, a, b) && Leading(less, top, strong, b + [x])
    ensures Led(top, strong, a + [x], Insert(less, b, x))
  {
    InsertKeeps(less, b, x);
    LedHasTop(top, strong, a, b);
    FirstTopJoin(top, a, [x]);
    assert FirstTop(top, [x]) == if top(x) then Some(x) else None by {
      assert [x][1..] == [];
    }
    assert forall y :: y in b + [x] <==> y in b || y == x;
    hide Insert;
    if HasTop(top, b) {
      InsertHeadCases(less, b, x, b[0]);
    } else if top(x) {
      BeatsAll(less, b, x);
    }
  }

  lemma LeadingPart<T(!new)>(less: (T, T) -> bool, top: T -> bool, strong: bool, part: seq<T>, s: seq<T>)
    requires Leading(less, top, strong, s) && forall x :: x in part ==> x in s
    ensures Leading(less, top, strong, part)
  {
  }

  lemma {:induction false} LedSort<T(!new)>(less: (T, T) -> bool, top: T -> bool, strong: bool, s: seq<T>)
    requires Leading(less, top, strong, s)
    ensures Led(top, strong, s, Sort(less, s))
  {
    if s == [] {
    } else {
      var init, last := s[..|s| - 1], s[|s| - 1];
      assert s == init + [last];
      hide Leading, Led;
      LeadingPart(less, top, strong, init, s);
      LedSort(less, top, strong, init);
      SortKeeps(less, init);
      forall x | x in Sort(less, init) + [last]
        ensures x in s
      {
        SameElement(Sort(less, init), init, x);
      }
      LeadingPart(less, top, strong, Sort(less, init) + [last], s);
      LedInsert(less, top, strong, init, Sort(less, init), last);
    }
  }

  // ---- Blocks and rounds ----

  /** Every block of `s` is led by a leader of the same block of `a`. */
  ghost predicate LedBlocks<T(!new)>(top: T -> bool, strong: bool, a: seq<T>, s: seq<T>, size: nat)
    requires size > 0
    decreases |s|
  {
    && |a| == |s|
    && if |s| <= size then Led(top, strong, a, s)
       else Led(top, strong, a[..size], s[..size]) && LedBlocks(top, strong, a[size..], s[size..], size)
  }

  lemma {:induction false} BlocksAreLed<T(!new)>(
    less: (T, T) -> bool, top: T -> bool, strong: bool, s: seq<T>, size: nat)
    requires size > 0 && Leading(less, top, strong, s)
    ensures LedBlocks(top, strong, s, SortBlocks(less, s, size), size)
    decreases |s|
  {
    hide Led, Leading;
    if |s| <= size {
      LedSort(less, top, strong, s);
      SortKeeps(less, s);
    } else {
      var front, rest := s[..size], s[size..];
      LeadingPart(less, top, strong, front, s);
      LeadingPart(less, top, strong, rest, s);
      LedSort(less, top, strong, front);
      SortKeeps(less, front);
      BlocksAreLed(less, top, strong, rest, size);
      var all := SortBlocks(less, s, size);
      assert all[..size] == Sort(less, front) && all[size..] == SortBlocks(less, rest, size);
    }
  }

  lemma {:induction false} LedBlocksKeep<T(!new)>(top: T -> bool, strong: bool, a: seq<T>, s: seq<T>, size: nat)
    requires size > 0 && LedBlocks(top, strong, a, s, size)
    ensures multiset(a) == multiset(s)
    decreases |s|
  {
    if |s| <= size {
    } else {
      LedBlocksKeep(top, strong, a[size..], s[size..], size);
      assert a == a[..size] + a[size..] && s == s[..size] + s[size..];
    }
  }

  /** A round merges the two blocks of a pair. */
  lemma {:induction false} PairIsLed<T(!new)>(
    less: (T, T) -> bool, top: T -> bool, strong: bool, a: seq<T>, s: seq<T>, size: nat)
    requires 0 < size < |s| <= 2 * size && |a| == |s| && Leading(less, top, strong, s)
    requires Led(top, strong, a[..size], s[..size]) && Led(top, strong, a[size..], s[size..])
    ensures Led(top, strong, a, SymMerge(less, s, size))
  {
    hide Led, Leading;
    assert s == s[..size] + s[size..] && a == a[..size] + a[size..];
    LedMerge(less, top, strong, a[..size], s[..size], a[size..], s[size..]);
  }

  lemma {:induction false} PassKeepsLeaders<T(!new)>(
    less: (T, T) -> bool, top: T -> bool, strong: bool, a: seq<T>, s: seq<T>, size: nat)
    requires size > 0 && LedBlocks(top, strong, a, s, size) && Leading(less, top, strong, s)
    ensures LedBlocks(top, strong, a, MergePass(less, s, size), 2 * size)
    decreases |s|
  {
    hide Led, Leading, SymMerge;
    if |s| <= size {
    } else if |s| < 2 * size {
      PairIsLed(less, top, strong, a, s, size);
    } else {
      var n := 2 * size;
      var front, rest := s[..n], s[n..];
      LeadingPart(less, top, strong, front, s);
      LeadingPart(less, top, strong, rest, s);
      assert front[..size] == s[..size] && front[size..] == s[size..][..size];
      assert a[..n][..size] == a[..size] && a[..n][size..] == a[size..][..size];
      assert s[size..][size..] == rest && a[size..][size..] == a[n..];
      SecondBlock(top, strong, a[size..], s[size..], size);
      PairIsLed(less, top, strong, a[..n], front, size);
      PassKeepsLeaders(less, top, strong, a[n..], rest, size);
      var all := MergePass(less, s, size);
      assert all[..n] == SymMerge(less, front, size) && all[n..] == MergePass(less, rest, size);
      if |s| == n {
        assert all == SymMerge(less, front, size) && a[..n] == a;
      }
    }
  }

  lemma {:induction false} SecondBlock<T(!new)>(top: T -> bool, strong: bool, a: seq<T>, s: seq<T>, size: nat)
    requires size > 0 && |s| >= size && LedBlocks(top, strong, a, s, size)
    ensures |a| == |s| && Led(top, strong, a[..size], s[..size]) && LedBlocks(top, strong, a[size..], s[size..], size)
  {
    if |s| == size {
      assert a[..size] == a && s[..size] == s && a[size..] == [] && s[size..] == [];
    }
  }

  lemma {:induction false} RoundsKeepLeaders<T(!new)>(
    less: (T, T) -> bool, top: T -> bool, strong: bool, a: seq<T>, s: seq<T>, size: nat)
    requires size > 0 && LedBlocks(top, strong, a, s, size) && Leading(less, top, strong, a)
    ensures Led(top, strong, a, Rounds(less, s, size))
    decreases |s| - size
  {
    hide Led, Leading, MergePass;
    if size >= |s| {
    } else {
      LedBlocksKeep(top, strong, a, s, size);
      forall x | x in s
        ensures x in a
      {
        SameElement(a, s, x);
      }
      LeadingPart(less, top, strong, s, a);
      PassKeepsLeaders(less, top, strong, a, s, size);
      RoundsKeepLeaders(less, top, strong, a, MergePass(less, s, size), 2 * size);
    }
  }

  /**
   Whatever the comparison: if some elements beat all others and are beaten by none of
   them, one of these comes first; if nothing at all beats them, it is the first of them.
   */
  lemma {:induction false} LeadersComeFirst<T(!new)>(less: (T, T) -> bool, top: T -> bool, strong: bool, s: seq<T>)
    requires Leading(less, top, strong, s)
    ensures Led(top, strong, s, SliceStable(less, s))
  {
    hide Led, Leading, SortBlocks, Rounds;
    BlocksAreLed(less, top, strong, s, BLOCK);
    RoundsKeepLeaders(less, top, strong, s, SortBlocks(less, s, BLOCK), BLOCK);
  }

  lemma {:induction false} StableKeeps<T(!new)>(less: (T, T) -> bool, s: seq<T>)
    ensures multiset(SliceStable(less, s)) == multiset(s) && |SliceStable(less, s)| == |s|
  {
    hide SliceStable;
    LeadersComeFirst(less, (x: T) => false, false, s);
    SameSize(SliceStable(less, s), s);
  }

  lemma {:induction false} FirstTopAt<T(!new)>(top: T -> bool, s: seq<T>) returns (i: nat)
    requires HasTop(top, s)
    ensures i < |s| && FirstTop(top, s) == Some(s[i]) && forall j :: 0 <= j < i ==> !top(s[j])
  {
    if top(s[0]) {
      i := 0;
    } else {
      assert s == [s[0]] + s[1..];
      i := FirstTopAt(top, s[1..]);
      i := i + 1;
    }
  }

  // ---- What the first block puts in front ----

  /** A later element that beats a front one does so only where all later elements may come to the front. */
  ghost predicate Holds<T(!new)>(less: (T, T) -> bool, front: T -> bool, later: T -> bool) {
    forall u, v, w :: front(u) && later(v) && later(w) && less(v, u) ==> front(w)
  }

  lemma {:induction false} MergeHolds<T(!new)>(
    less: (T, T) -> bool, front: T -> bool, later: T -> bool, s: seq<T>, m: nat)
    requires 0 < m < |s| && Holds(less, front, later) && front(s[0]) && forall y :: y in s[m..] ==> later(y)
    ensures front(SymMerge(less, s, m)[0])
    decreases |s|
  {
    hide SymMerge;
    var head := SymMerge(less, s, m)[0];
    var start, j := MergeHead(less, s, m);
    assert s[m] in s[m..];
    if head == s[m] && m <= j < |s| && less(s[j], s[0]) {
      assert s[j] in s[m..];
    } else if head == s[0] && j < m && !less(s[m], s[j]) {
    } else {
      var t := s[..start] + s[m..j];
      assert t[0] == s[0] && t[start..] == s[m..j];
      assert forall y :: y in s[m..j] ==> y in s[m..];
      MergeHolds(less, front, later, t, start);
    }
  }

  lemma {:induction false} PassKeeps<T>(less: (T, T) -> bool, s: seq<T>, size: nat)
    requires size > 0
    ensures multiset(MergePass(less, s, size)) == multiset(s)
    decreases |s|
  {
    hide SymMerge;
    if |s| <= size {
    } else if |s| < 2 * size {
      MergeKeeps(less, s, size);
    } else {
      var front, rest := s[..2 * size], s[2 * size..];
      MergeKeeps(less, front, size);
      PassKeeps(less, rest, size);
      assert s == front + rest;
    }
  }

  lemma {:induction false} BlocksKeep<T>(less: (T, T) -> bool, s: seq<T>, size: nat)
    requires size > 0
    ensures multiset(SortBlocks(less, s, size)) == multiset(s)
    decreases |s|
  {
    hide Sort;
    if |s| <= size {
      SortKeeps(less, s);
    } else {
      SortKeeps(less, s[..size]);
      BlocksKeep(less, s[size..], size);
      assert s == s[..size] + s[size..];
    }
  }

  lemma {:induction false} PassHolds<T(!new)>(
    less: (T, T) -> bool, front: T -> bool, later: T -> bool, s: seq<T>, size: nat)
    requires 0 < size < |s| && Holds(less, front, later) && front(s[0]) && forall y :: y in s[size..] ==> later(y)
    ensures var r := MergePass(less, s, size);
            && |r| == |s| && front(r[0])
            && (2 * size <= |s| ==> forall y :: y in r[2 * size..] ==> later(y))
  {
    hide SymMerge, Holds;
    if |s| < 2 * size {
      MergeHolds(less, front, later, s, size);
    } else {
      var pair, rest := s[..2 * size], s[2 * size..];
      assert forall y :: y in pair[size..] ==> y in s[size..];
      assert forall y :: y in rest ==> y in s[size..];
      MergeHolds(less, front, later, pair, size);
      PassKeeps(less, rest, size);
      var r := MergePass(less, s, size);
      assert r[2 * size..] == MergePass(less, rest, size);
      forall y | y in r[2 * size..]
        ensures later(y)
      {
        SameElement(r[2 * size..], rest, y);
      }
    }
  }

  lemma {:induction false} RoundsHold<T(!new)>(
    less: (T, T) -> bool, front: T -> bool, later: T -> bool, s: seq<T>, size: nat)
    requires size > 0 && s != [] && Holds(less, front, later) && front(s[0])
    requires size <= |s| ==> forall y :: y in s[size..] ==> later(y)
    ensures Rounds(less, s, size) != [] && front(Rounds(less, s, size)[0])
    decreases |s| - size
  {
    hide MergePass, Holds;
    if size >= |s| {
    } else {
      PassHolds(less, front, later, s, size);
      RoundsHold(less, front, later, MergePass(less, s, size), 2 * size);
    }
  }

  /** What the first block puts in front stays in front of all later elements. */
  lemma {:induction false} FirstBlockHolds<T(!new)>(
    less: (T, T) -> bool, front: T -> bool, later: T -> bool, s: seq<T>)
    requires |s| > BLOCK && Holds(less, front, later) && forall y :: y in s[BLOCK..] ==> later(y)
    requires Sort(less, s[..BLOCK]) != [] && front(Sort(less, s[..BLOCK])[0])
    ensures SliceStable(less, s) != [] && front(SliceStable(less, s)[0])
  {
    hide Holds, Sort, Rounds;
    var first, rest := Sort(less, s[..BLOCK]), SortBlocks(less, s[BLOCK..], BLOCK);
    var b := SortBlocks(less, s, BLOCK);
    SortKeeps(less, s[..BLOCK]);
    assert b == first + rest;
    assert b[BLOCK..] == rest;
    BlocksKeep(less, s[BLOCK..], BLOCK);
    forall y | y in rest
      ensures later(y)
    {
      SameElement(rest, s[BLOCK..], y);
    }
    RoundsHold(less, front, later, b, BLOCK);
  }
}
