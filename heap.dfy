/** An array-backed binary heap (exercises/algorithm/algorithm9.rs).

    Slot 0 of `items` is an unused sentinel; the live elements sit at indices
    1..count, and the children of slot i are 2i and 2i+1. The comparator reads
    "a is preferred to b": the element nearer the root is the preferred one. */
module BinaryHeap {
  import opened Wrappers

  /** The two comparators the source builds: `a < b` for a min-heap and
      `a > b` for a max-heap. */
  datatype Comparator = LessThan | GreaterThan

  /** `Prefers(cmp, a, b)`: calling the comparator on (a, b) returns true. */
  predicate Prefers(cmp: Comparator, a: int, b: int) {
    match cmp
    case LessThan => a < b
    case GreaterThan => a > b
  }

  // ---------------------------------------------------------------------
  // Index arithmetic on the implicit tree
  // ---------------------------------------------------------------------

  function ParentIdx(idx: nat): (p: nat)
    ensures idx == 2 * p || idx == 2 * p + 1
    ensures idx >= 2 ==> 1 <= p < idx
  {
    idx / 2
  }

  function LeftChildIdx(idx: nat): (c: nat)
    ensures ParentIdx(c) == idx
    ensures idx >= 1 ==> idx < c
  {
    idx * 2
  }

  function RightChildIdx(idx: nat): (c: nat)
    ensures ParentIdx(c) == idx
    ensures c != LeftChildIdx(idx) && idx < c
  {
    LeftChildIdx(idx) + 1
  }

  /** Heap property of the live slots 1..n of `s`: no element is strictly
      preferred to its parent. */
  ghost predicate IsHeap(s: seq<int>, n: nat, cmp: Comparator) {
    n < |s| &&
    forall i {:trigger ParentIdx(i)} :: 2 <= i <= n ==> !Prefers(cmp, s[i], s[ParentIdx(i)])
  }

  /** The state during a sift-up at slot k: the heap property holds on every
      link except the one from k to its parent, and the parent of k is not
      beaten by any child of k. */
  ghost predicate HeapExceptUp(s: seq<int>, n: nat, cmp: Comparator, k: nat) {
    n < |s| && 1 <= k <= n &&
    (forall i {:trigger ParentIdx(i)} :: 2 <= i <= n && i != k ==> !Prefers(cmp, s[i], s[ParentIdx(i)])) &&
    (k >= 2 ==> forall c {:trigger ParentIdx(c)} :: 2 <= c <= n && ParentIdx(c) == k ==> !Prefers(cmp, s[c], s[ParentIdx(k)]))
  }

  /** The state during a sift-down at slot k: the heap property holds on every
      link except those from the children of k to k, and the parent of k is not
      beaten by any child of k. */
  ghost predicate HeapExceptDown(s: seq<int>, n: nat, cmp: Comparator, k: nat) {
    n < |s| && 1 <= k &&
    (forall i {:trigger ParentIdx(i)} :: 2 <= i <= n && ParentIdx(i) != k ==> !Prefers(cmp, s[i], s[ParentIdx(i)])) &&
    (k >= 2 ==> forall c {:trigger ParentIdx(c)} :: 2 <= c <= n && ParentIdx(c) == k ==> !Prefers(cmp, s[c], s[ParentIdx(k)]))
  }

  /** `s` with slots i and j exchanged, as `Vec::swap` does. */
  function Swap(s: seq<int>, i: nat, j: nat): (t: seq<int>)
    requires i < |s| && j < |s|
    ensures |t| == |s| && t[i] == s[j] && t[j] == s[i]
    ensures forall k :: 0 <= k < |s| && k != i && k != j ==> t[k] == s[k]
  {
    s[i := s[j]][j := s[i]]
  }

  /** The live elements of slots 1..n. */
  ghost function LiveOf(s: seq<int>, n: nat): multiset<int>
    requires n < |s|
  {
    multiset(s[1..n + 1])
  }

  // ---------------------------------------------------------------------
  // Lemmas about the heap predicates
  // ---------------------------------------------------------------------

  lemma SwapKeepsLive(s: seq<int>, n: nat, i: nat, j: nat)
    requires 1 <= i <= n && 1 <= j <= n && n < |s|
    ensures LiveOf(Swap(s, i, j), n) == LiveOf(s, n)
  {
  }

  /** One swap of a sift-up moves the hole one level up. */
  lemma SiftUpStep(s: seq<int>, n: nat, cmp: Comparator, k: nat)
    requires HeapExceptUp(s, n, cmp, k) && k >= 2
    requires Prefers(cmp, s[k], s[ParentIdx(k)])
    ensures HeapExceptUp(Swap(s, k, ParentIdx(k)), n, cmp, ParentIdx(k))
  {
  }

  /** A sift-up that reached the root or found the parent not beaten is done. */
  lemma SiftUpDone(s: seq<int>, n: nat, cmp: Comparator, k: nat)
    requires HeapExceptUp(s, n, cmp, k)
    requires k == 1 || !Prefers(cmp, s[k], s[ParentIdx(k)])
    ensures IsHeap(s, n, cmp)
  {
  }

  /** One swap of a sift-down with the preferred child moves the hole one
      level down. */
  lemma SiftDownStep(s: seq<int>, n: nat, cmp: Comparator, k: nat, c: nat)
    requires HeapExceptDown(s, n, cmp, k)
    requires 2 <= c <= n && ParentIdx(c) == k
    requires forall d {:trigger ParentIdx(d)} :: 2 <= d <= n && ParentIdx(d) == k ==> !Prefers(cmp, s[d], s[c])
    requires Prefers(cmp, s[c], s[k])
    ensures HeapExceptDown(Swap(s, k, c), n, cmp, c)
  {
  }

  /** A sift-down whose slot has no child, or whose preferred child does not
      beat it, is done. */
  lemma SiftDownDone(s: seq<int>, n: nat, cmp: Comparator, k: nat, c: nat)
    requires HeapExceptDown(s, n, cmp, k)
    requires 2 * k > n || (2 <= c <= n && ParentIdx(c) == k && !Prefers(cmp, s[c], s[k]) &&
                           forall d {:trigger ParentIdx(d)} :: 2 <= d <= n && ParentIdx(d) == k ==> !Prefers(cmp, s[d], s[c]))
    ensures IsHeap(s, n, cmp)
  {
  }

  /** In a heap, no live element is strictly preferred to the root. */
  lemma {:induction false} RootIsPreferred(s: seq<int>, n: nat, cmp: Comparator, i: nat)
    requires IsHeap(s, n, cmp) && 1 <= i <= n
    ensures !Prefers(cmp, s[i], s[1])
    decreases i
  {
    if i > 1 {
      RootIsPreferred(s, n, cmp, ParentIdx(i));
    }
  }

  lemma RootIsPreferredToLive(s: seq<int>, n: nat, cmp: Comparator)
    requires IsHeap(s, n, cmp) && 1 <= n
    ensures forall x :: x in LiveOf(s, n) ==> !Prefers(cmp, x, s[1])
  {
    forall x | x in LiveOf(s, n)
      ensures !Prefers(cmp, x, s[1])
    {
      var t := s[1..n + 1];
      assert x in t;
      var j :| 0 <= j < |t| && t[j] == x;
      RootIsPreferred(s, n, cmp, j + 1);
    }
  }

  /** The write `add` makes: slot k is overwritten when it exists, and the
      value is appended when k is one past the end. */
  function PlaceAt(s: seq<int>, k: nat, v: int): (t: seq<int>)
    requires k <= |s|
    ensures |t| == if k < |s| then |s| else |s| + 1
    ensures t[k] == v
    ensures forall i :: 0 <= i < |s| && i != k ==> t[i] == s[i]
  {
    if k < |s| then s[k := v] else s + [v]
  }

  /** Writing a value into slot n+1 of a heap of n elements leaves a heap
      whose only possible fault is the link from the new slot to its parent,
      and adds the value to the live elements. */
  lemma PlaceLast(s: seq<int>, n: nat, cmp: Comparator, v: int)
    requires IsHeap(s, n, cmp)
    ensures HeapExceptUp(PlaceAt(s, n + 1, v), n + 1, cmp, n + 1)
    ensures LiveOf(PlaceAt(s, n + 1, v), n + 1) == LiveOf(s, n) + multiset{v}
  {
    var t := PlaceAt(s, n + 1, v);
    assert t[1..n + 2] == s[1..n + 1] + [v];
  }

  /** Moving the last live element of a non-empty heap into the root and
      dropping the last slot leaves a heap whose only possible faults are the
      links below the root, and removes the old root from the live elements. */
  lemma MoveLastToRoot(s: seq<int>, n: nat, cmp: Comparator)
    requires IsHeap(s, n, cmp) && 1 <= n
    ensures HeapExceptDown(s[1 := s[n]], n - 1, cmp, 1)
    ensures LiveOf(s[1 := s[n]], n - 1) == LiveOf(s, n) - multiset{s[1]}
  {
    var t := s[1 := s[n]];
    assert s[1..n + 1] == [s[1]] + s[2..n + 1];
    if n > 1 {
      assert t[1..n] == [s[n]] + s[2..n];
      assert s[2..n + 1] == s[2..n] + [s[n]];
    }
  }

  // ---------------------------------------------------------------------
  // The heap
  // ---------------------------------------------------------------------

  class Heap {
    var count: nat
    var items: seq<int>
    const comparator: Comparator

    /** The object invariant: a physical slot exists for every live element
        (slot 0 being the sentinel) and the live slots form a heap. */
    ghost predicate Valid()
      reads this
    {
      IsHeap(items, count, comparator)
    }

    /** The multiset of live elements. */
    ghost function Live(): multiset<int>
      reads this
      requires count < |items|
    {
      LiveOf(items, count)
    }

    /** `Heap::new`: no live element and only the sentinel slot (holding the
        default value of `i32`). */
    constructor (comparator: Comparator)
      ensures Valid() && this.comparator == comparator
      ensures count == 0 && items == [0] && Live() == multiset{}
    {
      this.count := 0;
      this.items := [0];
      this.comparator := comparator;
    }

    /** `Heap::new_min`. */
    constructor NewMin()
      ensures Valid() && comparator == LessThan
      ensures count == 0 && items == [0] && Live() == multiset{}
    {
      this.count := 0;
      this.items := [0];
      this.comparator := LessThan;
    }

    /** `Heap::new_max`. */
    constructor NewMax()
      ensures Valid() && comparator == GreaterThan
      ensures count == 0 && items == [0] && Live() == multiset{}
    {
      this.count := 0;
      this.items := [0];
      this.comparator := GreaterThan;
    }

    function Len(): (n: nat)
      reads this
      ensures count < |items| ==> n == |Live()|
    {
      count
    }

    function IsEmpty(): (b: bool)
      reads this
      ensures count < |items| ==> (b <==> Live() == multiset{})
    {
      Len() == 0
    }

    function ChildrenPresent(idx: nat): (b: bool)
      reads this
      ensures idx >= 1 ==> (b <==> exists c :: 2 <= c <= count && ParentIdx(c) == idx)
    {
      LeftChildIdx(idx) <= count
    }

    /** The preferred child of a slot that has one: the right child only when
        it is live and strictly preferred to the left one. */
    function SmallestChildIdx(idx: nat): (r: nat)
      reads this
      requires 1 <= idx && count < |items| && ChildrenPresent(idx)
      ensures r == LeftChildIdx(idx) || r == RightChildIdx(idx)
      ensures 2 <= r <= count && ParentIdx(r) == idx
      ensures r == RightChildIdx(idx) ==> Prefers(comparator, items[r], items[LeftChildIdx(idx)])
      ensures forall d {:trigger ParentIdx(d)} :: 2 <= d <= count && ParentIdx(d) == idx ==> !Prefers(comparator, items[d], items[r])
    {
      var left := LeftChildIdx(idx);
      var right := RightChildIdx(idx);
      if right <= count && Prefers(comparator, items[right], items[left]) then right else left
    }

    /** `Heap::add`: the value takes slot count+1, reusing a stale slot when
        one is there and appending otherwise, and is then sifted up. */
    method Add(value: int)
      requires Valid()
      modifies this
      ensures Valid()
      ensures count == old(count) + 1
      ensures Live() == old(Live()) + multiset{value}
      ensures |items| == if old(count) + 1 < old(|items|) then old(|items|) else old(|items|) + 1
      ensures items[0] == old(items[0])
      ensures forall i :: count < i < |items| ==> items[i] == old(items[i])
    {
      ghost var before := items;
      count := count + 1;
      if count < |items| {
        items := items[count := value];
      } else {
        items := items + [value];
      }
      assert items == PlaceAt(before, count, value);
      PlaceLast(before, count - 1, comparator, value);
      HeapifyUp(count);
    }

    /** `Heap::heapify_up`: swap the element at `idx` with its parent while it
        is strictly preferred to it. */
    method HeapifyUp(idx: nat)
      requires HeapExceptUp(items, count, comparator, idx)
      modifies this`items
      ensures IsHeap(items, count, comparator)
      ensures |items| == old(|items|) && Live() == old(Live())
      ensures items[0] == old(items[0])
      ensures forall i :: count < i < |items| ==> items[i] == old(items[i])
    {
      var idx := idx;
      while idx > 1
        invariant HeapExceptUp(items, count, comparator, idx)
        invariant |items| == old(|items|) && Live() == old(Live())
        invariant items[0] == old(items[0])
        invariant forall i :: count < i < |items| ==> items[i] == old(items[i])
        decreases idx
      {
        var parent := ParentIdx(idx);
        if Prefers(comparator, items[idx], items[parent]) {
          SiftUpStep(items, count, comparator, idx);
          SwapKeepsLive(items, count, idx, parent);
          items := Swap(items, idx, parent);
          idx := parent;
        } else {
          break;
        }
      }
      SiftUpDone(items, count, comparator, idx);
    }

    /** `Heap::heapify_down`: swap the element at `idx` with its preferred
        child while that child is strictly preferred to it. */
    method HeapifyDown(idx: nat)
      requires HeapExceptDown(items, count, comparator, idx)
      modifies this`items
      ensures IsHeap(items, count, comparator)
      ensures |items| == old(|items|) && Live() == old(Live())
      ensures items[0] == old(items[0])
      ensures forall i :: count < i < |items| ==> items[i] == old(items[i])
    {
      var idx := idx;
      while ChildrenPresent(idx)
        invariant HeapExceptDown(items, count, comparator, idx)
        invariant |items| == old(|items|) && Live() == old(Live())
        invariant items[0] == old(items[0])
        invariant forall i :: count < i < |items| ==> items[i] == old(items[i])
        decreases count - idx
      {
        var child := SmallestChildIdx(idx);
        if Prefers(comparator, items[child], items[idx]) {
          SiftDownStep(items, count, comparator, idx, child);
          SwapKeepsLive(items, count, idx, child);
          items := Swap(items, idx, child);
          idx := child;
        } else {
          SiftDownDone(items, count, comparator, idx, child);
          return;
        }
      }
      SiftDownDone(items, count, comparator, idx, 0);
    }

    /** `Iterator::next`: on an empty heap, None and no change; otherwise the
        root is returned, the last live element moves to slot 1, the count
        drops by one and slot 1 is sifted down. */
    method Next() returns (r: Option<int>)
      requires Valid()
      modifies this
      ensures Valid()
      ensures old(count) == 0 ==> r == None && count == 0 && items == old(items)
      ensures old(count) > 0 ==>
        && r == Some(old(items[1]))
        && count == old(count) - 1
        && r.value in old(Live())
        && Live() == old(Live()) - multiset{r.value}
        && (forall x :: x in old(Live()) ==> !Prefers(comparator, x, r.value))
      ensures |items| == old(|items|) && items[0] == old(items[0])
      ensures forall i :: count < i < |items| ==> items[i] == old(items[i])
    {
      if IsEmpty() {
        return None;
      }
      RootIsPreferredToLive(items, count, comparator);
      var root := items[1];
      MoveLastToRoot(items, count, comparator);
      items := items[1 := items[count]];
      count := count - 1;
      HeapifyDown(1);
      return Some(root);
    }
  }

  /** `MinHeap::new`. */
  method NewMinHeap() returns (h: Heap)
    ensures fresh(h) && h.Valid() && h.comparator == LessThan
    ensures h.count == 0 && h.items == [0] && h.Live() == multiset{}
  {
    h := new Heap(LessThan);
  }

  /** `MaxHeap::new`. */
  method NewMaxHeap() returns (h: Heap)
    ensures fresh(h) && h.Valid() && h.comparator == GreaterThan
    ensures h.count == 0 && h.items == [0] && h.Live() == multiset{}
  {
    h := new Heap(GreaterThan);
  }

  // ---------------------------------------------------------------------
  // Clients: extraction order and the source's own test cases
  // ---------------------------------------------------------------------

  /** Two extractions in a row come out in comparator order: the second is
      never strictly preferred to the first (non-decreasing for a min-heap,
      non-increasing for a max-heap), and an exhausted heap stays exhausted. */
  method NextTwice(h: Heap) returns (first: Option<int>, second: Option<int>)
    requires h.Valid()
    modifies h
    ensures h.Valid()
    ensures first.Some? && second.Some? ==> !Prefers(h.comparator, second.value, first.value)
    ensures first.None? ==> second.None?
  {
    first := h.Next();
    second := h.Next();
  }

  /** `add` as the test cases see it: only the live multiset matters. */
  method AddLive(h: Heap, value: int)
    requires h.Valid()
    modifies h
    ensures h.Valid() && h.Live() == old(h.Live()) + multiset{value}
  {
    h.Add(value);
  }

  /** The four `add` calls both heap test cases start with. */
  method FillLikeTests(h: Heap)
    requires h.Valid() && h.Live() == multiset{}
    modifies h
    ensures h.Valid() && h.Live() == multiset{4, 2, 9, 11}
  {
    AddLive(h, 4);
    AddLive(h, 2);
    AddLive(h, 9);
    AddLive(h, 11);
  }

  /** `next` as the test cases see it: when the live elements are `e` and
      `rest`, and `e` beats every element of `rest`, `next` returns `e` and
      leaves `rest`. */
  method NextLive(h: Heap, e: int, rest: multiset<int>) returns (r: Option<int>)
    requires h.Valid() && h.Live() == multiset{e} + rest
    requires forall x :: x in rest ==> Prefers(h.comparator, e, x)
    modifies h
    ensures h.Valid() && r == Some(e) && h.Live() == rest
  {
    assert e in h.Live() && h.count > 0;
    r := h.Next();
    assert !Prefers(h.comparator, e, r.value);
  }

  /** `test_empty_heap`: a fresh max-heap yields nothing. */
  method TestEmptyHeap() returns (r: Option<int>)
    ensures r == None
  {
    var heap := NewMaxHeap();
    r := heap.Next();
  }

  /** `test_min_heap`. */
  method TestMinHeap() returns (len: nat, a: Option<int>, b: Option<int>, c: Option<int>, d: Option<int>)
    ensures len == 4
    ensures a == Some(2) && b == Some(4) && c == Some(9) && d == Some(1)
  {
    var heap := NewMinHeap();
    FillLikeTests(heap);
    assert heap.Live() == multiset{2} + (multiset{4} + (multiset{9} + multiset{11}));
    len := heap.Len();
    a := NextLive(heap, 2, multiset{4} + (multiset{9} + multiset{11}));
    b := NextLive(heap, 4, multiset{9} + multiset{11});
    c := NextLive(heap, 9, multiset{11});
    AddLive(heap, 1);
    d := NextLive(heap, 1, multiset{11});
  }

  /** `test_max_heap`. */
  method TestMaxHeap() returns (len: nat, a: Option<int>, b: Option<int>, c: Option<int>, d: Option<int>)
    ensures len == 4
    ensures a == Some(11) && b == Some(9) && c == Some(4) && d == Some(2)
  {
    var heap := NewMaxHeap();
    FillLikeTests(heap);
    assert heap.Live() == multiset{11} + (multiset{4} + (multiset{2} + multiset{9}));
    len := heap.Len();
    a := NextLive(heap, 11, multiset{4} + (multiset{2} + multiset{9}));
    b := NextLive(heap, 9, multiset{4} + multiset{2});
    c := NextLive(heap, 4, multiset{2});
    AddLive(heap, 1);
    d := NextLive(heap, 2, multiset{1});
  }
}
