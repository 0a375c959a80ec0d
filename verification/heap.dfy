/**
 * The array-backed binary heap of heap.c. The item with the highest order
 * under the heap's comparator sits at index 0, and every item has at least
 * the order of its two children at LEFT(i) and RIGHT(i). The buffer grows by
 * doubling when it is full.
 *
 * A heap is modelled by its live items `items` (the first `size` slots of
 * the C buffer, so `size == |items|`), its capacity `cap` and its comparator.
 * Buffer slots at and beyond `size` are never read, so they are not modelled.
 */
module BinaryHeap {
  import opened Wrappers
  import opened Order

  /** The largest value of the unsigned 64-bit `size_t`. */
  const SIZE_MAX: nat := 0xFFFF_FFFF_FFFF_FFFF

  /**
   * The most `void*` slots any buffer can have: realloc is asked for
   * `new_cap * sizeof(void*)` bytes, with 8-byte pointers, and no object
   * is larger than SIZE_MAX bytes.
   */
  const MAX_SLOTS: nat := SIZE_MAX / 8

  /** The capacity heap_create allocates. */
  const INITIAL_CAP: nat := 128

  datatype Heap<!T> = Heap(items: seq<T>, cap: nat, cmp: (T, T) -> int)

  function Left(x: nat): (c: nat)
    ensures Parent(c) == x
  {
    2 * x + 1
  }

  function Right(x: nat): (c: nat)
    ensures Parent(c) == x
  {
    2 * x + 2
  }

  /**
   * PARENT evaluated in `size_t`: at 0 the subtraction wraps around to
   * SIZE_MAX, so PARENT(0) is SIZE_MAX / 2, past the last slot of any
   * buffer.
   */
  function Parent(x: nat): (p: nat)
    ensures x == 0 ==> p >= MAX_SLOTS
    ensures x > 0 ==> p < x && (x == 2 * p + 1 || x == 2 * p + 2)
  {
    if x == 0 then SIZE_MAX / 2 else (x - 1) / 2
  }

  /** Every item has at least the order of its children. */
  ghost predicate HeapOrdered<T>(s: seq<T>, cmp: (T, T) -> int) {
    forall i {:trigger Parent(i)} :: 0 < i < |s| ==> cmp(s[Parent(i)], s[i]) >= 0
  }

  /** The representation invariant every operation keeps. */
  ghost predicate Valid<T(!new)>(h: Heap<T>) {
    && 0 < h.cap
    && |h.items| <= h.cap
    && TotalPreorder(h.cmp)
    && HeapOrdered(h.items, h.cmp)
  }

  /** heap_create: an empty heap bound to `cmp` with room for 128 items. */
  function Create<T(!new)>(cmp: (T, T) -> int): (h: Heap<T>)
    requires TotalPreorder(cmp)
    ensures Valid(h) && Size(h) == 0 && h.cmp == cmp
  {
    Heap([], INITIAL_CAP, cmp)
  }

  /** heap_clear: forget every item; the buffer and comparator stay. */
  function Clear<T(!new)>(h: Heap<T>): (h': Heap<T>)
    requires Valid(h)
    ensures Valid(h') && Size(h') == 0
    ensures h'.cap == h.cap && h'.cmp == h.cmp
  {
    Heap([], h.cap, h.cmp)
  }

  /** heap_size: the number of live items, which never exceeds the capacity. */
  function Size<T(!new)>(h: Heap<T>): (n: nat)
    ensures Valid(h) ==> n <= h.cap
  {
    |h.items|
  }

  /** Swapping a hole along the buffer does not change the multiset. */
  lemma MultisetShift<T>(s: seq<T>, i: nat, j: nat, x: T)
    requires i < |s| && j < |s| && i != j
    ensures multiset(s[i := s[j]][j := x]) == multiset(s[i := x])
  {
  }

  lemma CancelOne<T>(x: multiset<T>, y: multiset<T>, k: T)
    requires x + multiset{k} == y + multiset{k}
    ensures x == y
  {
    assert forall v :: x[v] == (x + multiset{k})[v] - multiset{k}[v];
  }

  lemma DropLast<T>(s: seq<T>, x: T)
    requires |s| > 0 && s[|s| - 1] == x
    ensures multiset(s[..|s| - 1]) + multiset{x} == multiset(s)
  {
    assert s == s[..|s| - 1] + [x];
  }

  /** The root has at least the order of every item of a heap-ordered buffer. */
  lemma {:induction false} RootDominates<T(!new)>(s: seq<T>, cmp: (T, T) -> int, i: nat)
    requires TotalPreorder(cmp) && HeapOrdered(s, cmp)
    requires i < |s|
    ensures cmp(s[0], s[i]) >= 0
    decreases i
  {
    if i > 0 {
      RootDominates(s, cmp, Parent(i));
      Trans(cmp, s[0], s[Parent(i)], s[i]);
    }
  }

  /**
   * The facts that hold while heap_insert lifts the hole at `m` towards the
   * root: the buffer has one slot more than before, every parent-child pair
   * not touching the hole is ordered, `e` outranks the hole's children, and
   * the hole's parent outranks them too.
   */
  ghost predicate Rising<T>(a: seq<T>, n: nat, m: nat, e: T, cmp: (T, T) -> int) {
    && |a| == n + 1 && m <= n
    && (forall c {:trigger Parent(c)} :: 0 < c <= n && c != m && Parent(c) != m ==> cmp(a[Parent(c)], a[c]) >= 0)
    && (forall c {:trigger Parent(c)} :: 0 < c <= n && Parent(c) == m ==> cmp(e, a[c]) >= 0)
    && (m > 0 ==> forall c {:trigger Parent(c)} :: 0 < c <= n && Parent(c) == m ==> cmp(a[Parent(m)], a[c]) >= 0)
  }

  lemma RiseStart<T(!new)>(s: seq<T>, e: T, cmp: (T, T) -> int)
    requires HeapOrdered(s, cmp)
    ensures Rising(s + [e], |s|, |s|, e, cmp)
  {
  }

  /** Moving the parent of lower order down into the hole keeps the rising invariant. */
  lemma RiseStep<T(!new)>(a: seq<T>, n: nat, m: nat, e: T, cmp: (T, T) -> int)
    requires TotalPreorder(cmp) && Rising(a, n, m, e, cmp)
    requires m > 0 && cmp(a[Parent(m)], e) < 0
    ensures Rising(a[m := a[Parent(m)]], n, Parent(m), e, cmp)
  {
    var p := Parent(m);
    var a' := a[m := a[p]];
    forall c | 0 < c <= n && Parent(c) == p
      ensures cmp(e, a'[c]) >= 0
    {
      if c != m {
        Trans(cmp, e, a[p], a[c]);
      }
    }
    if p > 0 {
      forall c | 0 < c <= n && Parent(c) == p
        ensures cmp(a'[Parent(p)], a'[c]) >= 0
      {
        if c != m {
          Trans(cmp, a[Parent(p)], a[p], a[c]);
        }
      }
    }
  }

  /** Once the hole's parent outranks `e` (or the hole is the root), writing `e` there leaves a heap. */
  lemma RiseStop<T(!new)>(a: seq<T>, n: nat, m: nat, e: T, cmp: (T, T) -> int)
    requires TotalPreorder(cmp) && Rising(a, n, m, e, cmp)
    requires m == 0 || cmp(a[Parent(m)], e) >= 0
    ensures HeapOrdered(a[m := e], cmp)
  {
  }

  /** The root of a heap outranks every item of any sub-multiset of it. */
  lemma RootDominatesRest<T(!new)>(s: seq<T>, rest: seq<T>, cmp: (T, T) -> int)
    requires TotalPreorder(cmp) && HeapOrdered(s, cmp) && |s| > 0
    requires multiset(rest) + multiset{s[0]} == multiset(s)
    ensures forall i :: 0 <= i < |rest| ==> cmp(s[0], rest[i]) >= 0
  {
    forall i | 0 <= i < |rest|
      ensures cmp(s[0], rest[i]) >= 0
    {
      var x := rest[i];
      assert x in multiset(rest);
      assert x in multiset(s);
      var j :| 0 <= j < |s| && s[j] == x;
      RootDominates(s, cmp, j);
    }
  }

  /**
   * heap_insert: make room by doubling when the buffer is full (`grown`
   * says whether realloc succeeded; on failure the result is -1 and nothing
   * changes), then sift `e` up from the first free slot, moving every
   * ancestor of lower order one level down.
   */
  method Insert<T(!new)>(h: Heap<T>, e: T, grown: bool) returns (h': Heap<T>, rc: int)
    requires Valid(h)
    ensures Valid(h') && h'.cmp == h.cmp
    ensures rc == 0 <==> |h.items| < h.cap || grown
    ensures rc != 0 ==> rc == -1 && h' == h
    ensures rc == 0 ==> multiset(h'.items) == multiset(h.items) + multiset{e}
    ensures h'.cap == if |h.items| == h.cap && grown then 2 * h.cap else h.cap
  {
    var cmp := h.cmp;
    var n := |h.items|;
    var cap := h.cap;
    if n == cap {
      if !grown {
        return h, -1;
      }
      cap := cap * 2;
    }
    // The slot at index n is the hole; its initial content is never read.
    var a := h.items + [e];
    var m: nat := n;
    var p: nat := Parent(m);
    RiseStart(h.items, e, cmp);
    while m > 0 && cmp(a[p], e) < 0
      invariant Rising(a, n, m, e, cmp) && p == Parent(m)
      invariant multiset(a[m := e]) == multiset(h.items) + multiset{e}
      decreases m
    {
      RiseStep(a, n, m, e, cmp);
      MultisetShift(a, m, p, e);
      a := a[m := a[p]];
      m := p;
      p := Parent(m);
    }
    RiseStop(a, n, m, e, cmp);
    a := a[m := e];
    h' := Heap(a, cap, cmp);
    rc := 0;
  }

  /**
   * The facts about the buffer that hold while the last item `k` sinks from
   * the root with the hole at `m`: apart from the hole, the items of the
   * shrunk heap (indices below n - 1) are heap-ordered, the hole's parent
   * has at least the order of `k` and of the hole's children, and the last
   * slot still holds `k`.
   */
  ghost predicate Sinking<T>(a: seq<T>, n: nat, m: nat, k: T, cmp: (T, T) -> int) {
    && |a| == n && 0 < n && a[n - 1] == k
    && (m == 0 || m < n - 1)
    && (forall c {:trigger Parent(c)} :: 0 < c < n - 1 && c != m && Parent(c) != m ==> cmp(a[Parent(c)], a[c]) >= 0)
    && (m > 0 ==> cmp(a[Parent(m)], k) >= 0)
    && (m > 0 ==> forall c {:trigger Parent(c)} :: 0 < c < n - 1 && Parent(c) == m ==> cmp(a[Parent(m)], a[c]) >= 0)
  }

  /** Some child of the hole still outranks `k`: the loop guard of heap_min. */
  predicate MustSink<T>(a: seq<T>, n: nat, m: nat, k: T, cmp: (T, T) -> int): (b: bool)
    requires |a| == n
    ensures b ==> Left(m) < n && m < n - 1
  {
    (Left(m) < n && cmp(a[Left(m)], k) > 0) || (Right(m) < n && cmp(a[Right(m)], k) > 0)
  }

  /**
   * The child heap_min promotes into the hole: of two children the one of
   * higher order, ties going right; with only a left child, the last slot.
   */
  function Promoted<T(!new)>(a: seq<T>, n: nat, m: nat, cmp: (T, T) -> int): (p: int)
    requires |a| == n
    ensures Left(m) < n ==> m < p < n
    ensures Right(m) < n ==> p == Left(m) || p == Right(m)
    ensures Right(m) < n && TotalPreorder(cmp) ==>
      cmp(a[p], a[Left(m)]) >= 0 && cmp(a[p], a[Right(m)]) >= 0
  {
    if Right(m) < n then
      // Both children are live: take the one of higher order
      if cmp(a[Left(m)], a[Right(m)]) > 0 then Left(m) else Right(m)
    else
      // Only LEFT(m) can be live, and it is the last slot
      n - 1
  }

  lemma SinkStart<T(!new)>(s: seq<T>, cmp: (T, T) -> int)
    requires TotalPreorder(cmp) && HeapOrdered(s, cmp) && |s| > 0
    ensures Sinking(s, |s|, 0, s[|s| - 1], cmp)
  {
  }

  /**
   * One step of the sinking loop: the promoted child is a real child of the
   * shrunk heap (never the last slot, which holds `k` itself), and moving
   * it up keeps the sinking invariant.
   */
  lemma SinkStep<T(!new)>(a: seq<T>, n: nat, m: nat, k: T, cmp: (T, T) -> int)
    requires TotalPreorder(cmp) && Sinking(a, n, m, k, cmp) && MustSink(a, n, m, k, cmp)
    ensures var p := Promoted(a, n, m, cmp);
      m < p < n - 1 && Sinking(a[m := a[p]], n, p, k, cmp)
  {
    var p := Promoted(a, n, m, cmp);
    assert m < p < n - 1;
    var a' := a[m := a[p]];
    if Right(m) < n {
      if p == Left(m) {
        if cmp(a[Left(m)], k) <= 0 {
          Trans(cmp, a[Left(m)], a[Right(m)], k);
        }
      } else if cmp(a[Right(m)], k) <= 0 {
        Trans(cmp, a[Right(m)], a[Left(m)], k);
      }
    }
    forall c | 0 < c < n - 1 && c != p && Parent(c) != p
      ensures cmp(a'[Parent(c)], a'[c]) >= 0
    {
      if Parent(c) == m {
        assert c == Left(m) || c == Right(m);
      }
    }
  }

  /** When the loop stops, writing `k` into the hole and dropping the last slot leaves a heap. */
  lemma SinkStop<T(!new)>(a: seq<T>, n: nat, m: nat, k: T, cmp: (T, T) -> int)
    requires TotalPreorder(cmp) && Sinking(a, n, m, k, cmp) && !MustSink(a, n, m, k, cmp)
    ensures HeapOrdered(a[m := k][..n - 1], cmp)
  {
  }

  /**
   * The sift-down of heap_min on a non-empty heap-ordered buffer: the last
   * item `k` moves into the root's place and sinks, each step promoting the
   * child of higher order, until no child outranks it. The result is the
   * buffer shrunk by one slot, still heap-ordered, holding every item but
   * the old root. The last slot keeps holding `k` while it sinks, so
   * comparing against it never moves anything.
   */
  method SiftDown<T(!new)>(s: seq<T>, cmp: (T, T) -> int) returns (b: seq<T>)
    requires TotalPreorder(cmp) && HeapOrdered(s, cmp) && |s| > 0
    ensures |b| == |s| - 1 && HeapOrdered(b, cmp)
    ensures multiset(b) + multiset{s[0]} == multiset(s)
  {
    var n := |s|;
    var ret := s[0];
    var k := s[n - 1];
    var a := s;
    var m: nat := 0;
    SinkStart(s, cmp);
    while MustSink(a, n, m, k, cmp)
      invariant Sinking(a, n, m, k, cmp)
      invariant multiset(a[m := k]) + multiset{ret} == multiset(s) + multiset{k}
      decreases n - m
    {
      var p := Promoted(a, n, m, cmp);
      SinkStep(a, n, m, k, cmp);
      MultisetShift(a, m, p, k);
      a := a[m := a[p]];
      m := p;
    }
    SinkStop(a, n, m, k, cmp);
    a := a[m := k];
    DropLast(a, k);
    CancelOne(multiset(a[..n - 1]) + multiset{ret}, multiset(s), k);
    b := a[..n - 1];
  }

  /**
   * heap_min: remove and return the root, or None on an empty heap. The
   * root outranks every item that remains. None stands only for the empty
   * heap: a stored NULL item comes back as Some, although C returns the
   * same NULL for both.
   */
  method Min<T(!new)>(h: Heap<T>) returns (h': Heap<T>, r: Option<T>)
    requires Valid(h)
    ensures Valid(h') && h'.cmp == h.cmp && h'.cap == h.cap
    ensures |h.items| == 0 <==> r == None
    ensures r == None ==> h' == h
    ensures r.Some? ==> r.value == h.items[0] && |h'.items| == |h.items| - 1
    ensures r.Some? ==> multiset(h'.items) + multiset{r.value} == multiset(h.items)
    ensures r.Some? ==> forall i :: 0 <= i < |h'.items| ==> h.cmp(r.value, h'.items[i]) >= 0
  {
    if |h.items| == 0 {
      return h, None;
    }
    var rest := SiftDown(h.items, h.cmp);
    RootDominatesRest(h.items, rest, h.cmp);
    h' := Heap(rest, h.cap, h.cmp);
    r := Some(h.items[0]);
  }

  /** Ordering facts about `out` carry over from a buffer to any sub-multiset of it. */
  lemma DominatesSub<T>(out: seq<T>, s: seq<T>, rest: seq<T>, cmp: (T, T) -> int)
    requires forall i, j :: 0 <= i < |out| && 0 <= j < |s| ==> cmp(out[i], s[j]) >= 0
    requires multiset(rest) <= multiset(s)
    ensures forall i, j :: 0 <= i < |out| && 0 <= j < |rest| ==> cmp(out[i], rest[j]) >= 0
  {
    forall i, j | 0 <= i < |out| && 0 <= j < |rest|
      ensures cmp(out[i], rest[j]) >= 0
    {
      assert rest[j] in multiset(rest);
      assert rest[j] in multiset(s);
      var j' :| 0 <= j' < |s| && s[j'] == rest[j];
    }
  }

  /**
   * One round of draining: the extracted item, which outranks what is left,
   * extends the descending output, and the output still outranks the rest.
   */
  lemma DrainStep<T>(out: seq<T>, before: seq<T>, rest: seq<T>, x: T, cmp: (T, T) -> int)
    requires Descending(cmp, out)
    requires forall i, j :: 0 <= i < |out| && 0 <= j < |before| ==> cmp(out[i], before[j]) >= 0
    requires multiset(rest) + multiset{x} == multiset(before)
    requires forall i :: 0 <= i < |rest| ==> cmp(x, rest[i]) >= 0
    ensures Descending(cmp, out + [x])
    ensures forall i, j :: 0 <= i < |out + [x]| && 0 <= j < |rest| ==> cmp((out + [x])[i], rest[j]) >= 0
  {
    DominatesSub(out, before, rest, cmp);
    assert x in multiset(before);
    var k :| 0 <= k < |before| && before[k] == x;
    assert forall i :: 0 <= i < |out| ==> cmp(out[i], before[k]) >= 0;
  }

  /**
   * Calling heap_min while the heap is non-empty yields every stored item
   * exactly as often as it was stored, from the highest order down, and
   * leaves an empty heap with the same buffer.
   */
  method Drain<T(!new)>(h: Heap<T>) returns (out: seq<T>, h': Heap<T>)
    requires Valid(h)
    ensures multiset(out) == multiset(h.items)
    ensures Descending(h.cmp, out)
    ensures Valid(h') && Size(h') == 0 && h'.cap == h.cap && h'.cmp == h.cmp
  {
    out := [];
    h' := h;
    var r: Option<T> := None;
    while |h'.items| > 0
      invariant Valid(h') && h'.cmp == h.cmp && h'.cap == h.cap
      invariant multiset(out) + multiset(h'.items) == multiset(h.items)
      invariant Descending(h.cmp, out)
      invariant forall i, j :: 0 <= i < |out| && 0 <= j < |h'.items| ==> h.cmp(out[i], h'.items[j]) >= 0
      decreases |h'.items|
    {
      var before := h'.items;
      h', r := Min(h');
      DrainStep(out, before, h'.items, r.value, h.cmp);
      out := out + [r.value];
    }
  }

  /**
   * Inserting any sequence into a fresh heap, growing the buffer whenever it
   * fills, and then draining it, returns the same items sorted from the
   * highest order down, however far past the initial capacity it goes.
   */
  method InsertThenDrain<T(!new)>(cmp: (T, T) -> int, xs: seq<T>) returns (out: seq<T>)
    requires TotalPreorder(cmp)
    ensures multiset(out) == multiset(xs)
    ensures Descending(cmp, out)
  {
    var h := Create(cmp);
    var i := 0;
    while i < |xs|
      invariant 0 <= i <= |xs|
      invariant Valid(h) && h.cmp == cmp
      invariant multiset(h.items) == multiset(xs[..i])
    {
      var rc;
      h, rc := Insert(h, xs[i], true);
      assert xs[..i + 1] == xs[..i] + [xs[i]];
      i := i + 1;
    }
    assert xs[..i] == xs;
    out, h := Drain(h);
  }
}
