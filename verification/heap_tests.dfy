/**
 * The comparator of heap_test.c and what the heap tests expect from it:
 * numbers are stored as items, the smaller number has the higher order, so
 * the heap hands them back in ascending order.
 */
module HeapTests {
  import opened Order
  import BinaryHeap

  /** test_cmp: the smaller number has the higher order. */
  function SmallerFirst(a: int, b: int): (r: int)
    ensures r == 1 || r == 0 || r == -1
    ensures r > 0 <==> a < b
    ensures r < 0 <==> b < a
  {
    if a < b then 1 else if a > b then -1 else 0
  }

  lemma SmallerFirstIsTotalPreorder()
    ensures TotalPreorder(SmallerFirst)
  {
  }

  /** Under test_cmp, from the highest order down means ascending numerically. */
  lemma SmallerFirstDrainsAscending(xs: seq<int>)
    requires Descending(SmallerFirst, xs)
    ensures forall i, j :: 0 <= i < j < |xs| ==> xs[i] <= xs[j]
  {
  }

  /**
   * test_heap_min and test_heap_expand: insert numbers into a heap ordered
   * by test_cmp, past the initial capacity if need be, then take them all
   * out again. They come back as the same numbers, in ascending order.
   */
  method DrainAscending(xs: seq<int>) returns (out: seq<int>)
    ensures multiset(out) == multiset(xs)
    ensures forall i, j :: 0 <= i < j < |out| ==> out[i] <= out[j]
  {
    SmallerFirstIsTotalPreorder();
    out := BinaryHeap.InsertThenDrain(SmallerFirst, xs);
    SmallerFirstDrainsAscending(out);
  }
}
