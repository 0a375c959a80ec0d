/**
 * The array stack of stack.c: a buffer of `cap` slots with a position
 * counter `pos`. A push onto a full stack is refused unless the stack was
 * created with STACK_AUTO_EXPAND, in which case the buffer doubles first.
 *
 * A stack is modelled by its live slots `items` (the first `pos` slots, so
 * `pos == |items|`), its capacity and its flags. Slots at and beyond `pos`
 * are never read, so they are not modelled.
 */
module ArrayStack {
  import opened Wrappers

  /** The flag bit that lets a full stack grow. */
  const STACK_AUTO_EXPAND: bv32 := 0x1

  datatype Stack<T> = Stack(items: seq<T>, cap: nat, flags: bv32)

  /** The result of stack_push: the new stack and the status code. */
  datatype Pushed<T> = Pushed(stack: Stack<T>, code: int)

  /** The result of stack_pop: the new stack and the popped element, or None for an empty stack. */
  datatype Popped<T> = Popped(stack: Stack<T>, top: Option<T>)

  predicate AutoExpand(flags: bv32) {
    flags & STACK_AUTO_EXPAND != 0
  }

  /**
   * The position never passes the capacity, and a stack that may grow has
   * room to grow into: doubling a zero capacity leaves it zero, and the
   * push that follows would write past the buffer.
   */
  ghost predicate Valid<T>(s: Stack<T>) {
    && |s.items| <= s.cap
    && (AutoExpand(s.flags) ==> s.cap > 0)
  }

  /** stack_create: an empty stack with the given capacity and flags. */
  function Create<T>(cap: nat, flags: bv32): (s: Stack<T>)
    requires AutoExpand(flags) ==> cap > 0
    ensures Valid(s) && Size(s) == 0
    ensures s.cap == cap && s.flags == flags
  {
    Stack([], cap, flags)
  }

  /**
   * stack_push. On a full stack without STACK_AUTO_EXPAND the push is
   * refused with 1; with it the buffer doubles first, and a failed realloc
   * (`grown` false) is refused with 1 too. A refused push changes nothing.
   */
  function Push<T>(s: Stack<T>, d: T, grown: bool): (r: Pushed<T>)
    requires Valid(s)
    ensures Valid(r.stack) && r.stack.flags == s.flags
    ensures r.code == 0 <==> |s.items| < s.cap || (AutoExpand(s.flags) && grown)
    ensures r.code != 0 ==> r.code == 1 && r.stack == s
    ensures r.code == 0 ==> r.stack.items == s.items + [d]
    ensures r.code == 0 ==> r.stack.cap == if |s.items| == s.cap then 2 * s.cap else s.cap
  {
    if |s.items| == s.cap then
      // No free slot: grow or refuse
      if AutoExpand(s.flags) then
        if !grown then Pushed(s, 1)
        else Pushed(Stack(s.items + [d], 2 * s.cap, s.flags), 0)
      else
        Pushed(s, 1)
    else
      Pushed(Stack(s.items + [d], s.cap, s.flags), 0)
  }

  /**
   * stack_pop: the element pushed last, or None on an empty stack. None
   * stands only for the empty stack: a pushed NULL comes back as Some,
   * although C returns the same NULL for both.
   */
  function Pop<T>(s: Stack<T>): (r: Popped<T>)
    requires Valid(s)
    ensures Valid(r.stack) && r.stack.cap == s.cap && r.stack.flags == s.flags
    ensures r.top == None <==> |s.items| == 0
    ensures r.top == None ==> r.stack == s
    ensures r.top.Some? ==> r.stack.items + [r.top.value] == s.items
  {
    if |s.items| > 0 then
      Popped(Stack(s.items[..|s.items| - 1], s.cap, s.flags), Some(s.items[|s.items| - 1]))
    else
      Popped(s, None)
  }

  /** stack_size: the position, which never passes the capacity. */
  function Size<T>(s: Stack<T>): (n: nat)
    ensures Valid(s) ==> n <= s.cap
  {
    |s.items|
  }

  /** stack_clear: reset the position; the buffer and flags stay. */
  function Clear<T>(s: Stack<T>): (s': Stack<T>)
    requires Valid(s)
    ensures Valid(s') && Size(s') == 0
    ensures s'.cap == s.cap && s'.flags == s.flags
  {
    Stack([], s.cap, s.flags)
  }

  /** A successful push followed by a pop returns the pushed element and the old contents. */
  lemma PushThenPop<T>(s: Stack<T>, d: T, grown: bool)
    requires Valid(s) && Push(s, d, grown).code == 0
    ensures Pop(Push(s, d, grown).stack).top == Some(d)
    ensures Pop(Push(s, d, grown).stack).stack.items == s.items
  {
  }

  /** A cleared stack with room accepts a push without growing. */
  lemma ClearThenPush<T>(s: Stack<T>, d: T)
    requires Valid(s) && s.cap > 0
    ensures Push(Clear(s), d, false).code == 0
    ensures Push(Clear(s), d, false).stack.items == [d]
  {
  }

  /** Push every element of `xs` in order, growing whenever needed. */
  function PushAll<T>(s: Stack<T>, xs: seq<T>): (s': Stack<T>)
    requires Valid(s)
    ensures Valid(s') && s'.flags == s.flags
    decreases |xs|
  {
    if xs == [] then s else PushAll(Push(s, xs[0], true).stack, xs[1..])
  }

  /** Pop `k` times, collecting the elements in the order they come off. */
  function PopAll<T>(s: Stack<T>, k: nat): (r: (Stack<T>, seq<T>))
    requires Valid(s)
    ensures Valid(r.0)
    decreases k
  {
    if k == 0 then (s, [])
    else
      var p := Pop(s);
      var rest := PopAll(p.stack, k - 1);
      (rest.0, (if p.top.Some? then [p.top.value] else []) + rest.1)
  }

  function Reverse<T>(xs: seq<T>): (r: seq<T>)
    ensures |r| == |xs|
    ensures forall i :: 0 <= i < |xs| ==> r[i] == xs[|xs| - 1 - i]
  {
    if xs == [] then [] else Reverse(xs[1..]) + [xs[0]]
  }

  /**
   * Pushes that all succeed (there is room, or the stack grows) stack the
   * elements on top of the old contents.
   */
  lemma {:induction false} PushAllAppends<T>(s: Stack<T>, xs: seq<T>)
    requires Valid(s)
    requires |s.items| + |xs| <= s.cap || AutoExpand(s.flags)
    ensures PushAll(s, xs).items == s.items + xs
    decreases |xs|
  {
    if xs != [] {
      var s1 := Push(s, xs[0], true).stack;
      assert s1.items == s.items + [xs[0]];
      PushAllAppends(s1, xs[1..]);
      assert s.items + [xs[0]] + xs[1..] == s.items + xs;
    }
  }

  /** Popping as many times as there are elements returns them newest first and empties the stack. */
  lemma {:induction false} PopAllReverses<T>(s: Stack<T>)
    requires Valid(s)
    ensures PopAll(s, |s.items|).1 == Reverse(s.items)
    ensures PopAll(s, |s.items|).0.items == []
    decreases |s.items|
  {
    if |s.items| > 0 {
      var p := Pop(s);
      PopAllReverses(p.stack);
      var xs := s.items;
      assert xs == p.stack.items + [p.top.value];
      ReverseAppend(p.stack.items, p.top.value);
    }
  }

  lemma ReverseAppend<T>(xs: seq<T>, x: T)
    ensures Reverse(xs + [x]) == [x] + Reverse(xs)
  {
  }

  /** LIFO: pushing `xs` onto an empty stack and popping everything returns `xs` reversed. */
  lemma LastInFirstOut<T>(s: Stack<T>, xs: seq<T>)
    requires Valid(s) && |s.items| == 0
    requires |xs| <= s.cap || AutoExpand(s.flags)
    ensures PopAll(PushAll(s, xs), |xs|).1 == Reverse(xs)
  {
    PushAllAppends(s, xs);
    PopAllReverses(PushAll(s, xs));
  }
}
