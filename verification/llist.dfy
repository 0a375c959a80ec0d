/**
 * The singly linked list of llist.c: a chain of heap-allocated nodes, each
 * holding one element and a `next` pointer, with `head` and `tail`
 * pointers into it.
 *
 * Memory is modelled as a map from addresses to nodes, holding exactly the
 * nodes the list owns: allocating a node adds an entry, freeing it removes
 * the entry. Address 0 is NULL. The elements of the list are what a walk
 * from `head` along `next` meets before reaching NULL. While the list is
 * empty, `tail` is not constrained: it may still name a freed node.
 */
module LinkedList {
  import opened Wrappers

  type Ptr = nat

  const NULL: Ptr := 0

  datatype LNode<T> = LNode(data: T, next: Ptr)

  datatype LList<T> = LList(mem: map<Ptr, LNode<T>>, head: Ptr, tail: Ptr)

  /** The result of a push: the new list and the status code. */
  datatype Pushed<T> = Pushed(list: LList<T>, code: int)

  /** The result of llist_pop: the new list and the element, or None for an empty list. */
  datatype Popped<T> = Popped(list: LList<T>, front: Option<T>)

  /**
   * The addresses met when following `next` from `p`, if NULL is reached
   * within `fuel` nodes and only through allocated nodes.
   */
  function Walk<T>(mem: map<Ptr, LNode<T>>, p: Ptr, fuel: nat): Option<seq<Ptr>>
    decreases fuel
  {
    if p == NULL then Some([])
    else if fuel == 0 || p !in mem then None
    else
      match Walk(mem, mem[p].next, fuel - 1)
      case None => None
      case Some(rest) => Some([p] + rest)
  }

  /** `ns` is the chain of allocated nodes that leads from `p` to NULL. */
  ghost predicate Linked<T>(mem: map<Ptr, LNode<T>>, p: Ptr, ns: seq<Ptr>) {
    && (forall i :: 0 <= i < |ns| ==> ns[i] != NULL && ns[i] in mem)
    && (if ns == [] then p == NULL else p == ns[0] && mem[ns[|ns| - 1]].next == NULL)
    && (forall i :: 0 <= i < |ns| - 1 ==> mem[ns[i]].next == ns[i + 1])
  }

  ghost predicate Distinct(ns: seq<Ptr>) {
    forall i, j :: 0 <= i < j < |ns| ==> ns[i] != ns[j]
  }

  /** The nodes reachable from `head`, in list order. */
  function Nodes<T>(l: LList<T>): seq<Ptr> {
    match Walk(l.mem, l.head, |l.mem|)
    case Some(ns) => ns
    case None => []
  }

  /**
   * The representation invariant: the walk from `head` reaches NULL through
   * distinct allocated nodes, as many as there are allocated nodes (so it
   * visits every one of them exactly once), and ends at `tail` when the
   * list is not empty.
   */
  ghost predicate Valid<T>(l: LList<T>) {
    && NULL !in l.mem
    && Walk(l.mem, l.head, |l.mem|).Some?
    && var ns := Nodes(l);
       && Distinct(ns)
       && |ns| == |l.mem|
       && (ns != [] ==> l.tail == ns[|ns| - 1])
  }

  /** The elements of the list, front to back. */
  ghost function Contents<T>(l: LList<T>): seq<T>
    requires Valid(l)
  {
    var ns := Nodes(l);
    ValidIsLinked(l);
    seq(|ns|, i requires 0 <= i < |ns| => l.mem[ns[i]].data)
  }

  lemma {:induction false} WalkIsLinked<T>(mem: map<Ptr, LNode<T>>, p: Ptr, fuel: nat)
    requires Walk(mem, p, fuel).Some?
    ensures Linked(mem, p, Walk(mem, p, fuel).value)
    ensures |Walk(mem, p, fuel).value| <= fuel
    decreases fuel
  {
    if p != NULL {
      WalkIsLinked(mem, mem[p].next, fuel - 1);
    }
  }

  lemma {:induction false} LinkedIsWalk<T>(mem: map<Ptr, LNode<T>>, p: Ptr, ns: seq<Ptr>, fuel: nat)
    requires Linked(mem, p, ns) && |ns| <= fuel
    ensures Walk(mem, p, fuel) == Some(ns)
    decreases fuel
  {
    if ns != [] {
      assert Linked(mem, mem[p].next, ns[1..]);
      LinkedIsWalk(mem, mem[p].next, ns[1..], fuel - 1);
      assert [p] + ns[1..] == ns;
    }
  }

  /** The walk of a valid list follows the `next` links. */
  lemma ValidIsLinked<T>(l: LList<T>)
    requires Valid(l)
    ensures Linked(l.mem, l.head, Nodes(l))
  {
    WalkIsLinked(l.mem, l.head, |l.mem|);
  }

  /** A chain through exactly the allocated nodes, ending at `tail`, makes a valid list with that chain. */
  lemma ValidFrom<T>(l: LList<T>, ns: seq<Ptr>)
    requires NULL !in l.mem
    requires Linked(l.mem, l.head, ns) && Distinct(ns)
    requires |ns| == |l.mem|
    requires ns != [] ==> l.tail == ns[|ns| - 1]
    ensures Valid(l) && Nodes(l) == ns
  {
    LinkedIsWalk(l.mem, l.head, ns, |l.mem|);
  }

  /** llist_create: an empty list, head and tail NULL. */
  function Create<T>(): (l: LList<T>)
    ensures Valid(l) && Contents(l) == [] && l.head == NULL
  {
    var l := LList(map[], NULL, NULL);
    ValidFrom(l, []);
    l
  }

  /** Link the allocated node `a` holding `e` at the back, as llist_pushb does once allocation succeeded. */
  function LinkBack<T>(l: LList<T>, e: T, a: Ptr): (r: LList<T>)
    requires Valid(l)
    ensures r.mem.Keys == l.mem.Keys + {a} && r.mem[a] == LNode(e, NULL)
    ensures r.tail == a && r.head == if l.head == NULL then a else l.head
    ensures l.head != NULL && a != l.tail ==> l.tail in r.mem && r.mem[l.tail].next == a
    ensures forall p :: p in l.mem && p != a && (l.head == NULL || p != l.tail) ==> r.mem[p] == l.mem[p]
  {
    ValidIsLinked(l);
    var node := LNode(e, NULL);
    if l.head != NULL then
      // The old tail's next now names the new node
      LList(l.mem[l.tail := TailNode(l).(next := a)][a := node], l.head, a)
    else
      // The new node is both head and tail
      LList(l.mem[a := node], a, a)
  }

  /** The node `tail` names; only read while the list is not empty. */
  function TailNode<T>(l: LList<T>): LNode<T>
    requires Valid(l) && l.head != NULL
  {
    ValidIsLinked(l);
    l.mem[l.tail]
  }

  lemma LinkBackSpec<T>(l: LList<T>, e: T, a: Ptr)
    requires Valid(l) && a != NULL && a !in l.mem
    ensures Valid(LinkBack(l, e, a)) && Contents(LinkBack(l, e, a)) == Contents(l) + [e]
  {
    var ns := Nodes(l);
    ValidIsLinked(l);
    var l' := LinkBack(l, e, a);
    assert Linked(l'.mem, l'.head, ns + [a]);
    ValidFrom(l', ns + [a]);
    assert Contents(l') == Contents(l) + [e];
  }

  /**
   * llist_pushb: append `e`. `a` is the address alloc_node obtained: NULL
   * when allocation failed, which is refused with -1, and otherwise a node
   * not in use. Whether the list is empty is decided by `head`, so a
   * dangling `tail` is never followed.
   */
  function PushBack<T>(l: LList<T>, e: T, a: Ptr): (r: Pushed<T>)
    requires Valid(l) && a !in l.mem
    ensures r.code == 0 || r.code == -1
    ensures r.code == 0 <==> a != NULL
    ensures r.code != 0 ==> r.list == l
    ensures Valid(r.list)
    ensures r.code == 0 ==> Contents(r.list) == Contents(l) + [e]
  {
    if a == NULL then Pushed(l, -1)
    else
      LinkBackSpec(l, e, a);
      Pushed(LinkBack(l, e, a), 0)
  }

  /** Link the allocated node `a` holding `e` at the front, as llist_pushf does once allocation succeeded. */
  function LinkFront<T>(l: LList<T>, e: T, a: Ptr): (r: LList<T>)
    ensures r.mem.Keys == l.mem.Keys + {a} && r.mem[a] == LNode(e, l.head)
    ensures r.head == a && r.tail == if l.head == NULL then a else l.tail
    ensures forall p :: p in l.mem && p != a ==> r.mem[p] == l.mem[p]
  {
    if l.head != NULL then
      // The new node points at the old head; the tail stays
      LList(l.mem[a := LNode(e, l.head)], a, l.tail)
    else
      // The new node is both head and tail
      LList(l.mem[a := LNode(e, NULL)], a, a)
  }

  lemma LinkFrontSpec<T>(l: LList<T>, e: T, a: Ptr)
    requires Valid(l) && a != NULL && a !in l.mem
    ensures Valid(LinkFront(l, e, a)) && Contents(LinkFront(l, e, a)) == [e] + Contents(l)
  {
    var ns := Nodes(l);
    ValidIsLinked(l);
    var l' := LinkFront(l, e, a);
    assert Linked(l'.mem, l'.head, [a] + ns);
    ValidFrom(l', [a] + ns);
    assert Contents(l') == [e] + Contents(l);
  }

  /**
   * llist_pushf: prepend `e`, with allocation as for PushBack. The tail
   * changes only when the list was empty.
   */
  function PushFront<T>(l: LList<T>, e: T, a: Ptr): (r: Pushed<T>)
    requires Valid(l) && a !in l.mem
    ensures r.code == 0 || r.code == -1
    ensures r.code == 0 <==> a != NULL
    ensures r.code != 0 ==> r.list == l
    ensures Valid(r.list)
    ensures r.code == 0 ==> Contents(r.list) == [e] + Contents(l)
  {
    if a == NULL then Pushed(l, -1)
    else
      LinkFrontSpec(l, e, a);
      Pushed(LinkFront(l, e, a), 0)
  }

  /** Unlink and free the head node of a non-empty list; `tail` is left alone. */
  function Unlink<T>(l: LList<T>): (r: LList<T>)
    requires Valid(l) && l.head != NULL
    ensures r.mem.Keys == l.mem.Keys - {l.head}
    ensures r.head == l.mem[l.head].next && r.tail == l.tail
    ensures forall p :: p in r.mem ==> r.mem[p] == l.mem[p]
  {
    ValidIsLinked(l);
    LList(l.mem - {l.head}, l.mem[l.head].next, l.tail)
  }

  /** The nodes after the head still form a chain once the head node is freed. */
  lemma UnlinkChain<T>(l: LList<T>)
    requires Valid(l) && l.head != NULL
    ensures var ns := Nodes(l);
      && ns != [] && Distinct(ns[1..]) && |ns[1..]| == |Unlink(l).mem|
      && Linked(Unlink(l).mem, Unlink(l).head, ns[1..])
  {
    var ns := Nodes(l);
    ValidIsLinked(l);
    var l' := Unlink(l);
    var rest := ns[1..];
    assert forall i :: 0 <= i < |rest| ==> rest[i] == ns[i + 1] && rest[i] != ns[0];
    assert l'.mem.Keys == l.mem.Keys - {ns[0]};
  }

  lemma UnlinkSpec<T>(l: LList<T>)
    requires Valid(l) && l.head != NULL
    ensures Valid(Unlink(l)) && Contents(Unlink(l)) == Contents(l)[1..]
  {
    var ns := Nodes(l);
    UnlinkChain(l);
    var l' := Unlink(l);
    ValidFrom(l', ns[1..]);
    ValidIsLinked(l);
    assert Contents(l') == Contents(l)[1..];
  }

  /**
   * llist_pop: unlink and free the head node and return its element, or
   * None on an empty list. The tail is left alone, so it dangles once the
   * last node is gone. None stands only for the empty list: a stored NULL
   * element comes back as Some, although C returns the same NULL for both.
   */
  function Pop<T>(l: LList<T>): (r: Popped<T>)
    requires Valid(l)
    ensures Valid(r.list)
    ensures r.front == None <==> Contents(l) == []
    ensures r.front == None ==> r.list == l
    ensures r.front.Some? ==> r.front.value == Contents(l)[0] && Contents(r.list) == Contents(l)[1..]
  {
    if l.head == NULL then Popped(l, None)
    else
      ValidIsLinked(l);
      UnlinkSpec(l);
      Popped(Unlink(l), Some(l.mem[l.head].data))
  }

  /** llist_head: the first node, NULL exactly when the list is empty. */
  function Head<T>(l: LList<T>): (p: Ptr)
    requires Valid(l)
    ensures p == NULL <==> Contents(l) == []
    ensures p != NULL ==> p in l.mem && l.mem[p].data == Contents(l)[0]
  {
    ValidIsLinked(l);
    l.head
  }

  /** llist_size: count the nodes by walking from `head` to NULL. */
  method Size<T>(l: LList<T>) returns (len: nat)
    requires Valid(l)
    ensures len == |Contents(l)|
  {
    ghost var ns := Nodes(l);
    ValidIsLinked(l);
    len := 0;
    var n := l.head;
    while n != NULL
      invariant len <= |ns|
      invariant n == if len < |ns| then ns[len] else NULL
      decreases |ns| - len
    {
      len := len + 1;
      n := l.mem[n].next;
    }
  }

  /**
   * llist_clear: free every node, walking from `head`, then set `head` to
   * NULL. `tail` is not reset; it dangles until the next push.
   */
  method Clear<T>(l: LList<T>) returns (l': LList<T>)
    requires Valid(l)
    ensures Valid(l') && Contents(l') == []
    ensures l'.mem == map[] && l'.head == NULL && l'.tail == l.tail
  {
    ghost var ns := Nodes(l);
    ValidIsLinked(l);
    var mem := l.mem;
    var next := l.head;
    ghost var i := 0;
    while next != NULL
      invariant i <= |ns|
      invariant next == if i < |ns| then ns[i] else NULL
      invariant |mem| == |ns| - i
      invariant forall j :: i <= j < |ns| ==> ns[j] in mem && mem[ns[j]] == l.mem[ns[j]]
      decreases |ns| - i
    {
      var tmp := mem[next].next;
      assert (mem - {next}).Keys == mem.Keys - {next};
      mem := mem - {next};
      next := tmp;
      i := i + 1;
    }
    assert mem == map[];
    l' := LList(mem, NULL, l.tail);
    ValidFrom(l', []);
  }

  /**
   * A client walk from llist_head along `next` (as the list tests do)
   * meets the elements in list order and stops at the last node, whose
   * `next` is NULL.
   */
  method Traverse<T>(l: LList<T>) returns (xs: seq<T>)
    requires Valid(l)
    ensures xs == Contents(l)
  {
    ghost var ns := Nodes(l);
    ValidIsLinked(l);
    xs := [];
    var n := Head(l);
    while n != NULL
      invariant |xs| <= |ns|
      invariant n == if |xs| < |ns| then ns[|xs|] else NULL
      invariant xs == Contents(l)[..|xs|]
      decreases |ns| - |xs|
    {
      xs := xs + [l.mem[n].data];
      n := l.mem[n].next;
    }
  }

  /** Pushing at the front and popping hands back the pushed element and leaves the old contents. */
  lemma PushFrontThenPop<T>(l: LList<T>, e: T, a: Ptr)
    requires Valid(l) && a != NULL && a !in l.mem
    ensures Pop(PushFront(l, e, a).list).front == Some(e)
    ensures Contents(Pop(PushFront(l, e, a).list).list) == Contents(l)
  {
  }

  /** Pushing at the back of a non-empty list does not change what a pop returns. */
  lemma PushBackKeepsFront<T>(l: LList<T>, e: T, a: Ptr)
    requires Valid(l) && a != NULL && a !in l.mem && Contents(l) != []
    ensures Pop(PushBack(l, e, a).list).front == Pop(l).front
    ensures Contents(Pop(PushBack(l, e, a).list).list) == Contents(Pop(l).list) + [e]
  {
    var c := Contents(l);
    var l1 := PushBack(l, e, a).list;
    assert Contents(l1) == c + [e];
    assert Pop(l1).front == Some(c[0]) == Pop(l).front;
    assert Contents(Pop(l1).list) == (c + [e])[1..] == c[1..] + [e];
  }
}
