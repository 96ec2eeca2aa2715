/**
 The `IQUEUE_*` / `iqueue_*` macros of the packet example.

 Each macro is a function from memory to memory that performs the macro's
 field writes one by one, in the order the macro lists them, each write
 reading the memory left by the writes before it. Every macro argument is
 an address evaluated once, as a local pointer variable passed to the macro
 is, provided the variable is not named `first`, `last` or `at`: the splice
 macros declare locals of those names, which would capture it. For such
 arguments aliasing (a node that is also the head, a node already in the
 queue) behaves as the C expressions do. An argument expression that reads
 a link the macro itself rewrites, such as `IQUEUE_DEL(head->next)`, is
 re-evaluated by the C at every use and is not modelled. The `requires` of a
 macro asks only that every pointer it dereferences is a live cell, with two
 exceptions: the walks `Foreach` and `ForeachEntry` also ask for a valid
 queue, since the C loop ends only when the `next` chain comes back to the
 head, and `Declare` asks for a fresh non-null address, since `IQUEUE_HEAD`
 defines a new object.
 */
module IQueue {
  import opened Heap
  import opened Rings

  /**
   `IQUEUE_HEAD(name)` with `IQUEUE_HEAD_INIT(name)`: defines a new head
   object `name` whose two links point to itself. The new object is a cell
   that was not in memory before; every existing cell is kept.
   */
  function Declare(h: Memory, p: Addr): (h': Memory)
    requires p != Null && p !in h
    ensures h'.Keys == h.Keys + {p}
    ensures Ring(h', p, [])
    ensures forall q :: q in h ==> h'[q] == h[q]
  {
    var h' := h[p := Cell(p, p)];
    EmptyRing(h', p);
    h'
  }

  /** `IQUEUE_INIT(ptr)`: make an existing cell a self-linked, empty head. */
  function Init(h: Memory, p: Addr): (h': Memory)
    requires p in h
    ensures h'.Keys == h.Keys
    ensures Ring(h', p, [])
    ensures forall q :: q in h && q != p ==> h'[q] == h[q]
  {
    var h1 := SetNext(h, p, p);
    var h' := SetPrev(h1, p, p);
    EmptyRing(h', p);
    h'
  }

  /** `IQUEUE_IS_EMPTY(entry)`: the head's `next` is the head itself. */
  function IsEmpty(h: Memory, head: Addr): (r: bool)
    requires head in h
    ensures forall xs :: Ring(h, head, xs) ==> (r <==> xs == [])
  {
    RingFirst(h, head);
    h[head].next == head
  }

  /** `IQUEUE_ADD(node, head)`: link `node` right after `head`. */
  function Add(h: Memory, node: Addr, head: Addr): (h': Memory)
    requires node in h && head in h && h[head].next in h
    ensures h'.Keys == h.Keys
    ensures h'[head].next == node
    ensures forall q :: q in h && q !in {node, head, h[head].next} ==> h'[q] == h[q]
  {
    var h1 := SetPrev(h, node, head);
    var h2 := SetNext(h1, node, h1[head].next);
    var h3 := SetPrev(h2, h2[head].next, node);
    SetNext(h3, head, node)
  }

  /** `IQUEUE_ADD_TAIL(node, head)`: link `node` right before `head`. */
  function AddTail(h: Memory, node: Addr, head: Addr): (h': Memory)
    requires node in h && head in h && h[head].prev in h
    ensures h'.Keys == h.Keys
    ensures h'[head].prev == node
    ensures forall q :: q in h && q !in {node, head, h[head].prev} ==> h'[q] == h[q]
  {
    var h1 := SetPrev(h, node, h[head].prev);
    var h2 := SetNext(h1, node, head);
    var h3 := SetNext(h2, h2[head].prev, node);
    SetPrev(h3, head, node)
  }

  /** `IQUEUE_DEL_BETWEEN(p, n)`: make `p` and `n` adjacent, dropping whatever lay between. */
  function DelBetween(h: Memory, p: Addr, n: Addr): (h': Memory)
    requires p in h && n in h
    ensures h'.Keys == h.Keys
    ensures h'[p].next == n && h'[n].prev == p
    ensures p != n ==> h'[p].prev == h[p].prev && h'[n].next == h[n].next
    ensures forall q :: q in h && q !in {p, n} ==> h'[q] == h[q]
  {
    SetNext(SetPrev(h, n, p), p, n)
  }

  /** `IQUEUE_DEL(entry)`: join the neighbours of `entry`, then null its links. */
  function Del(h: Memory, entry: Addr): (h': Memory)
    requires entry in h && h[entry].next in h && h[entry].prev in h
    ensures h'.Keys == h.Keys
    ensures h'[entry] == Cell(Null, Null)
    ensures forall q :: q in h && q !in {entry, h[entry].next, h[entry].prev} ==> h'[q] == h[q]
  {
    var h1 := SetPrev(h, h[entry].next, h[entry].prev);
    var h2 := SetNext(h1, h1[entry].prev, h1[entry].next);
    var h3 := SetNext(h2, entry, Null);
    SetPrev(h3, entry, Null)
  }

  /** `IQUEUE_DEL_INIT(entry)`: unlink `entry` and make it an empty head. */
  function DelInit(h: Memory, entry: Addr): (h': Memory)
    requires entry in h && h[entry].next in h && h[entry].prev in h
    ensures h'.Keys == h.Keys
    ensures Ring(h', entry, []) && IsEmpty(h', entry)
    ensures forall q :: q in h && q !in {entry, h[entry].next, h[entry].prev} ==> h'[q] == h[q]
  {
    Init(Del(h, entry), entry)
  }

  /**
   `__iqueue_splice(list, head)`: hang the chain `list->next .. list->prev`
   between `head` and `head->next`. The cells of `list` itself are not
   written.
   */
  function SpliceUnchecked(h: Memory, list: Addr, head: Addr): (h': Memory)
    requires list in h && h[list].next in h && h[list].prev in h
    requires head in h && h[head].next in h
    ensures h'.Keys == h.Keys
    ensures forall q :: q in h && q !in {head, h[list].next, h[list].prev, h[head].next} ==> h'[q] == h[q]
  {
    var first, last := h[list].next, h[list].prev;
    var at := h[head].next;
    var h1 := SetPrev(h, first, head);
    var h2 := SetNext(h1, head, first);
    var h3 := SetNext(h2, last, at);
    SetPrev(h3, at, last)
  }

  /** `iqueue_splice(list, head)`: splice only when `list` is not empty. */
  function Splice(h: Memory, list: Addr, head: Addr): (h': Memory)
    requires list in h
    requires !IsEmpty(h, list) ==> h[list].next in h && h[list].prev in h && head in h && h[head].next in h
    ensures h'.Keys == h.Keys
    ensures IsEmpty(h, list) ==> h' == h
    ensures !IsEmpty(h, list) ==>
      forall q :: q in h && q !in {head, h[list].next, h[list].prev, h[head].next} ==> h'[q] == h[q]
  {
    if !IsEmpty(h, list) then SpliceUnchecked(h, list, head) else h
  }

  /** `iqueue_splice_init(list, head)`: splice, then reset `list` to an empty head. */
  function SpliceInit(h: Memory, list: Addr, head: Addr): (h': Memory)
    requires list in h
    requires !IsEmpty(h, list) ==> h[list].next in h && h[list].prev in h && head in h && h[head].next in h
    ensures h'.Keys == h.Keys
    ensures Ring(h', list, []) && IsEmpty(h', list)
    ensures IsEmpty(h, list) ==> forall q :: q in h && q != list ==> h'[q] == h[q]
    ensures !IsEmpty(h, list) ==>
      forall q :: q in h && q !in {list, head, h[list].next, h[list].prev, h[head].next} ==> h'[q] == h[q]
  {
    Init(Splice(h, list, head), list)
  }

  /**
   `iqueue_foreach_entry(pos, head)`: start at `head->next` and follow
   `next` until the walk is back at `head`, collecting every position.
   */
  method Foreach(h: Memory, head: Addr, ghost xs: seq<Addr>) returns (visited: seq<Addr>)
    requires Ring(h, head, xs)
    ensures visited == xs
  {
    ghost var c := Circle(head, xs);
    assert c[0] == head && Linked(h, c);
    visited := [];
    var pos := h[head].next;
    while pos != head
      invariant |visited| <= |xs|
      invariant visited == xs[..|visited|]
      invariant pos == c[|visited| + 1]
      decreases |xs| - |visited|
    {
      visited := visited + [pos];
      pos := h[pos].next;
    }
  }

  /**
   `IQUEUE_FOREACH(iterator, head, TYPE, MEMBER)`: the same walk, handing
   out the structure each link is embedded in. `entries` plays the part of
   `iqueue_entry`, mapping a link's address to its containing structure.
   */
  method ForeachEntry<T>(h: Memory, entries: map<Addr, T>, head: Addr, ghost xs: seq<Addr>)
    returns (items: seq<T>)
    requires Ring(h, head, xs)
    requires forall x :: x in xs ==> x in entries
    ensures |items| == |xs|
    ensures forall i :: 0 <= i < |xs| ==> items[i] == entries[xs[i]]
  {
    ghost var c := Circle(head, xs);
    assert c[0] == head && Linked(h, c);
    items := [];
    var pos := h[head].next;
    while pos != head
      invariant |items| <= |xs|
      invariant forall i :: 0 <= i < |items| ==> items[i] == entries[xs[i]]
      invariant pos == c[|items| + 1]
      decreases |xs| - |items|
    {
      items := items + [entries[pos]];
      pos := h[pos].next;
    }
  }
}
