/**
 The memory the queue macros work on, as a value.

 A `struct IQUEUEHEAD` is a cell holding two pointers, `next` and `prev`.
 Memory is a finite map from addresses to such cells; the address `Null`
 (the C null pointer, written `0` by the macros) is never a key, so a
 dereference is legal exactly when its address is in the map.
 */
module Heap {

  /** An address of a `struct IQUEUEHEAD`. */
  type Addr = nat

  /** The null pointer that `IQUEUE_DEL` stores into an unlinked node. */
  const Null: Addr := 0

  /** One `struct IQUEUEHEAD { next, prev }`. */
  datatype Cell = Cell(next: Addr, prev: Addr)

  /** The cells the program can dereference; null is not one of them. */
  type Memory = m: map<Addr, Cell> | Null !in m witness map[]

  /** `p->next = v`: the one field write it names, nothing else. */
  function SetNext(h: Memory, p: Addr, v: Addr): (h': Memory)
    requires p in h
    ensures h'.Keys == h.Keys
    ensures h'[p].next == v && h'[p].prev == h[p].prev
    ensures forall q :: q in h && q != p ==> h'[q] == h[q]
  {
    h[p := h[p].(next := v)]
  }

  /** `p->prev = v`: the one field write it names, nothing else. */
  function SetPrev(h: Memory, p: Addr, v: Addr): (h': Memory)
    requires p in h
    ensures h'.Keys == h.Keys
    ensures h'[p].prev == v && h'[p].next == h[p].next
    ensures forall q :: q in h && q != p ==> h'[q] == h[q]
  {
    h[p := h[p].(prev := v)]
  }
}
