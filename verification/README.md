# iqueue: the intrusive circular queue of the gattlib packet example

The packet example of gattlib (`examples/packet/packet.h`) carries an
intrusive, circular, doubly-linked queue:
a `struct IQUEUEHEAD { next, prev }` embedded in every queued structure,
a sentinel head of the same type, and a set of `IQUEUE_*` / `iqueue_*`
macros that rewire `next` and `prev` pointers. This project models those
macros and proves what each one does to the queue a head stands for.

Memory is modelled as a value: `Heap.Memory` maps addresses to
`Cell(next, prev)` records, the address `Null` (the C `0`) is never a key,
and a macro is a function from memory to memory that performs its field
writes one at a time in the order the macro lists them. Each argument is an
address evaluated once, as a local pointer variable passed to the macro is,
provided the variable is not named `first`, `last` or `at` (the splice
macros declare locals of those names, which capture such an argument). For
these arguments aliasing (a node that is also the head, a node already
queued) behaves as the C expressions do. A macro's `requires` asks only that
the pointers it dereferences are live cells, with two exceptions: the two
foreach walks ask for a valid queue, because the C loop ends only when the
`next` chain comes back to the head, and `IQueue.Declare` asks for a fresh
non-null address, because `IQUEUE_HEAD` defines a new object.

The abstraction is `Rings.Ring(h, head, xs)`: in memory `h` the sentinel
`head` and the distinct nodes `xs` form one circle, `next` visiting `xs`
front to back and `prev` being its inverse. This is the ring validity
invariant (`n->next->prev == n`, `n->prev->next == n`) together with the
queue's contents, which `Rings.RingUnique` shows are determined by memory
and the head.

Files:
- `heap.dfy` (module `Heap`): addresses, cells, memory, single field writes.
- `ring.dfy` (module `Rings`): the ring predicate and its general facts.
- `iqueue.dfy` (module `IQueue`): one function or method per macro.
- `props.dfy` (module `IQueueProps`): what each macro does to a valid queue.

## Model

| member | source | states |
|---|---|---|
| IQueue.Declare | examples/packet/packet.h:36-38 | `IQUEUE_HEAD(name)` adds one fresh cell, not previously in memory, that is a valid queue with no members; every existing cell is kept |
| IQueueProps.DeclareKeepsQueues | examples/packet/packet.h:36-38 | declaring a head leaves every existing valid queue unchanged, and the new head belongs to none of them |
| IQueue.Init | examples/packet/packet.h:40-41 | `IQUEUE_INIT` leaves an existing cell a valid queue with no members; no other cell changes |
| IQueue.IsEmpty | examples/packet/packet.h:67 | `IQUEUE_IS_EMPTY`: the entry's `next` is the entry itself, which on a valid queue holds exactly when it has no members |
| Rings.EmptyRing | examples/packet/packet.h:40-41 | a head is a valid empty queue exactly when both its links point to itself |
| Rings.RingUnique | examples/packet/packet.h:27-31 | the contents a valid head stands for are unique: two readings of the same circle are equal |
| IQueue.Add | examples/packet/packet.h:49-51 | `IQUEUE_ADD` makes `node` the head's successor and writes no cell other than `node`, the head and the old first member |
| IQueueProps.AddCells | examples/packet/packet.h:49-51 | the net effect of `IQUEUE_ADD`'s four writes when `node` is neither the head nor its successor: `node` sits between the head and the old first member, every other link is kept |
| IQueueProps.AddPrepends | examples/packet/packet.h:49-51 | adding a fresh node to a valid queue `xs` gives the valid queue `[node] + xs` |
| IQueue.AddTail | examples/packet/packet.h:53-55 | `IQUEUE_ADD_TAIL` makes `node` the head's predecessor and writes no cell other than `node`, the head and the old last member |
| IQueueProps.AddTailCells | examples/packet/packet.h:53-55 | the net effect of `IQUEUE_ADD_TAIL`'s four writes when `node` is neither the head nor its predecessor: `node` sits between the old last member and the head, every other link is kept |
| IQueueProps.AddTailAppends | examples/packet/packet.h:53-55 | adding a fresh node at the tail of a valid queue `xs` gives the valid queue `xs + [node]` |
| IQueue.DelBetween | examples/packet/packet.h:57 | `IQUEUE_DEL_BETWEEN(p, n)` leaves `p->next == n` and `n->prev == p`, keeps `p->prev` and `n->next` when `p != n`, and writes no other cell |
| IQueueProps.DelBetweenUnlinks | examples/packet/packet.h:57 | joining the two neighbours of the `k`-th member of a valid queue gives the valid queue without that member, order kept, the member's own cell untouched |
| IQueue.Del | examples/packet/packet.h:59-62 | `IQUEUE_DEL` nulls both links of the entry and writes no cell other than the entry and its two neighbours |
| IQueueProps.DelCells | examples/packet/packet.h:59-62 | the net effect of `IQUEUE_DEL`'s four writes: the old predecessor's `next` becomes the old successor and vice versa, every other link is kept |
| IQueueProps.DelIsDelBetween | examples/packet/packet.h:57-62 | `IQUEUE_DEL` equals `IQUEUE_DEL_BETWEEN` of the entry's neighbours followed by nulling the entry |
| IQueueProps.DelRemoves | examples/packet/packet.h:59-62 | deleting the `k`-th member of a valid queue gives the valid queue without exactly that member, order kept, and the member's links null |
| IQueue.DelInit | examples/packet/packet.h:64-65 | after `IQUEUE_DEL_INIT` the entry is a valid empty queue, `IQUEUE_IS_EMPTY` holds of it, and only it and its old neighbours changed |
| IQueueProps.DelInitRemoves | examples/packet/packet.h:64-65 | `IQUEUE_DEL_INIT` of the `k`-th member removes exactly it from its queue and leaves it a valid empty queue |
| IQueueProps.AddThenDel | examples/packet/packet.h:49-62 | deleting the node `IQUEUE_ADD` just linked restores the original contents |
| IQueueProps.AddTailThenDel | examples/packet/packet.h:53-62 | deleting the node `IQUEUE_ADD_TAIL` just linked restores the original contents |
| IQueue.Foreach | examples/packet/packet.h:85-86 | `iqueue_foreach_entry` visits exactly the members of a valid queue, each once, front to back |
| IQueue.ForeachEntry | examples/packet/packet.h:77-83 | `IQUEUE_FOREACH` yields the containing structure of each member, one per member, front to back |
| IQueue.SpliceUnchecked | examples/packet/packet.h:89-93 | `__iqueue_splice` writes no cell other than the head, its old first member and the first and last cells of `list` |
| IQueueProps.SpliceCells | examples/packet/packet.h:89-93 | the net effect of `__iqueue_splice`'s four writes when the two queues are disjoint and `list` is not empty |
| IQueue.Splice | examples/packet/packet.h:95-96 | `iqueue_splice` of an empty `list` changes nothing and does not need `head` to be live; otherwise it writes only the cells `__iqueue_splice` writes |
| IQueueProps.SplicePrepends | examples/packet/packet.h:89-96 | splicing a valid queue `ys` into a disjoint valid queue `xs` gives the valid queue `ys + xs` |
| IQueueProps.SpliceLeavesListStale | examples/packet/packet.h:89-96 | after a plain splice of a non-empty `list`, the cell of `list` is unchanged and `list` is no valid queue for any contents |
| IQueue.SpliceInit | examples/packet/packet.h:98-99 | after `iqueue_splice_init` the list head is a valid empty queue |
| IQueueProps.SpliceInitMoves | examples/packet/packet.h:98-99 | `iqueue_splice_init` leaves `head` holding `ys + xs` and `list` a valid empty queue |
| IQueueProps.DisjointQueueKept | examples/packet/packet.h:49-99 | a queue none of whose cells a macro writes is the same valid queue afterwards |

## Left out

- `IOFFSETOF`, `ICONTAINEROF` and `IQUEUE_ENTRY` (packet.h:43-47) are pointer-offset arithmetic; `IQueue.ForeachEntry` takes a map from a link's address to its containing structure in their place.
- The `iqueue_*` lower-case aliases (packet.h:69-75, 82-83) are renamings of the upper-case macros and are modelled through them.
- The frame header, the packet types, the `pkt_seg` / `pkt_pcb` records, the FSM structures, its events and states (packet.h:103-219) are declarations only, and the handlers in `examples/packet/packet.c` are forward declarations without bodies; there is no behaviour to model, so the codec, sequence numbering, NAK retry and the control-block lifecycle are not part of this model.
- The GATT connection and the readline / gattlib includes (packet.h:105-106, 155) are foreign I/O.
- Defects in the declarations, noted and not modelled: `BL_RECV_ACK` is defined twice with the values 4 and 6 (packet.h:112, 114); the `struct pkt_seg`, `struct pkt_pcb`, `struct fsm_callbacks` and `enum bl_event` definitions lack their closing semicolons (packet.h:152, 163, 187, 198); `typedef struct fsm` names no type (packet.h:170-177).
- Macro arguments are evaluated once. The C macros re-evaluate an argument expression at every use, so an argument that reads a link the macro rewrites (`IQUEUE_DEL(head->next)`: after line 61 `head->next` names the old second member, and line 62 nulls that one instead of the entry) behaves differently in C; the model covers arguments whose value the macro's own writes cannot change, such as local pointer variables not named `first`, `last` or `at` (see the next line).
- Argument names captured by the splice macros: `__iqueue_splice` (lines 89-93), and through it `iqueue_splice` and `iqueue_splice_init`, declares locals `first`, `last` and `at`, so a caller argument spelled with one of those names refers to the macro's own local (or an uninitialised one) instead of the caller's pointer. The model takes the caller's address in every case and does not model that capture.
- IQueue.Foreach: models only the loop header of `iqueue_foreach_entry` / `IQUEUE_FOREACH`; the loop body is assumed to leave the queue unchanged and to run every iteration without breaking out. A body that unlinks `pos` with `IQUEUE_DEL` nulls `pos->next` (line 62), so the loop's next step dereferences null; such bodies are outside the model.
- IQueue.ForeachEntry: the same restriction as `IQueue.Foreach`; the body of `IQUEUE_FOREACH` is assumed to leave the queue unchanged and to run every iteration.
- Memory is a finite map. `IQUEUE_HEAD` is the only macro that creates an object, and `IQueue.Declare` adds that object's cell to the map. No macro frees memory. A dangling pointer is modelled as an address that is not a key, and how a declared head's storage is placed or later released is not modelled.
- Misuse of the macros is modelled but not characterised: a macro applied to arguments that violate the ring (a node already queued, two overlapping queues) is modelled write for write but no lemma describes the resulting shape.
