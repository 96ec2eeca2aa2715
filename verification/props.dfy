/**
 What the queue macros do to the queues they are given: each operation is
 related to its effect on the contents `xs` of a valid queue, and shown to
 keep the ring valid and every disjoint queue intact.
 */
module IQueueProps {
  import opened Heap
  import opened Rings
  import opened IQueue

  /** The cells after `IQUEUE_ADD` of a node that is neither the head nor its successor. */
  lemma AddCells(h: Memory, node: Addr, head: Addr)
    requires node in h && head in h && h[head].next in h
    requires node != head && node != h[head].next
    ensures forall q :: q in h ==>
      Add(h, node, head)[q] ==
        Cell(if q == head then node else if q == node then h[head].next else h[q].next,
             if q == node then head else if q == h[head].next then node else h[q].prev)
  {}

  /** The cells after `IQUEUE_ADD_TAIL` of a node that is neither the head nor its predecessor. */
  lemma AddTailCells(h: Memory, node: Addr, head: Addr)
    requires node in h && head in h && h[head].prev in h
    requires node != head && node != h[head].prev
    ensures forall q :: q in h ==>
      AddTail(h, node, head)[q] ==
        Cell(if q == node then head else if q == h[head].prev then node else h[q].next,
             if q == head then node else if q == node then h[head].prev else h[q].prev)
  {}

  /** Given the cells `IQUEUE_ADD` leaves, the circle runs through `node` first. */
  lemma AddLinks(h: Memory, h': Memory, node: Addr, head: Addr, xs: seq<Addr>)
    requires Ring(h, head, xs) && node in h && node != head && node !in xs
    requires h'.Keys == h.Keys
    requires var first := if xs == [] then head else xs[0];
      forall q :: q in h ==>
        h'[q] == Cell(if q == head then node else if q == node then first else h[q].next,
                      if q == node then head else if q == first then node else h[q].prev)
    ensures Linked(h', Circle(head, [node] + xs))
  {
    var c := Circle(head, xs);
    assert Linked(h, c) && c[0] == head && c[1] == if xs == [] then head else xs[0];
    CircleDistinct(head, xs);
    var c' := Circle(head, [node] + xs);
    forall i | 1 < i < |c'|
      ensures c'[i] == c[i - 1] && c'[i] != node
    {}
    forall i | 0 <= i < |c'| - 1
      ensures c'[i] in h' && h'[c'[i]].next == c'[i + 1]
    {
      if i > 1 { assert c'[i] == c[i - 1] != head && c'[i + 1] == c[i]; }
    }
    forall i | 0 < i < |c'|
      ensures c'[i] in h' && h'[c'[i]].prev == c'[i - 1]
    {
      if i > 2 { assert c'[i] == c[i - 1] != c[1] && c'[i - 1] == c[i - 2]; }
    }
  }

  /** Given the cells `IQUEUE_ADD_TAIL` leaves, the circle runs through `node` last. */
  lemma AddTailLinks(h: Memory, h': Memory, node: Addr, head: Addr, xs: seq<Addr>)
    requires Ring(h, head, xs) && node in h && node != head && node !in xs
    requires h'.Keys == h.Keys
    requires var last := if xs == [] then head else xs[|xs| - 1];
      forall q :: q in h ==>
        h'[q] == Cell(if q == node then head else if q == last then node else h[q].next,
                      if q == head then node else if q == node then last else h[q].prev)
    ensures Linked(h', Circle(head, xs + [node]))
  {
    var c := Circle(head, xs);
    var n := |xs|;
    assert Linked(h, c) && c[n + 1] == head && c[n] == if xs == [] then head else xs[n - 1];
    CircleDistinct(head, xs);
    var c' := Circle(head, xs + [node]);
    forall i | 0 <= i <= n
      ensures c'[i] == c[i] && c'[i] != node
    {}
    forall i | 0 <= i < |c'| - 1
      ensures c'[i] in h' && h'[c'[i]].next == c'[i + 1]
    {
      if i < n { assert c'[i] == c[i] != c[n] && c'[i + 1] == c[i + 1]; }
    }
    forall i | 0 < i < |c'|
      ensures c'[i] in h' && h'[c'[i]].prev == c'[i - 1]
    {
      if 0 < i <= n { assert c'[i] == c[i] != head && c'[i - 1] == c[i - 1]; }
    }
  }

  /** `IQUEUE_ADD` makes `node` the new front and keeps the order of the rest. */
  lemma AddPrepends(h: Memory, node: Addr, head: Addr, xs: seq<Addr>)
    requires Ring(h, head, xs)
    requires node in h && node != head && node !in xs
    ensures head in h && h[head].next in h
    ensures Ring(Add(h, node, head), head, [node] + xs)
  {
    RingShape(h, head, xs);
    AddCells(h, node, head);
    AddLinks(h, Add(h, node, head), node, head, xs);
  }

  /** `IQUEUE_ADD_TAIL` makes `node` the new back and keeps the order of the rest. */
  lemma AddTailAppends(h: Memory, node: Addr, head: Addr, xs: seq<Addr>)
    requires Ring(h, head, xs)
    requires node in h && node != head && node !in xs
    ensures head in h && h[head].prev in h
    ensures Ring(AddTail(h, node, head), head, xs + [node])
  {
    RingShape(h, head, xs);
    AddTailCells(h, node, head);
    AddTailLinks(h, AddTail(h, node, head), node, head, xs);
  }

  /** The cells after `IQUEUE_DEL` of an entry that is not linked to itself. */
  lemma DelCells(h: Memory, e: Addr)
    requires e in h && h[e].next in h && h[e].prev in h
    requires h[e].next != e && h[e].prev != e
    ensures forall q :: q in h && q != e ==>
      Del(h, e)[q] == Cell(if q == h[e].prev then h[e].next else h[q].next,
                           if q == h[e].next then h[e].prev else h[q].prev)
  {}

  /** Dropping the `k`-th element of a sequence shifts the later ones down by one. */
  lemma RemoveAt(head: Addr, xs: seq<Addr>, k: nat)
    requires head !in xs && Distinct(xs) && k < |xs|
    ensures var rest := xs[..k] + xs[k + 1..];
      && head !in rest && Distinct(rest) && xs[k] !in rest
      && |Circle(head, rest)| == |Circle(head, xs)| - 1
      && forall i :: 0 <= i < |Circle(head, rest)| ==>
           Circle(head, rest)[i] == Circle(head, xs)[if i <= k then i else i + 1]
  {}

  /** After `IQUEUE_DEL` of the `k`-th member, `next` walks the circle without it. */
  lemma DelNextLinks(h: Memory, head: Addr, xs: seq<Addr>, k: nat)
    requires Ring(h, head, xs) && k < |xs|
    ensures xs[k] in h && h[xs[k]].next in h && h[xs[k]].prev in h
    ensures var c' := Circle(head, xs[..k] + xs[k + 1..]);
      forall i :: 0 <= i < |c'| - 1 ==> c'[i] in Del(h, xs[k]) && Del(h, xs[k])[c'[i]].next == c'[i + 1]
  {
    RingShape(h, head, xs);
    var c := Circle(head, xs);
    assert Linked(h, c);
    CircleDistinct(head, xs);
    var e := xs[k];
    assert c[k + 1] == e && h[e].prev == c[k] && h[e].next == c[k + 2];
    DelCells(h, e);
    RemoveAt(head, xs, k);
    var h' := Del(h, e);
    var c' := Circle(head, xs[..k] + xs[k + 1..]);
    forall i | 0 <= i < |c'| - 1
      ensures c'[i] in h' && h'[c'[i]].next == c'[i + 1]
    {
      if i < k { assert c'[i] == c[i] && c'[i + 1] == c[i + 1]; }
      else if i == k { assert c'[i] == c[k] && c'[i + 1] == c[k + 2]; }
      else { assert c'[i] == c[i + 1] && c'[i + 1] == c[i + 2]; }
    }
  }

  /** After `IQUEUE_DEL` of the `k`-th member, `prev` walks the circle without it. */
  lemma DelPrevLinks(h: Memory, head: Addr, xs: seq<Addr>, k: nat)
    requires Ring(h, head, xs) && k < |xs|
    ensures xs[k] in h && h[xs[k]].next in h && h[xs[k]].prev in h
    ensures var c' := Circle(head, xs[..k] + xs[k + 1..]);
      forall i :: 0 < i < |c'| ==> c'[i] in Del(h, xs[k]) && Del(h, xs[k])[c'[i]].prev == c'[i - 1]
  {
    RingShape(h, head, xs);
    var c := Circle(head, xs);
    assert Linked(h, c);
    CircleDistinct(head, xs);
    var e := xs[k];
    assert c[k + 1] == e && h[e].prev == c[k] && h[e].next == c[k + 2];
    DelCells(h, e);
    RemoveAt(head, xs, k);
    var h' := Del(h, e);
    var c' := Circle(head, xs[..k] + xs[k + 1..]);
    forall i | 0 < i < |c'|
      ensures c'[i] in h' && h'[c'[i]].prev == c'[i - 1]
    {
      if i <= k { assert c'[i] == c[i] && c'[i - 1] == c[i - 1]; }
      else if i == k + 1 { assert c'[i] == c[k + 2] && c'[i - 1] == c[k]; }
      else { assert c'[i] == c[i + 1] && c'[i - 1] == c[i]; }
    }
  }

  /**
   `IQUEUE_DEL` takes exactly the `k`-th member out: its neighbours are
   joined, the others keep their order, and its own links are nulled.
   */
  lemma DelRemoves(h: Memory, head: Addr, xs: seq<Addr>, k: nat)
    requires Ring(h, head, xs) && k < |xs|
    ensures xs[k] in h && h[xs[k]].next in h && h[xs[k]].prev in h
    ensures Ring(Del(h, xs[k]), head, xs[..k] + xs[k + 1..])
    ensures Del(h, xs[k])[xs[k]] == Cell(Null, Null)
  {
    RemoveAt(head, xs, k);
    DelNextLinks(h, head, xs, k);
    DelPrevLinks(h, head, xs, k);
    var c' := Circle(head, xs[..k] + xs[k + 1..]);
    assert c'[|c'| - 1] in Del(h, xs[k]);
  }

  /** The cells after `__iqueue_splice` of a non-empty `list` into a disjoint `head`. */
  lemma SpliceCells(h: Memory, list: Addr, head: Addr)
    requires list in h && h[list].next in h && h[list].prev in h
    requires head in h && h[head].next in h
    requires h[list].next !in {head, h[head].next} && h[list].prev !in {head, h[head].next}
    ensures forall q :: q in h ==>
      SpliceUnchecked(h, list, head)[q] ==
        Cell(if q == head then h[list].next else if q == h[list].prev then h[head].next else h[q].next,
             if q == h[list].next then head else if q == h[head].next then h[list].prev else h[q].prev)
  {}

  /** Where each position of the joined circle comes from. */
  lemma JoinAt(list: Addr, ys: seq<Addr>, head: Addr, xs: seq<Addr>)
    ensures var c', cy, cx := Circle(head, ys + xs), Circle(list, ys), Circle(head, xs);
      && |c'| == |ys| + |xs| + 2
      && (forall i :: 1 <= i <= |ys| ==> c'[i] == cy[i])
      && (forall i :: |ys| < i < |c'| ==> c'[i] == cx[i - |ys|])
      && c'[0] == head
  {}

  /** Facts about two disjoint valid queues that a splice relies on. */
  lemma DisjointRings(h: Memory, list: Addr, ys: seq<Addr>, head: Addr, xs: seq<Addr>)
    requires Ring(h, list, ys) && Ring(h, head, xs) && Cells(list, ys) !! Cells(head, xs)
    ensures head !in ys + xs && Distinct(ys + xs)
    ensures forall i :: 0 <= i < |ys| + 2 ==> Circle(list, ys)[i] in Cells(list, ys)
    ensures forall i :: 0 <= i < |xs| + 2 ==> Circle(head, xs)[i] in Cells(head, xs)
  {
    var zs := ys + xs;
    forall i, j | 0 <= i < j < |zs|
      ensures zs[i] != zs[j]
    {
      if j < |ys| { assert zs[i] == ys[i] && zs[j] == ys[j]; }
      else if i >= |ys| { assert zs[i] == xs[i - |ys|] && zs[j] == xs[j - |ys|]; }
      else { assert zs[i] == ys[i] && ys[i] in Cells(list, ys) && zs[j] == xs[j - |ys|] && xs[j - |ys|] in Cells(head, xs); }
    }
    assert head in Cells(head, xs);
    var cy, cx := Circle(list, ys), Circle(head, xs);
    forall i | 0 <= i < |ys| + 2
      ensures cy[i] in Cells(list, ys)
    {
      if 0 < i < |ys| + 1 { assert cy[i] == ys[i - 1]; }
    }
    forall i | 0 <= i < |xs| + 2
      ensures cx[i] in Cells(head, xs)
    {
      if 0 < i < |xs| + 1 { assert cx[i] == xs[i - 1]; }
    }
  }

  /**
   `iqueue_splice` moves the members of `list` to the front of `head`,
   both orders kept; an empty `list` changes nothing.
   */
  lemma SplicePrepends(h: Memory, list: Addr, ys: seq<Addr>, head: Addr, xs: seq<Addr>)
    requires Ring(h, list, ys) && Ring(h, head, xs) && Cells(list, ys) !! Cells(head, xs)
    ensures list in h && h[list].next in h && h[list].prev in h && head in h && h[head].next in h
    ensures Ring(Splice(h, list, head), head, ys + xs)
  {
    RingShape(h, list, ys);
    RingShape(h, head, xs);
    if ys == [] {
      assert ys + xs == xs;
    } else {
      assert list in Cells(list, ys) && head in Cells(head, xs);
      assert ys[0] in Cells(list, ys) && ys[|ys| - 1] in Cells(list, ys);
      assert xs != [] ==> xs[0] in Cells(head, xs);
      SpliceCells(h, list, head);
      DisjointRings(h, list, ys, head, xs);
      var h' := SpliceUnchecked(h, list, head);
      SpliceNextLinks(h, h', list, ys, head, xs);
      SplicePrevLinks(h, h', list, ys, head, xs);
      var c' := Circle(head, ys + xs);
      assert c'[|c'| - 1] in h';
    }
  }

  /** Given the cells a splice of a non-empty `list` leaves, `next` walks the joined circle. */
  lemma SpliceNextLinks(h: Memory, h': Memory, list: Addr, ys: seq<Addr>, head: Addr, xs: seq<Addr>)
    requires Ring(h, list, ys) && Ring(h, head, xs) && Cells(list, ys) !! Cells(head, xs)
    requires ys != [] && h'.Keys == h.Keys
    requires var first, last, at := ys[0], ys[|ys| - 1], if xs == [] then head else xs[0];
      forall q :: q in h ==>
        h'[q] == Cell(if q == head then first else if q == last then at else h[q].next,
                      if q == first then head else if q == at then last else h[q].prev)
    ensures var c' := Circle(head, ys + xs);
      forall i :: 0 <= i < |c'| - 1 ==> c'[i] in h' && h'[c'[i]].next == c'[i + 1]
  {
    DisjointRings(h, list, ys, head, xs);
    JoinAt(list, ys, head, xs);
    var c', cy, cx := Circle(head, ys + xs), Circle(list, ys), Circle(head, xs);
    assert Linked(h, cy) && Linked(h, cx);
    assert cy[1] == ys[0] && cy[|ys|] == ys[|ys| - 1] && cx[1] == if xs == [] then head else xs[0];
    forall i | 0 <= i < |c'| - 1
      ensures c'[i] in h' && h'[c'[i]].next == c'[i + 1]
    {
      if i == 0 { }
      else if i < |ys| { assert c'[i] == cy[i] && c'[i + 1] == cy[i + 1]; }
      else if i == |ys| { assert c'[i] == cy[i] && c'[i + 1] == cx[1]; }
      else { assert c'[i] == cx[i - |ys|] && c'[i + 1] == cx[i - |ys| + 1]; }
    }
  }

  /** Given the cells a splice of a non-empty `list` leaves, `prev` walks the joined circle backwards. */
  lemma SplicePrevLinks(h: Memory, h': Memory, list: Addr, ys: seq<Addr>, head: Addr, xs: seq<Addr>)
    requires Ring(h, list, ys) && Ring(h, head, xs) && Cells(list, ys) !! Cells(head, xs)
    requires ys != [] && h'.Keys == h.Keys
    requires var first, last, at := ys[0], ys[|ys| - 1], if xs == [] then head else xs[0];
      forall q :: q in h ==>
        h'[q] == Cell(if q == head then first else if q == last then at else h[q].next,
                      if q == first then head else if q == at then last else h[q].prev)
    ensures var c' := Circle(head, ys + xs);
      forall i :: 0 < i < |c'| ==> c'[i] in h' && h'[c'[i]].prev == c'[i - 1]
  {
    DisjointRings(h, list, ys, head, xs);
    JoinAt(list, ys, head, xs);
    var c', cy, cx := Circle(head, ys + xs), Circle(list, ys), Circle(head, xs);
    assert Linked(h, cy) && Linked(h, cx);
    assert cy[1] == ys[0] && cy[|ys|] == ys[|ys| - 1] && cx[1] == if xs == [] then head else xs[0];
    forall i | 0 < i < |c'|
      ensures c'[i] in h' && h'[c'[i]].prev == c'[i - 1]
    {
      if i == 1 { assert c'[i] == cy[1]; }
      else if i <= |ys| { assert c'[i] == cy[i] && c'[i - 1] == cy[i - 1]; }
      else if i == |ys| + 1 { assert c'[i] == cx[1] && c'[i - 1] == cy[|ys|]; }
      else { assert c'[i] == cx[i - |ys|] && c'[i - 1] == cx[i - |ys| - 1]; }
    }
  }

  /**
   After a plain `iqueue_splice` of a non-empty `list`, the cell of `list`
   is untouched and still points into the joined queue, whose first member
   no longer links back to it: `list` is no valid queue at all until it is
   re-initialised, which is what `iqueue_splice_init` adds.
   */
  lemma SpliceLeavesListStale(h: Memory, list: Addr, ys: seq<Addr>, head: Addr, xs: seq<Addr>)
    requires Ring(h, list, ys) && Ring(h, head, xs) && Cells(list, ys) !! Cells(head, xs)
    requires ys != []
    ensures list in h && h[list].next in h && h[list].prev in h && head in h && h[head].next in h
    ensures Splice(h, list, head)[list] == h[list]
    ensures forall zs :: !Ring(Splice(h, list, head), list, zs)
  {
    RingShape(h, list, ys);
    RingShape(h, head, xs);
    assert list in Cells(list, ys) && head in Cells(head, xs);
    assert ys[0] in Cells(list, ys) && ys[|ys| - 1] in Cells(list, ys);
    assert xs != [] ==> xs[0] in Cells(head, xs);
    SpliceCells(h, list, head);
    RingBackLink(Splice(h, list, head), list);
  }

  /**
   `iqueue_splice_init` moves the members of `list` to the front of `head`
   and leaves `list` a valid empty queue.
   */
  lemma SpliceInitMoves(h: Memory, list: Addr, ys: seq<Addr>, head: Addr, xs: seq<Addr>)
    requires Ring(h, list, ys) && Ring(h, head, xs) && Cells(list, ys) !! Cells(head, xs)
    ensures list in h && h[list].next in h && h[list].prev in h && head in h && h[head].next in h
    ensures Ring(SpliceInit(h, list, head), head, ys + xs)
    ensures Ring(SpliceInit(h, list, head), list, [])
  {
    SplicePrepends(h, list, ys, head, xs);
    var h' := Splice(h, list, head);
    assert list !in Cells(head, ys + xs) by {
      assert list in Cells(list, ys);
    }
    DisjointQueueKept(h', SpliceInit(h, list, head), {list}, head, ys + xs);
  }

  /**
   `IQUEUE_DEL_INIT` takes the `k`-th member out of its queue, as
   `IQUEUE_DEL` does, and leaves it a valid empty queue of its own.
   */
  lemma DelInitRemoves(h: Memory, head: Addr, xs: seq<Addr>, k: nat)
    requires Ring(h, head, xs) && k < |xs|
    ensures xs[k] in h && h[xs[k]].next in h && h[xs[k]].prev in h
    ensures Ring(DelInit(h, xs[k]), head, xs[..k] + xs[k + 1..])
    ensures Ring(DelInit(h, xs[k]), xs[k], [])
  {
    DelRemoves(h, head, xs, k);
    RemoveAt(head, xs, k);
    var rest := xs[..k] + xs[k + 1..];
    assert xs[k] != head;
    assert xs[k] !in Cells(head, rest);
    DisjointQueueKept(Del(h, xs[k]), DelInit(h, xs[k]), {xs[k]}, head, rest);
  }

  /** `IQUEUE_DEL` of the node `IQUEUE_ADD` just linked undoes the add. */
  lemma AddThenDel(h: Memory, node: Addr, head: Addr, xs: seq<Addr>)
    requires Ring(h, head, xs)
    requires node in h && node != head && node !in xs
    ensures head in h && h[head].next in h
    ensures var h1 := Add(h, node, head);
      node in h1 && h1[node].next in h1 && h1[node].prev in h1 && Ring(Del(h1, node), head, xs)
  {
    AddPrepends(h, node, head, xs);
    var ys := [node] + xs;
    DelRemoves(Add(h, node, head), head, ys, 0);
    assert ys[..0] + ys[1..] == xs;
  }

  /** `IQUEUE_DEL` of the node `IQUEUE_ADD_TAIL` just linked undoes the add. */
  lemma AddTailThenDel(h: Memory, node: Addr, head: Addr, xs: seq<Addr>)
    requires Ring(h, head, xs)
    requires node in h && node != head && node !in xs
    ensures head in h && h[head].prev in h
    ensures var h1 := AddTail(h, node, head);
      node in h1 && h1[node].next in h1 && h1[node].prev in h1 && Ring(Del(h1, node), head, xs)
  {
    AddTailAppends(h, node, head, xs);
    var ys := xs + [node];
    DelRemoves(AddTail(h, node, head), head, ys, |xs|);
    assert ys[..|xs|] + ys[|xs| + 1..] == xs;
  }

  /**
   A queue none of whose cells an operation writes is still the same valid
   queue afterwards; each macro's contract names the cells it may write.
   */
  lemma DisjointQueueKept(h: Memory, h': Memory, written: set<Addr>, head: Addr, xs: seq<Addr>)
    requires h'.Keys == h.Keys
    requires forall q :: q in h && q !in written ==> h'[q] == h[q]
    requires Ring(h, head, xs) && Cells(head, xs) !! written
    ensures Ring(h', head, xs)
  {}

  /**
   `IQUEUE_DEL` is `IQUEUE_DEL_BETWEEN` of the entry's two neighbours
   followed by nulling the entry's own links.
   */
  lemma DelIsDelBetween(h: Memory, e: Addr)
    requires e in h && h[e].next in h && h[e].prev in h
    ensures var h1 := DelBetween(h, h[e].prev, h[e].next);
      e in h1 && Del(h, e) == SetPrev(SetNext(h1, e, Null), e, Null)
  {}

  /**
   `IQUEUE_DEL_BETWEEN` of the two neighbours of the `k`-th member takes
   that member out of the circle, the others keeping their order; unlike
   `IQUEUE_DEL` it leaves the member's own links as they were.
   */
  lemma DelBetweenUnlinks(h: Memory, head: Addr, xs: seq<Addr>, k: nat)
    requires Ring(h, head, xs) && k < |xs|
    ensures xs[k] in h && h[xs[k]].next in h && h[xs[k]].prev in h
    ensures var h' := DelBetween(h, h[xs[k]].prev, h[xs[k]].next);
      Ring(h', head, xs[..k] + xs[k + 1..]) && h'[xs[k]] == h[xs[k]]
  {
    DelRemoves(h, head, xs, k);
    RemoveAt(head, xs, k);
    var e := xs[k];
    var h' := DelBetween(h, h[e].prev, h[e].next);
    DelIsDelBetween(h, e);
    assert e !in Cells(head, xs[..k] + xs[k + 1..]);
    DisjointQueueKept(Del(h, e), h', {e}, head, xs[..k] + xs[k + 1..]);
  }

  /**
   Declaring a new head with `IQUEUE_HEAD` leaves every existing queue the
   same valid queue, and the new head is in none of them.
   */
  lemma DeclareKeepsQueues(h: Memory, p: Addr, head: Addr, xs: seq<Addr>)
    requires p != Null && p !in h && Ring(h, head, xs)
    ensures Ring(Declare(h, p), head, xs)
    ensures p !in Cells(head, xs)
  {
    var c := Circle(head, xs);
    assert Linked(h, c);
    assert forall x :: x in xs ==> x in h by {
      forall x | x in xs ensures x in h {
        var i :| 0 <= i < |xs| && xs[i] == x;
        assert c[i + 1] == x;
      }
    }
  }
}
