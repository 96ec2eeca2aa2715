/**
 The abstraction a queue head stands for.

 `Ring(h, head, xs)` says that, in memory `h`, the sentinel `head` and the
 distinct nodes `xs` form one circle: following `next` from `head` visits
 `xs` front to back and comes back to `head`, and every `prev` is the
 inverse of that `next`. This is the validity invariant of a queue
 (`n->next->prev == n` and `n->prev->next == n` for every member `n`)
 together with its contents.
 */
module Rings {
  import opened Heap

  ghost predicate Distinct(s: seq<Addr>) {
    forall i, j :: 0 <= i < j < |s| ==> s[i] != s[j]
  }

  /** The path `c` is walked by `next` forwards and by `prev` backwards. */
  ghost predicate Linked(h: Memory, c: seq<Addr>) {
    && (forall i :: 0 <= i < |c| ==> c[i] in h)
    && (forall i :: 0 <= i < |c| - 1 ==> h[c[i]].next == c[i + 1])
    && (forall i :: 0 < i < |c| ==> h[c[i]].prev == c[i - 1])
  }

  /** The full circle of a queue: sentinel, members, sentinel again. */
  ghost function Circle(head: Addr, xs: seq<Addr>): seq<Addr> {
    [head] + xs + [head]
  }

  /** `head` is a valid queue whose contents, front to back, are `xs`. */
  ghost predicate Ring(h: Memory, head: Addr, xs: seq<Addr>) {
    && head in h
    && head !in xs
    && Distinct(xs)
    && Linked(h, Circle(head, xs))
  }

  /** Only the two ends of a valid queue's circle name the same cell. */
  lemma CircleDistinct(head: Addr, xs: seq<Addr>)
    requires head !in xs && Distinct(xs)
    ensures forall i, j :: 0 <= i < j < |Circle(head, xs)| && Circle(head, xs)[i] == Circle(head, xs)[j] ==>
      i == 0 && j == |xs| + 1
  {}

  /** The cells a queue is made of. */
  ghost function Cells(head: Addr, xs: seq<Addr>): set<Addr> {
    {head} + set x | x in xs
  }

  /**
   The links a valid queue's operations dereference are live: the head
   points at the first and last members (at itself when empty), and every
   member's neighbours are cells.
   */
  lemma RingShape(h: Memory, head: Addr, xs: seq<Addr>)
    requires Ring(h, head, xs)
    ensures h[head].next in h && h[head].prev in h
    ensures h[head].next == (if xs == [] then head else xs[0])
    ensures h[head].prev == (if xs == [] then head else xs[|xs| - 1])
    ensures forall x :: x in xs ==> x in h && h[x].next in h && h[x].prev in h
  {
    var c := Circle(head, xs);
    assert Linked(h, c) && c[0] == head && c[|c| - 1] == head;
    assert h[c[0]].next == c[1] && h[c[|c| - 1]].prev == c[|c| - 2];
    forall x | x in xs
      ensures x in h && h[x].next in h && h[x].prev in h
    {
      var i :| 0 <= i < |xs| && xs[i] == x;
      assert c[i + 1] == x && h[c[i + 1]].next == c[i + 2] && h[c[i + 1]].prev == c[i];
    }
  }

  /** In any valid queue the head's successor is the first member, or the head when there is none. */
  lemma RingFirst(h: Memory, head: Addr)
    ensures forall xs :: Ring(h, head, xs) ==> h[head].next == (if xs == [] then head else xs[0])
  {
    forall xs | Ring(h, head, xs)
      ensures h[head].next == (if xs == [] then head else xs[0])
    {
      RingShape(h, head, xs);
    }
  }

  /** In any valid queue the head's successor links back to the head. */
  lemma RingBackLink(h: Memory, head: Addr)
    ensures forall xs :: Ring(h, head, xs) ==> h[head].next in h && h[h[head].next].prev == head
  {
    forall xs | Ring(h, head, xs)
      ensures h[head].next in h && h[h[head].next].prev == head
    {
      var c := Circle(head, xs);
      assert Linked(h, c) && c[0] == head;
      assert h[c[0]].next == c[1] && h[c[1]].prev == c[0];
    }
  }

  /** A queue is valid and self-linked exactly when its contents are empty. */
  lemma EmptyRing(h: Memory, head: Addr)
    requires head in h
    ensures Ring(h, head, []) <==> h[head] == Cell(head, head)
  {
    var c := Circle(head, []);
    assert c == [head, head];
    assert Ring(h, head, []) ==> h[c[0]].next == c[1] && h[c[1]].prev == c[0];
    assert h[head] == Cell(head, head) ==> Linked(h, c);
  }

  /**
   The contents of a queue are determined by memory and the head: two
   readings of the same circle agree.
   */
  lemma {:induction false} RingUnique(h: Memory, head: Addr, xs: seq<Addr>, ys: seq<Addr>)
    requires Ring(h, head, xs) && Ring(h, head, ys)
    ensures xs == ys
  {
    var cx, cy := Circle(head, xs), Circle(head, ys);
    assert Linked(h, cx) && Linked(h, cy);
    var k := 0;
    while k < |xs|
      invariant 0 <= k <= |xs| && k <= |ys|
      invariant xs[..k] == ys[..k]
      invariant cx[k] == cy[k]
    {
      // Both walks stand on the same cell, so they take the same step.
      assert cx[k + 1] == h[cx[k]].next == xs[k];
      assert h[cy[k]].next == cy[k + 1] && cy[|ys| + 1] == head;
      assert k < |ys|;
      assert cy[k + 1] == h[cy[k]].next == ys[k];
      assert xs[..k + 1] == xs[..k] + [xs[k]] && ys[..k + 1] == ys[..k] + [ys[k]];
      k := k + 1;
    }
    // The walk along `xs` is back at `head`, so the one along `ys` is too.
    assert h[cx[k]].next == cx[k + 1] == head;
    assert h[cy[k]].next == cy[k + 1];
    assert |ys| == k;
    assert xs == xs[..k] && ys == ys[..k];
  }

}
