/**
 * The indexed binary min-heap of prio_queue.c, with the ordering fixed to
 * the one the Huffman builder installs: node weights (CompareHuffman), and
 * the position slot fixed to the node's `pqI` field (position_huffman).
 *
 * Slots 1..i of the array hold the queued nodes, slot 0 is never used; the
 * parent of slot m is m / 2 and its children are 2m and 2m + 1.  Every
 * queued node knows its own slot (`pqI`), and no parent is heavier than
 * its children.
 */
module PrioQueue {
  import opened HuffmanNode

  /** In slots 1..size of s, every parent at slot k or above weighs no more than its children. */
  ghost predicate HeapOrdered(s: seq<Node?>, size: nat, k: nat)
    requires size < |s|
  {
    forall m :: 2 <= m <= size && m / 2 >= k ==> Key(s[m / 2]) <= Key(s[m])
  }

  /**
   * Heap order in slots 1..size of s except that the node at k may be
   * lighter than its parent; k's parent weighs no more than k's children.
   */
  ghost predicate HeapBut(s: seq<Node?>, size: nat, k: nat)
    requires size < |s| && 1 <= k
  {
    (forall m :: 2 <= m <= size && m != k ==> Key(s[m / 2]) <= Key(s[m])) &&
    (k > 1 && 2 * k <= size ==> Key(s[k / 2]) <= Key(s[2 * k])) &&
    (k > 1 && 2 * k + 1 <= size ==> Key(s[k / 2]) <= Key(s[2 * k + 1]))
  }

  /**
   * One step of up: the node at k was lighter than its parent, and the two
   * were swapped (w to v).  Then only the parent's slot may be out of order.
   */
  lemma UpStep(w: seq<Node?>, v: seq<Node?>, size: nat, k: nat)
    requires size < |w| && 2 <= k <= size && HeapBut(w, size, k)
    requires Key(w[k]) < Key(w[k / 2])
    requires v == w[k := w[k / 2]][k / 2 := w[k]]
    ensures HeapBut(v, size, k / 2)
  {
    var j := k / 2;
    assert (2 * j) / 2 == j && (2 * j + 1) / 2 == j;
    if j > 1 {
      assert Key(w[j / 2]) <= Key(w[j]);
    }
    forall m | 2 <= m <= size && m != j
      ensures Key(v[m / 2]) <= Key(v[m])
    {
      if m / 2 == j && m != k {
        assert Key(w[j]) <= Key(w[m]);
      }
    }
  }

  /** Swapping k with its child j leaves the order below j as it was. */
  lemma SwapKeepsBelow(w: seq<Node?>, v: seq<Node?>, size: nat, k: nat, j: nat)
    requires size < |w| && 1 <= k < j <= size && HeapOrdered(w, size, k + 1)
    requires v == w[k := w[j]][j := w[k]]
    ensures HeapOrdered(v, size, j + 1)
  {
    forall m | 2 <= m <= size && m / 2 >= j + 1
      ensures Key(v[m / 2]) <= Key(v[m])
    {
      assert v[m / 2] == w[m / 2] && v[m] == w[m];
    }
  }

  /** Where down stops: k has no child, or weighs no more than its lighter child j. */
  lemma DownStop(s: seq<Node?>, size: nat, k: nat, j: nat)
    requires size < |s| && 1 <= k && HeapOrdered(s, size, k + 1)
    requires 2 * k <= size ==> j <= size && Key(s[k]) <= Key(s[j])
    requires 2 * k <= size ==> forall c :: (c == 2 * k || c == 2 * k + 1) && c <= size ==> Key(s[j]) <= Key(s[c])
    ensures HeapOrdered(s, size, k)
  {
  }

  /** Heap order puts the lightest node at the root (slot 1). */
  lemma RootMin(s: seq<Node?>, size: nat)
    requires size < |s| && HeapOrdered(s, size, 1)
    ensures forall y :: y in s[1..size + 1] ==> Key(s[1]) <= Key(y)
  {
    forall y | y in s[1..size + 1]
      ensures Key(s[1]) <= Key(y)
    {
      var j :| 0 <= j < size && s[1..size + 1][j] == y;
      RootMinAt(s, size, j + 1);
    }
  }

  lemma {:induction false} RootMinAt(s: seq<Node?>, size: nat, k: nat)
    requires size < |s| && HeapOrdered(s, size, 1) && 1 <= k <= size
    ensures Key(s[1]) <= Key(s[k])
    decreases k
  {
    if k > 1 {
      RootMinAt(s, size, k / 2);
      OrderedAt(s, size, 1, k);
    }
  }

  /** pq_min moves the last node to the root: below the root the order is kept. */
  lemma LastToRoot(w: seq<Node?>, v: seq<Node?>, size: nat)
    requires 1 <= size < |w| && HeapOrdered(w, size, 1)
    requires v == w[1 := w[size]][size := null]
    ensures HeapOrdered(v, size - 1, 2)
    ensures multiset(w[1..size + 1]) == multiset(v[1..size]) + multiset{w[1]}
  {
    forall m | 2 <= m <= size - 1 && m / 2 >= 2
      ensures Key(v[m / 2]) <= Key(v[m])
    {
      OrderedAt(w, size, 1, m);
    }
    if size > 1 {
      assert w[1..size + 1] == [w[1]] + w[2..size] + [w[size]];
      assert v[1..size] == [w[size]] + w[2..size];
    }
  }

  /** pq_insert puts the new node in the first free slot: only that slot may be out of order. */
  lemma AppendLeaf(w: seq<Node?>, v: seq<Node?>, size: nat, x: Node)
    requires size + 1 < |w| && HeapOrdered(w, size, 1)
    requires v == w[size + 1 := x]
    ensures HeapBut(v, size + 1, size + 1)
    ensures v[1..size + 2] == w[1..size + 1] + [x]
  {
    forall m | 2 <= m <= size
      ensures Key(v[m / 2]) <= Key(v[m])
    {
      OrderedAt(w, size, 1, m);
    }
  }

  lemma OrderedAt(s: seq<Node?>, size: nat, k: nat, m: nat)
    requires size < |s| && HeapOrdered(s, size, k)
    requires 2 <= m <= size && m / 2 >= k
    ensures Key(s[m / 2]) <= Key(s[m])
  {
  }

  /**
   * One step of down: the node at k was heavier than its lighter child j,
   * the two were swapped (w to v) and j was sifted down (v to u), which
   * changed only j and the slots from 2j on and left at j what j or one of
   * its children held.  Then the heap is in order from k on.
   */
  lemma DownStep(w: seq<Node?>, v: seq<Node?>, u: seq<Node?>, size: nat, k: nat, j: nat)
    requires size < |w| && |v| == |w| && |u| == |w|
    requires 1 <= k && (j == 2 * k || j == 2 * k + 1) && j <= size
    requires HeapOrdered(w, size, k + 1)
    requires forall c :: (c == 2 * k || c == 2 * k + 1) && c <= size ==> Key(w[j]) <= Key(w[c])
    requires Key(w[j]) < Key(w[k])
    requires v == w[k := w[j]][j := w[k]]
    requires HeapOrdered(u, size, j)
    requires forall m :: 1 <= m <= size && m < 2 * j && m != j ==> u[m] == v[m]
    requires u[j] == v[j] || (2 * j <= size && u[j] == v[2 * j]) || (2 * j + 1 <= size && u[j] == v[2 * j + 1])
    ensures HeapOrdered(u, size, k)
    ensures forall m :: 1 <= m <= size && m < 2 * k && m != k ==> u[m] == w[m]
    ensures u[k] == w[j]
  {
    forall m | 2 <= m <= size && m / 2 >= k
      ensures Key(u[m / 2]) <= Key(u[m])
    {
      if m / 2 >= j {
      } else if m / 2 == k {
        assert u[k] == w[j];
        if m == j {
          if 2 * j <= size {
            OrderedAt(w, size, k + 1, 2 * j);
          }
          if 2 * j + 1 <= size {
            OrderedAt(w, size, k + 1, 2 * j + 1);
          }
        } else {
          assert u[m] == w[m];
        }
      } else {
        assert u[m / 2] == w[m / 2] && u[m] == w[m];
      }
    }
  }

  class PrioQueue {
    /** The slots, a[0] unused (the flexible array member `a[]`). */
    const a: array<Node?>
    /** Capacity. */
    const n: nat
    /** Number of queued nodes. */
    var i: nat
    /** Every node ever queued: the objects whose position slots the queue may write. */
    ghost var Nodes: set<Node>

    /** The slots hold i nodes, each of which knows its slot. */
    ghost predicate Slotted()
      reads this, a, Nodes
    {
      a.Length == n + 1 && i <= n &&
      forall k :: 1 <= k <= i ==> a[k] != null && a[k] in Nodes && a[k].pqI == k
    }

    /** Every parent at slot k or above weighs no more than its children. */
    ghost predicate HeapFrom(k: nat)
      reads this, a
      requires i < a.Length
    {
      HeapOrdered(a[..], i, k)
    }

    ghost predicate Valid()
      reads this, a, Nodes
    {
      Slotted() && HeapFrom(1)
    }

    /** The queued nodes, in slot order. */
    ghost function Contents(): (s: seq<Node?>)
      reads this, a
      requires i < a.Length
      ensures |s| == i
    {
      a[1..i + 1]
    }

    /** prio_queue.c:57-71: an empty queue of capacity cap with cap + 1 empty slots. */
    constructor (cap: nat)
      ensures Valid() && n == cap && i == 0 && Contents() == [] && Nodes == {}
      ensures fresh(a) && a.Length == cap + 1 && forall k :: 0 <= k < a.Length ==> a[k] == null
    {
      a := new Node?[cap + 1](_ => null);
      n := cap;
      i := 0;
      Nodes := {};
    }

    /** prio_queue.c:100-103. */
    function Size(): (r: nat)
      reads this, a
      requires i < a.Length
      ensures r == |Contents()|
    {
      i
    }

    /**
     * prio_queue.c:73-87: fill the slots with the n nodes of b, in order,
     * then establish heap order bottom-up by sifting down from slot n / 2
     * to slot 1.
     */
    method Init(b: seq<Node>)
      requires a.Length == n + 1 && |b| == n
      requires forall p, q :: 0 <= p < q < |b| ==> b[p] != b[q]
      modifies this, a, Nodes, b
      ensures Valid() && i == n && Nodes == old(Nodes) + set x | x in b
      ensures multiset(Contents()) == multiset(b)
    {
      FillSlots(b);
      Heapify();
    }

    /** prio_queue.c:78-84: slot k holds the k-th element of b, which is told its position. */
    method FillSlots(b: seq<Node>)
      requires a.Length == n + 1 && |b| == n
      requires forall p, q :: 0 <= p < q < |b| ==> b[p] != b[q]
      modifies this, a, b
      ensures Slotted() && i == n && Nodes == old(Nodes) + set x | x in b
      ensures Contents() == b
    {
      var k := 1;
      while k <= n
        modifies a, b
        invariant 1 <= k <= n + 1
        invariant forall m :: 1 <= m < k ==> a[m] == b[m - 1] && a[m].pqI == m
      {
        assert forall m :: 1 <= m < k ==> a[m] != b[k - 1];
        a[k] := b[k - 1];
        a[k].pqI := k;
        k := k + 1;
      }
      i := n;
      Nodes := Nodes + set x | x in b;
    }

    /** prio_queue.c:85-86: sift down every inner slot, the last one first. */
    method Heapify()
      requires Slotted()
      modifies a, Nodes
      ensures Valid() && Nodes == old(Nodes)
      ensures multiset(Contents()) == multiset(old(Contents()))
    {
      var k := i / 2;
      while k >= 1
        modifies a, Nodes
        invariant 0 <= k <= i / 2
        invariant Slotted() && HeapFrom(k + 1) && Nodes == old(Nodes)
        invariant multiset(Contents()) == multiset(old(Contents()))
      {
        Down(k);
        k := k - 1;
      }
    }

    /**
     * prio_queue.c:92-98: put x in the first free slot and sift it up.  The
     * source checks neither the capacity nor whether x is already queued.
     */
    method Insert(x: Node)
      requires Valid() && i < n
      requires forall k :: 1 <= k <= i ==> a[k] != x
      modifies this, a, Nodes, x
      ensures Valid() && i == old(i) + 1 && Nodes == old(Nodes) + {x}
      ensures multiset(Contents()) == multiset(old(Contents())) + multiset{x}
    {
      PlaceLast(x);
      Up(i);
    }

    /** prio_queue.c:94-96: x takes the first free slot, which it is told. */
    method PlaceLast(x: Node)
      requires Valid() && i < n
      requires forall k :: 1 <= k <= i ==> a[k] != x
      modifies this, a, x
      ensures Slotted() && i == old(i) + 1 && HeapBut(a[..], i, i) && Nodes == old(Nodes) + {x}
      ensures Contents() == old(Contents()) + [x]
    {
      ghost var w := a[..];
      i := i + 1;
      a[i] := x;
      a[i].pqI := i;
      Nodes := Nodes + {x};
      AppendLeaf(w, a[..], i - 1, x);
    }

    /**
     * prio_queue.c:105-117: remove and return the node at the root, the
     * lightest one; the last node takes its slot and is sifted down.  The
     * source does not check that the queue is non-empty.
     */
    method PqMin() returns (x: Node)
      requires Valid() && i >= 1
      modifies this, a, Nodes
      ensures Valid() && i == old(i) - 1 && Nodes == old(Nodes)
      ensures x == old(a[1])
      ensures forall y :: y in old(Contents()) ==> Key(x) <= Key(y)
      ensures multiset(old(Contents())) == multiset(Contents()) + multiset{x}
    {
      RootMin(a[..], i);
      x := a[1];
      TakeRoot();
      Down(1);
    }

    /**
     * prio_queue.c:109-113: the last node moves to the root slot, which
     * it is told, and the queue shrinks by one.
     */
    method TakeRoot()
      requires Valid() && i >= 1
      modifies this, a, a[i]
      ensures Slotted() && HeapFrom(2) && i == old(i) - 1 && Nodes == old(Nodes)
      ensures old(i) > 1 ==> a[1] == old(a[i])
      ensures multiset(old(Contents())) == multiset(Contents()) + multiset{old(a[1])}
    {
      ghost var w := a[..];
      a[1] := a[i];
      a[1].pqI := 1;
      a[i] := null;
      i := i - 1;
      forall k | 2 <= k <= i
        ensures a[k] == w[k] && a[k].pqI == k
      {
        assert w[k] != w[i + 1];
      }
      LastToRoot(w, a[..], i + 1);
    }

    /**
     * prio_queue.c:14-23: exchange two slots and tell both moved nodes
     * their new slot.
     */
    method Swap(x: nat, y: nat)
      requires Slotted() && 1 <= x <= i && 1 <= y <= i && x != y
      modifies a, a[x], a[y]
      ensures Slotted()
      ensures a[..] == old(a[..])[x := old(a[y])][y := old(a[x])]
      ensures multiset(Contents()) == multiset(old(Contents()))
    {
      var t := a[x];
      a[x] := a[y];
      a[y] := t;
      a[x].pqI := x;
      a[y].pqI := y;
      forall k | 1 <= k <= i && k != x && k != y
        ensures a[k] == old(a[k]) && a[k].pqI == k
      {
        assert old(a[k]) != old(a[x]) && old(a[k]) != old(a[y]);
      }
      assert Contents() == old(Contents())[x - 1 := old(a[y])][y - 1 := old(a[x])];
    }

    /**
     * prio_queue.c:42-49: the child of slot k that down follows: the lighter
     * one, and the right one when they weigh the same.
     */
    function MinChild(k: nat): (j: nat)
      reads this, a, Nodes
      requires Slotted() && 1 <= k && 2 * k <= i
      ensures j == 2 * k || j == 2 * k + 1
      ensures j <= i
      ensures forall c :: (c == 2 * k || c == 2 * k + 1) && c <= i ==> Key(a[j]) <= Key(a[c])
      ensures 2 * k < i && Key(a[2 * k]) == Key(a[2 * k + 1]) ==> j == 2 * k + 1
    {
      if 2 * k == i then 2 * k
      else if CompareHuffman(a[2 * k], a[2 * k + 1]) < 0 then 2 * k
      else 2 * k + 1
    }

    /**
     * prio_queue.c:26-37: sift the node at slot k up.  It may be lighter
     * than its parent; everything else is in heap order, and k's parent
     * weighs no more than k's children.
     */
    method Up(k: nat)
      requires Slotted() && 1 <= k <= i && HeapBut(a[..], i, k)
      modifies a, Nodes
      ensures Slotted() && HeapFrom(1)
      ensures multiset(Contents()) == multiset(old(Contents()))
      decreases k
    {
      if k > 1 {
        var j := k / 2;
        if CompareHuffman(a[j], a[k]) > 0 {
          ghost var w := a[..];
          Swap(k, j);
          UpStep(w, a[..], i, k);
          Up(j);
        }
      }
    }

    /**
     * prio_queue.c:39-55: sift the node at slot k down.  Below k the heap is
     * in order.  Afterwards it is in order from k on, only k and slots from
     * 2k on have changed, and slot k holds what k or one of its children held.
     */
    method Down(k: nat)
      requires Slotted() && 1 <= k && HeapFrom(k + 1)
      modifies a, Nodes
      ensures Slotted() && HeapFrom(k)
      ensures multiset(Contents()) == multiset(old(Contents()))
      ensures forall m :: 1 <= m <= i && m < 2 * k && m != k ==> a[m] == old(a[m])
      ensures k <= i ==> a[k] == old(a[k]) || (2 * k <= i && a[k] == old(a[2 * k])) || (2 * k + 1 <= i && a[k] == old(a[2 * k + 1]))
      decreases i - k, 1
    {
      if 2 * k > i {
        DownStop(a[..], i, k, k);
        return;
      }
      var j := MinChild(k);
      if CompareHuffman(a[k], a[j]) <= 0 {
        DownStop(a[..], i, k, j);
      } else {
        SwapDown(k, j);
      }
    }

    /**
     * prio_queue.c:51-54: slot k is heavier than its lighter child j, so the
     * two exchange places and down goes on from j.
     */
    method SwapDown(k: nat, j: nat)
      requires Slotted() && 1 <= k && HeapFrom(k + 1) && 2 * k <= i && j == MinChild(k) && Key(a[j]) < Key(a[k])
      modifies a, Nodes
      ensures Slotted() && HeapFrom(k)
      ensures multiset(Contents()) == multiset(old(Contents()))
      ensures forall m :: 1 <= m <= i && m < 2 * k && m != k ==> a[m] == old(a[m])
      ensures a[k] == old(a[j])
      decreases i - k, 0
    {
      ghost var w := a[..];
      Swap(k, j);
      ghost var v := a[..];
      SwapKeepsBelow(w, v, i, k, j);
      Down(j);
      DownStep(w, v, a[..], i, k, j);
    }
  }
}
