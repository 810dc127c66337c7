/**
 * list.c: a circular doubly-linked list.  Every cell is linked to its
 * successor and its predecessor, the last cell back to the first; a list is
 * the variable holding a pointer to its first cell, null when empty, which
 * the operations receive by address.
 *
 * The cycle is abstracted by the ghost sequence of its cells read from the
 * head in successor order; `Ring` says that the links are exactly those of
 * that sequence.
 */
module CircularList {
  import opened Wrappers

  /** list_t: a cell holding a datum, linked both ways. */
  class Cell<T> {
    var succ: Cell?<T>
    var pred: Cell?<T>
    const data: T

    /** new_list (list.c:9-18): a one-cell cycle, linked to itself both ways. */
    constructor (d: T)
      ensures succ == this && pred == this && data == d
    {
      data := d;
      new;
      succ := this;
      pred := this;
    }
  }

  /** b follows a on the cycle. */
  ghost predicate Linked<T>(a: Cell<T>, b: Cell<T>)
    reads a, b
  {
    a.succ == b && b.pred == a
  }

  /** The position after i on a cycle of n cells. */
  function Succ(i: nat, n: nat): nat
  {
    if i + 1 < n then i + 1 else 0
  }

  /** The i-th cell is linked to the one after it on the cycle. */
  ghost predicate LinkedAt<T>(cells: seq<Cell<T>>, i: nat)
    requires i < |cells|
    reads cells[i], cells[Succ(i, |cells|)]
  {
    Linked(cells[i], cells[Succ(i, |cells|)])
  }

  /** No cell occurs twice. */
  ghost predicate Distinct<T>(cells: seq<Cell<T>>)
  {
    forall i, j :: 0 <= i < j < |cells| ==> cells[i] != cells[j]
  }

  /** The cells are distinct and linked into one cycle, in this order. */
  ghost predicate Ring<T>(cells: seq<Cell<T>>)
    reads cells
  {
    |cells| >= 1 && Distinct(cells) && forall i :: 0 <= i < |cells| ==> LinkedAt(cells, i)
  }

  /** A pointer x to the first of the cells xs, or null when there are none. */
  ghost predicate Anchored<T>(x: Cell?<T>, xs: seq<Cell<T>>)
    reads xs
  {
    if x == null then xs == [] else Ring(xs) && xs[0] == x
  }

  /** The data the cells hold, in order. */
  function Data<T>(cells: seq<Cell<T>>): (d: seq<T>)
    ensures |d| == |cells| && forall i :: 0 <= i < |cells| ==> d[i] == cells[i].data
  {
    seq(|cells|, i requires 0 <= i < |cells| => cells[i].data)
  }

  lemma DataCons<T>(c: Cell<T>, s: seq<Cell<T>>)
    ensures Data([c] + s) == [c.data] + Data(s)
  {
    assert |Data([c] + s)| == |[c.data] + Data(s)|;
  }

  lemma DataSnoc<T>(s: seq<Cell<T>>, c: Cell<T>)
    ensures Data(s + [c]) == Data(s) + [c.data]
  {
    assert |Data(s + [c])| == |Data(s) + [c.data]|;
  }

  lemma DataDrop<T>(s: seq<Cell<T>>, k: nat)
    requires k < |s|
    ensures Data(s[..k] + s[k + 1..]) == Data(s)[..k] + Data(s)[k + 1..]
  {
    var t := s[..k] + s[k + 1..];
    forall i | 0 <= i < |t|
      ensures t[i] == s[if i < k then i else i + 1]
    {
    }
  }

  /** Where the i-th cell of b + a sits in a + b. */
  function Shifted(i: nat, na: nat, nb: nat): nat
  {
    if i < nb then na + i else i - nb
  }

  /** A cycle read from another of its cells is still a cycle. */
  lemma Rotate<T>(a: seq<Cell<T>>, b: seq<Cell<T>>)
    requires a != [] && b != [] && Ring(a + b)
    ensures Ring(b + a)
  {
    var s, t := a + b, b + a;
    var n := |s|;
    forall i, j | 0 <= i < j < n
      ensures t[i] != t[j]
    {
      assert t[i] == s[Shifted(i, |a|, |b|)] && t[j] == s[Shifted(j, |a|, |b|)];
    }
    forall i | 0 <= i < n
      ensures LinkedAt(t, i)
    {
      var k := Shifted(i, |a|, |b|);
      assert LinkedAt(s, k);
      assert t[i] == s[k] && t[Succ(i, n)] == s[Succ(k, n)];
    }
  }

  /**
   * append (list.c:47-60): the cycle ys is spliced in after the last cell of
   * the cycle xs, so that reading from the first cell of xs gives xs and then
   * ys.  When xs is empty the result is ys, and when ys is empty nothing
   * changes.
   */
  method Append<T>(x: Cell?<T>, ghost xs: seq<Cell<T>>, y: Cell?<T>, ghost ys: seq<Cell<T>>) returns (r: Cell?<T>)
    requires Anchored(x, xs) && Anchored(y, ys)
    requires forall i, j :: 0 <= i < |xs| && 0 <= j < |ys| ==> xs[i] != ys[j]
    modifies xs, ys
    ensures r == if x == null then y else x
    ensures Anchored(r, xs + ys)
  {
    if x == null {
      r := y;
      assert xs + ys == ys;
    } else {
      r := x;
      if y == null {
        assert xs + ys == xs;
      } else {
        assert LinkedAt(xs, |xs| - 1) && LinkedAt(ys, |ys| - 1);
        var xl, yl := x.pred, y.pred;
        xl.succ := y;
        yl.succ := x;
        x.pred := yl;
        y.pred := xl;
        forall i | 0 <= i < |xs| - 1
          ensures LinkedAt(xs, i)
        {
          assert old(LinkedAt(xs, i));
          assert xs[i] != xs[|xs| - 1] && xs[i] != ys[|ys| - 1];
          assert xs[i + 1] != xs[0] && xs[i + 1] != ys[0];
        }
        forall i | 0 <= i < |ys| - 1
          ensures LinkedAt(ys, i)
        {
          assert old(LinkedAt(ys, i));
          assert ys[i] != xs[|xs| - 1] && ys[i] != ys[|ys| - 1];
          assert ys[i + 1] != xs[0] && ys[i + 1] != ys[0];
        }
        Joined(xs, ys);
      }
    }
  }

  /** The links Append leaves make one cycle of xs + ys. */
  lemma Joined<T>(xs: seq<Cell<T>>, ys: seq<Cell<T>>)
    requires xs != [] && ys != [] && Distinct(xs) && Distinct(ys)
    requires forall i, j :: 0 <= i < |xs| && 0 <= j < |ys| ==> xs[i] != ys[j]
    requires forall i :: 0 <= i < |xs| - 1 ==> LinkedAt(xs, i)
    requires forall i :: 0 <= i < |ys| - 1 ==> LinkedAt(ys, i)
    requires Linked(xs[|xs| - 1], ys[0]) && Linked(ys[|ys| - 1], xs[0])
    ensures Ring(xs + ys)
  {
    var s := xs + ys;
    forall i, j | 0 <= i < j < |s|
      ensures s[i] != s[j]
    {
      if j < |xs| {
        assert s[i] == xs[i] && s[j] == xs[j];
      } else if i < |xs| {
        assert s[i] == xs[i] && s[j] == ys[j - |xs|];
      } else {
        assert s[i] == ys[i - |xs|] && s[j] == ys[j - |xs|];
      }
    }
    forall i | 0 <= i < |s|
      ensures LinkedAt(s, i)
    {
      if i < |xs| - 1 {
        assert LinkedAt(xs, i);
        assert s[i] == xs[i] && s[i + 1] == xs[i + 1];
      } else if i == |xs| - 1 {
        assert s[i] == xs[|xs| - 1] && s[i + 1] == ys[0];
      } else if i < |s| - 1 {
        assert LinkedAt(ys, i - |xs|);
        assert s[i] == ys[i - |xs|] && s[i + 1] == ys[i - |xs| + 1];
      } else {
        assert s[i] == ys[|ys| - 1] && s[0] == xs[0];
      }
    }
  }

  /**
   * delete_list (list.c:62-67): the k-th cell of a cycle is unlinked, its
   * neighbours now linked to each other; the rest is still one cycle, in the
   * same order.  Releasing the cell's memory is not modelled.
   */
  method Delete<T>(c: Cell<T>, ghost cells: seq<Cell<T>>, ghost k: nat)
    requires Ring(cells) && k < |cells| && cells[k] == c
    modifies cells
    ensures |cells| > 1 ==> Ring(cells[..k] + cells[k + 1..])
  {
    ghost var r := cells[k..] + cells[..k];
    if k > 0 {
      assert cells[..k] + cells[k..] == cells;
      Rotate(cells[..k], cells[k..]);
    } else {
      assert r == cells;
    }
    assert LinkedAt(cells, k) && LinkedAt(cells, if k == 0 then |cells| - 1 else k - 1);
    Unlink(c, r);
    if |cells| > 1 {
      Reread(cells, k);
    }
  }

  /** delete_list on the cycle read from the cell it unlinks. */
  method Unlink<T>(c: Cell<T>, ghost r: seq<Cell<T>>)
    requires Ring(r) && r[0] == c
    modifies c.pred, c.succ
    ensures |r| > 1 ==> Ring(r[1..])
  {
    assert LinkedAt(r, 0) && LinkedAt(r, |r| - 1);
    ghost var next := c.succ;
    c.pred.succ := c.succ;
    assert c.succ == next;
    c.succ.pred := c.pred;
    if |r| > 1 {
      forall i | 1 <= i < |r| - 1
        ensures LinkedAt(r, i)
      {
        assert old(LinkedAt(r, i));
        assert r[i] != r[|r| - 1] && r[i + 1] != r[1];
      }
      Dropped(r);
    }
  }

  /** A cycle whose first cell has been bypassed is a cycle of the others. */
  lemma Dropped<T>(r: seq<Cell<T>>)
    requires |r| >= 2 && Distinct(r)
    requires forall i :: 1 <= i < |r| - 1 ==> LinkedAt(r, i)
    requires Linked(r[|r| - 1], r[1])
    ensures Ring(r[1..])
  {
    var s := r[1..];
    forall i | 0 <= i < |s|
      ensures LinkedAt(s, i)
    {
      if i < |s| - 1 {
        assert LinkedAt(r, i + 1);
        assert s[i] == r[i + 1] && s[i + 1] == r[i + 2];
      } else {
        assert s[i] == r[|r| - 1] && s[0] == r[1];
      }
    }
  }

  /** The cycle after the k-th cell, read from the first cell again. */
  lemma Reread<T>(cells: seq<Cell<T>>, k: nat)
    requires 1 < |cells| && k < |cells|
    requires Ring((cells[k..] + cells[..k])[1..])
    ensures Ring(cells[..k] + cells[k + 1..])
  {
    assert (cells[k..] + cells[..k])[1..] == cells[k + 1..] + cells[..k];
    if 0 < k < |cells| - 1 {
      Rotate(cells[k + 1..], cells[..k]);
    } else {
      assert cells[k + 1..] + cells[..k] == cells[..k] + cells[k + 1..];
    }
  }

  /** The cycle that insert_after leaves, read from the old head again. */
  lemma Spliced<T>(cells: seq<Cell<T>>, p: Cell<T>)
    requires cells != [] && Ring(cells[1..] + cells[..1] + [p])
    ensures Ring([cells[0], p] + cells[1..])
    ensures Data([cells[0], p] + cells[1..]) == [cells[0].data, p.data] + Data(cells)[1..]
  {
    if |cells| > 1 {
      assert cells[1..] + cells[..1] + [p] == cells[1..] + (cells[..1] + [p]);
      Rotate(cells[1..], cells[..1] + [p]);
      assert cells[..1] + [p] + cells[1..] == [cells[0], p] + cells[1..];
    } else {
      assert cells[1..] + cells[..1] + [p] == [cells[0], p];
      assert [cells[0], p] + cells[1..] == [cells[0], p];
    }
  }

  /** The index of the first occurrence of d in s. */
  function IndexOf<T(==)>(s: seq<T>, d: T): (k: nat)
    requires d in s
    ensures k < |s| && s[k] == d && forall j :: 0 <= j < k ==> s[j] != d
  {
    if s[0] == d then 0 else 1 + IndexOf(s[1..], d)
  }

  /** s without the first occurrence of d, or s itself when d does not occur. */
  function RemoveFirstOf<T(==)>(s: seq<T>, d: T): seq<T>
  {
    if d in s then s[..IndexOf(s, d)] + s[IndexOf(s, d) + 1..] else s
  }

  /** Removing the first occurrence of d takes one d away, and nothing else. */
  lemma RemovedOnce<T>(s: seq<T>, d: T)
    ensures multiset(RemoveFirstOf(s, d)) == multiset(s) - multiset{d}
    ensures |RemoveFirstOf(s, d)| == if d in s then |s| - 1 else |s|
  {
    if d in s {
      var k := IndexOf(s, d);
      assert s == s[..k] + [d] + s[k + 1..];
    } else {
      assert multiset(s)[d] == 0;
    }
  }

  /**
   * The variable holding a pointer to the first cell of a list, or null for
   * an empty list, which the operations of list.c update through its
   * address.
   */
  class List<T(==)> {
    var head: Cell?<T>
    /** The cells of the cycle, read from head in successor order. */
    ghost var Cells: seq<Cell<T>>

    ghost predicate Valid()
      reads this, Cells
    {
      Anchored(head, Cells)
    }

    /** The data held, from the head on. */
    ghost function Items(): seq<T>
      reads this
    {
      Data(Cells)
    }

    /** A variable set to null: the empty list. */
    constructor ()
      ensures Valid() && head == null && Cells == []
    {
      head := null;
      Cells := [];
    }

    /** insert_last (list.c:20-36): d goes at the end; the head stays. */
    method InsertLast(d: T)
      requires Valid()
      modifies this, Cells
      ensures Valid() && Items() == old(Items()) + [d]
      ensures old(head) != null ==> head == old(head)
      ensures Cells[..|old(Cells)|] == old(Cells) && fresh(Cells[|Cells| - 1])
    {
      var c := new Cell(d);
      ghost var cs := Cells + [c];
      if head == null {
        assert cs == [c] && LinkedAt(cs, 0);
        head := c;
      } else {
        var r := Append(head, Cells, c, [c]);
        assert Anchored(head, cs);
      }
      DataSnoc(Cells, c);
      assert cs[..|Cells|] == Cells;
      Cells := cs;
    }

    /** insert_first (list.c:38-45): d goes in front and its cell is the new head. */
    method InsertFirst(d: T)
      requires Valid()
      modifies this, Cells
      ensures Valid() && Items() == [d] + old(Items())
      ensures Cells == [head] + old(Cells) && fresh(head)
    {
      var c := new Cell(d);
      ghost var cs := [c] + Cells;
      var r := Append(c, [c], head, Cells);
      assert Anchored(r, cs);
      head := r;
      DataCons(c, Cells);
      Cells := cs;
    }

    /**
     * insert_before (list.c:69-79): d goes just before the head, which on
     * a cycle is the end; the head stays.
     */
    method InsertBefore(d: T)
      requires Valid()
      modifies this, Cells
      ensures Valid() && Items() == old(Items()) + [d]
      ensures old(head) != null ==> head == old(head)
      ensures Cells[..|old(Cells)|] == old(Cells) && fresh(Cells[|Cells| - 1])
    {
      var p := new Cell(d);
      ghost var c := p;
      ghost var cs := Cells + [p];
      if head == null {
        head := p;
      } else {
        p := Append(p, [p], head, Cells);
        assert Ring([c] + Cells);
        Rotate([c], Cells);
        assert Anchored(head, cs);
      }
      DataSnoc(Cells, c);
      assert cs[..|Cells|] == Cells;
      Cells := cs;
    }

    /** insert_after (list.c:81-94): d goes just after the head, which stays. */
    method InsertAfter(d: T)
      requires Valid()
      modifies this, Cells
      ensures Valid()
      ensures Items() == if old(Items()) == [] then [d] else [old(Items())[0], d] + old(Items())[1..]
      ensures old(head) != null ==> head == old(head)
    {
      var p := new Cell(d);
      if head == null {
        head := p;
        Cells := [p];
        DataCons(p, []);
      } else {
        ghost var rot := Cells[1..] + Cells[..1];
        if |Cells| > 1 {
          assert Cells[..1] + Cells[1..] == Cells;
          Rotate(Cells[..1], Cells[1..]);
        } else {
          assert rot == Cells;
        }
        assert LinkedAt(Cells, 0);
        var q := head.succ;
        q := Append(q, rot, p, [p]);
        Spliced(Cells, p);
        Cells := [head, p] + Cells[1..];
      }
    }

    /** length (list.c:96-112): walk the cycle once, counting the cells. */
    method Length() returns (n: nat)
      requires Valid()
      ensures n == |Items()|
    {
      if head == null {
        return 0;
      }
      var p := head;
      n := 0;
      while true
        invariant n < |Cells| && p == Cells[n]
        decreases |Cells| - n
      {
        assert LinkedAt(Cells, n);
        n := n + 1;
        p := p.succ;
        if p == head {
          break;
        }
      }
    }

    /**
     * remove_first (list.c:114-132): nothing for an empty list; otherwise
     * the head's datum, the head moving on to the next cell, or to null when
     * it was the only one.
     */
    method RemoveFirst() returns (d: Option<T>)
      requires Valid()
      modifies this, Cells
      ensures Valid()
      ensures old(Items()) == [] ==> d == None && Items() == []
      ensures old(Items()) != [] ==> d == Some(old(Items())[0]) && Items() == old(Items())[1..]
      ensures Cells == if old(Cells) == [] then [] else old(Cells)[1..]
    {
      if head == null {
        return None;
      }
      d := Some(head.data);
      Unhook(head, 0);
    }

    /**
     * free_list (list.c:134-144): unlink the cells after the head one by
     * one, then the head, and leave the variable null.
     */
    method FreeList()
      requires Valid()
      modifies this, Cells
      ensures Valid() && head == null && Items() == []
    {
      if head == null {
        return;
      }
      ghost var all := Cells;
      while head != head.succ
        invariant Valid() && head != null
        invariant forall i :: 0 <= i < |Cells| ==> Cells[i] in all
        decreases |Cells|
      {
        assert LinkedAt(Cells, 0);
        Delete(head.succ, Cells, 1);
        Cells := Cells[..1] + Cells[2..];
      }
      Delete(head, Cells, 0);
      head := null;
      Cells := [];
    }

    /**
     * apply (list.c:146-158): the data, one cell at a time from the head in
     * successor order, as the callback receives them.
     */
    method Apply() returns (visited: seq<T>)
      requires Valid()
      ensures visited == Items()
    {
      visited := [];
      if head == null {
        return;
      }
      var p := head;
      ghost var n := 0;
      while true
        invariant n < |Cells| && p == Cells[n] && visited == Data(Cells[..n])
        decreases |Cells| - n
      {
        visited := visited + [p.data];
        assert Cells[..n + 1] == Cells[..n] + [p];
        DataSnoc(Cells[..n], p);
        assert LinkedAt(Cells, n);
        n := n + 1;
        p := p.succ;
        if p == head {
          assert Cells[..n] == Cells;
          break;
        }
      }
    }

    /**
     * remove_from_list (list.c:160-180): the first cell from the head whose
     * datum is d is unlinked, and the head moves on when it was that cell;
     * nothing changes when no cell holds d.  The list must not be empty.
     */
    method Remove(d: T)
      requires Valid() && head != null
      modifies this, Cells
      ensures Valid() && Items() == RemoveFirstOf(old(Items()), d)
      ensures d !in old(Items()) ==> head == old(head) && Cells == old(Cells)
      ensures d in old(Items()) ==> Cells == old(Cells)[..IndexOf(old(Items()), d)] + old(Cells)[IndexOf(old(Items()), d) + 1..]
    {
      var h := head;
      var p := h;
      ghost var k := 0;
      while true
        invariant k < |Cells| && p == Cells[k] && head == h && Valid()
        invariant Cells == old(Cells)
        invariant forall j :: 0 <= j < k ==> Cells[j].data != d
        decreases |Cells| - k
      {
        if p.data == d {
          assert IndexOf(Items(), d) == k;
          Unhook(p, k);
          return;
        }
        assert LinkedAt(Cells, k);
        p := p.succ;
        k := k + 1;
        if p == h {
          break;
        }
      }
      assert forall j :: 0 <= j < |Items()| ==> Items()[j] != d;
    }

    /**
     * list.c:119-129 and list.c:168-176: the k-th cell is unlinked; when it
     * is the head, the head moves on to the next cell, or to null when it
     * was the only one.
     */
    method Unhook(p: Cell<T>, ghost k: nat)
      requires Valid() && k < |Cells| && Cells[k] == p
      modifies this, Cells
      ensures Valid() && Cells == old(Cells)[..k] + old(Cells)[k + 1..]
      ensures Items() == old(Items())[..k] + old(Items())[k + 1..]
      ensures k > 0 ==> head == old(head)
    {
      var h := head;
      ghost var rest := Cells[..k] + Cells[k + 1..];
      if p == h {
        assert LinkedAt(Cells, 0);
        assert k == 0;
        if h == h.succ {
          assert |Cells| == 1;
          head := null;
        } else {
          head := h.succ;
        }
      }
      Delete(p, Cells, k);
      assert Anchored(head, rest);
      DataDrop(Cells, k);
      Cells := rest;
    }
  }
}
