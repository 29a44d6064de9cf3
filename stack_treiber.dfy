/**
 * The Treiber stack of stack/inc/stack_treiber.h, without the hazard
 * pointer branches: one top cell on the master rank, and a list of elements
 * {next, value} threaded from it.  push links a new element in front of the
 * top it read and swings top to it with a CAS; pop swings top to the next
 * element with a CAS.  A failing CAS means another rank wrote top between
 * the read and the CAS; those writes are a parameter of push and pop.
 */
module StackTreiber {
  import opened GlobalPtr
  import opened Rma

  /** elem<T>. */
  datatype Elem<T> = Elem(next: GPtr, value: T)

  /** pop's value: none when the stack was empty. */
  datatype Option<T> = None | Some(value: T)

  /** Every top value and every link names null or a written element. */
  ghost predicate Closed<T>(cells: map<GPtr, Elem<T>>, t: GPtr) {
    (t == Null || t in cells) &&
    forall a :: a in cells ==> cells[a].next == Null || cells[a].next in cells
  }

  /** Writing an element whose link is closed keeps every closed top closed. */
  lemma ClosedAfterWrite<T>(cells: map<GPtr, Elem<T>>, a: GPtr, e: Elem<T>, x: GPtr)
    requires Closed(cells, x) && (e.next == Null || e.next in cells)
    ensures Closed(cells[a := e], x)
  {
  }

  /**
   * The stack from `t` holds `vals`, top first, in the distinct elements
   * `addrs`, the last of which links to null.
   */
  ghost predicate IsStack<T>(cells: map<GPtr, Elem<T>>, t: GPtr, addrs: seq<GPtr>, vals: seq<T>) {
    |addrs| == |vals| &&
    (if addrs == [] then t == Null else t == addrs[0]) &&
    (forall i :: 0 <= i < |addrs| ==> addrs[i] != Null && addrs[i] in cells && cells[addrs[i]].value == vals[i]) &&
    (forall i :: 0 <= i < |addrs| - 1 ==> cells[addrs[i]].next == addrs[i + 1]) &&
    (addrs != [] ==> cells[addrs[|addrs| - 1]].next == Null) &&
    (forall i, j :: 0 <= i < j < |addrs| ==> addrs[i] != addrs[j])
  }

  /** A null top is the empty stack, and only the empty stack. */
  lemma {:induction false} EmptyStack<T>(cells: map<GPtr, Elem<T>>, addrs: seq<GPtr>, vals: seq<T>)
    ensures IsStack(cells, Null, [], [])
    ensures IsStack(cells, Null, addrs, vals) ==> addrs == [] && vals == []
  {
  }

  /**
   * Writing {t, v} into an element that is not on the stack from `t` and
   * making it the top pushes `v`.
   */
  lemma {:induction false} PushOnto<T>(cells: map<GPtr, Elem<T>>, t: GPtr, addrs: seq<GPtr>, vals: seq<T>, a: GPtr, v: T)
    requires IsStack(cells, t, addrs, vals) && a != Null && a !in addrs
    ensures IsStack(cells[a := Elem(t, v)], a, [a] + addrs, [v] + vals)
  {
    var c := cells[a := Elem(t, v)];
    var xs, vs := [a] + addrs, [v] + vals;
    forall i | 0 <= i < |xs| ensures xs[i] != Null && xs[i] in c && c[xs[i]].value == vs[i] {
      if i > 0 {
        assert xs[i] == addrs[i - 1] && xs[i] != a;
      }
    }
    forall i | 0 <= i < |xs| - 1 ensures c[xs[i]].next == xs[i + 1] {
      if i > 0 {
        assert xs[i] == addrs[i - 1] && xs[i] != a && xs[i + 1] == addrs[i];
      }
    }
    if addrs == [] {
      assert t == Null;
    } else {
      assert xs[|xs| - 1] == addrs[|addrs| - 1] != a;
    }
    forall i, j | 0 <= i < j < |xs| ensures xs[i] != xs[j] {
      if i > 0 {
        assert xs[i] == addrs[i - 1] && xs[j] == addrs[j - 1];
      } else {
        assert xs[j] == addrs[j - 1];
      }
    }
  }

  /**
   * The top element of a non-empty stack holds its first value, and its
   * link is the rest of the stack.
   */
  lemma {:induction false} PopFrom<T>(cells: map<GPtr, Elem<T>>, t: GPtr, addrs: seq<GPtr>, vals: seq<T>)
    requires IsStack(cells, t, addrs, vals) && t != Null
    ensures addrs != [] && t in cells && cells[t].value == vals[0]
    ensures IsStack(cells, cells[t].next, addrs[1..], vals[1..])
  {
    assert addrs != [];
    var xs := addrs[1..];
    forall i | 0 <= i < |xs| - 1 ensures cells[xs[i]].next == xs[i + 1] {
      assert xs[i] == addrs[i + 1] && xs[i + 1] == addrs[i + 2];
    }
    if |addrs| > 1 {
      assert cells[t].next == addrs[1];
    }
  }

  /**
   * Run sequentially from an empty stack, pushing 1, 2 and 3 into three
   * distinct elements and popping gives 3, 2 and 1, and then an empty top.
   */
  lemma OneTwoThree(cells: map<GPtr, Elem<int>>, a1: GPtr, a2: GPtr, a3: GPtr)
    requires a1 != Null && a2 != Null && a3 != Null && a1 != a2 && a2 != a3 && a1 != a3
    ensures var c := cells[a1 := Elem(Null, 1)][a2 := Elem(a1, 2)][a3 := Elem(a2, 3)];
      IsStack(c, a3, [a3, a2, a1], [3, 2, 1]) &&
      c[a3].value == 3 && c[c[a3].next].value == 2 && c[c[c[a3].next].next].value == 1 &&
      c[c[c[a3].next].next].next == Null
  {
    var c1 := cells[a1 := Elem(Null, 1)];
    var c2 := c1[a2 := Elem(a1, 2)];
    var c3 := c2[a3 := Elem(a2, 3)];
    EmptyStack<int>(cells, [], []);
    PushOnto(cells, Null, [], [], a1, 1);
    PushOnto(c1, a1, [a1], [1], a2, 2);
    PushOnto(c2, a2, [a2, a1], [2, 1], a3, 3);
    PopFrom(c3, a3, [a3, a2, a1], [3, 2, 1]);
    PopFrom(c3, a2, [a2, a1], [2, 1]);
    PopFrom(c3, a1, [a1], [1]);
  }

  /**
   * The top push's successful attempt read: attempt k reads `cur`, then
   * another rank stores `others[k]`, and the CAS succeeds when that equals
   * `cur`; once the interference runs out, the CAS succeeds.
   */
  function PushSeen(cur: GPtr, others: seq<GPtr>): (s: GPtr)
    ensures s == cur || s in others
    ensures others == [] ==> s == cur
    decreases |others|
  {
    if others == [] || others[0] == cur then cur else PushSeen(others[0], others[1..])
  }

  /** The top pop's last attempt read: as for push, but a null read ends the attempts. */
  function PopSeen(cur: GPtr, others: seq<GPtr>): (s: GPtr)
    ensures s == cur || s in others
    ensures others == [] || cur == Null ==> s == cur
    decreases |others|
  {
    if cur == Null || others == [] || others[0] == cur then cur else PopSeen(others[0], others[1..])
  }

  class Stack<T(==)> {
    const own: nat                // BCL::rank()
    const master: nat             // MASTER_UNIT
    const top: GPtr               // the master's top cell
    const tops: Heap<GPtr>        // top cells
    const elems: Heap<Elem<T>>    // element cells

    ghost predicate Valid()
      reads this, tops, elems
    {
      top in tops.cells && Closed(elems.cells, tops.cells[top])
    }

    /**
     * The constructor: every rank allocated its top cell at offset `topOff`;
     * the master stores null into its own, the others redirect their top to
     * the master's (which the master has initialised by the barrier).
     */
    constructor (own: nat, master: nat, topOff: nat, tops: Heap<GPtr>, elems: Heap<Elem<T>>)
      requires Closed(elems.cells, Null)
      requires own != master ==> Ptr(master, topOff) in tops.cells && Closed(elems.cells, tops.cells[Ptr(master, topOff)])
      modifies tops
      ensures Valid() && this.own == own && this.master == master && this.tops == tops && this.elems == elems
      ensures top == Ptr(master, topOff)
      ensures own == master ==> tops.cells == old(tops.cells)[top := Null]
      ensures own != master ==> unchanged(tops)
    {
      this.own, this.master, this.tops, this.elems := own, master, tops, elems;
      top := Ptr(master, topOff);
      new;
      if own == master {
        tops.Put(Null, top);
      }
    }

    /**
     * push of `v` into `addr`, the address malloc returned: false, touching
     * nothing, when that is null; otherwise the element holds {top read by
     * the successful attempt, v} and top is `addr`.
     */
    method Push(v: T, addr: GPtr, others: seq<GPtr>) returns (ok: bool)
      requires Valid() && forall x :: x in others ==> Closed(elems.cells, x)
      modifies tops, elems
      ensures Valid() && (ok <==> addr != Null)
      ensures !ok ==> unchanged(tops, elems)
      ensures ok ==>
                elems.cells == old(elems.cells)[addr := Elem(PushSeen(old(tops.cells[top]), others), v)] &&
                tops.cells == old(tops.cells)[top := addr]
    {
      if addr == Null {
        return false;
      }
      var rest := others;
      while true
        invariant Valid() && forall x :: x in rest ==> Closed(elems.cells, x)
        invariant PushSeen(tops.cells[top], rest) == PushSeen(old(tops.cells[top]), others)
        invariant tops.cells == old(tops.cells)[top := tops.cells[top]]
        invariant elems.cells == old(elems.cells) ||
                  (addr in elems.cells && elems.cells == old(elems.cells)[addr := elems.cells[addr]])
        decreases |rest|
      {
        var t := tops.Get(top);
        forall x | x in rest ensures Closed(elems.cells[addr := Elem(t, v)], x) {
          ClosedAfterWrite(elems.cells, addr, Elem(t, v), x);
        }
        ClosedAfterWrite(elems.cells, addr, Elem(t, v), t);
        elems.Put(Elem(t, v), addr);
        assert tops.cells[top] == t;
        assert forall x :: x in rest ==> Closed(elems.cells, x);
        if rest != [] {
          tops.Put(rest[0], top);
        }
        var prev := tops.Cas(top, t, addr);
        if prev == t {
          return true;
        }
        assert rest[0] in rest;
        assert forall x :: x in rest[1..] ==> x in rest;
        rest := rest[1..];
      }
    }

    /**
     * pop: the top its last attempt read; when that is null, false and
     * nothing removed; otherwise that element's value, top swung to its
     * link, and the element handed to free.
     */
    method Pop(others: seq<GPtr>) returns (r: Option<T>, freed: GPtr)
      requires Valid() && forall x :: x in others ==> Closed(elems.cells, x)
      modifies tops
      ensures Valid() && unchanged(elems)
      ensures var s := PopSeen(old(tops.cells[top]), others);
        if s == Null then
          r == None && freed == Null && tops.cells == old(tops.cells)[top := Null]
        else
          s in elems.cells && r == Some(elems.cells[s].value) && freed == s &&
          tops.cells == old(tops.cells)[top := elems.cells[s].next]
    {
      var rest := others;
      while true
        invariant Valid() && forall x :: x in rest ==> Closed(elems.cells, x)
        invariant PopSeen(tops.cells[top], rest) == PopSeen(old(tops.cells[top]), others)
        invariant tops.cells == old(tops.cells)[top := tops.cells[top]]
        decreases |rest|
      {
        var t := tops.Get(top);
        if t == Null {
          return None, Null;
        }
        var e := elems.Get(t);
        if rest != [] {
          tops.Put(rest[0], top);
        }
        var prev := tops.Cas(top, t, e.next);
        if prev == t {
          return Some(e.value), t;
        }
        rest := rest[1..];
      }
    }

    /** A push followed by a pop, with no rank in between, gives the value back. */
    method PushThenPop(v: T, addr: GPtr) returns (r: Option<T>)
      requires Valid() && addr != Null
      modifies tops, elems
      ensures Valid() && r == Some(v) && tops.cells == old(tops.cells)
    {
      var ok := Push(v, addr, []);
      var freed;
      r, freed := Pop([]);
    }

    /**
     * push_fill: on the master, the element `addr` (malloc's result) is
     * linked in front of the top with plain stores; false when `addr` is
     * null.  On any other rank the source returns no value at all; the
     * model leaves the result unconstrained and changes nothing.
     */
    method PushFill(v: T, addr: GPtr) returns (ok: bool)
      requires Valid()
      modifies tops, elems
      ensures Valid()
      ensures own == master ==> (ok <==> addr != Null)
      ensures own != master || addr == Null ==> unchanged(tops, elems)
      ensures own == master && addr != Null ==>
                elems.cells == old(elems.cells)[addr := Elem(old(tops.cells[top]), v)] &&
                tops.cells == old(tops.cells)[top := addr]
    {
      if own == master {
        if addr == Null {
          return false;
        }
        var t := tops.Get(top);
        elems.Put(Elem(t, v), addr);
        tops.Put(addr, top);
        ok := true;
      } else {
        ok := *;
      }
    }
  }
}
