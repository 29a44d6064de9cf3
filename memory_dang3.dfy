/**
 * The manager of memory/memory_dang3.h.  Reclaimed addresses are not reused
 * by the rank that scanned them: the scan sorts them into one buffer per
 * owning rank, and a buffer that reaches HP_WINDOW elements is handed to the
 * owner through the single-producer single-consumer queue
 * queues[owner][scanner].  Every HP_WINDOW-th malloc, and once more when the
 * pool is exhausted, the owner drains the batches waiting in its queues into
 * list_rec.
 *
 * The queues are shared by all ranks, so they are one object here, a map from
 * (owner, producer) to the batches waiting in that queue, oldest first.  What
 * a buffer holds after it was moved into a queue is not fixed by the code:
 * the model lets it hold anything.
 */
module MemoryDang3 {
  import opened GlobalPtr
  import opened Rma
  import opened Hazard
  import opened Batching

  /** queues[owner][producer]: the batches waiting in each queue, oldest first. */
  type Grid = seq<seq<Batches>>

  /** The oldest batch of a queue, or nothing. */
  function Front(b: Batches): seq<GPtr> {
    if b == [] then [] else b[0]
  }

  /** A queue after a dequeue. */
  function Rest(b: Batches): Batches {
    if b == [] then [] else b[1..]
  }

  /** `n` ranks, each with one queue per producer rank. */
  ghost predicate Square(q: Grid, n: nat) {
    |q| == n && forall i :: 0 <= i < n ==> |q[i]| == n
  }

  /** The oldest batch of each queue of a row. */
  function Fronts(row: seq<Batches>): seq<seq<GPtr>> {
    seq(|row|, j requires 0 <= j < |row| => Front(row[j]))
  }

  /** The contents of each queue of a row. */
  function Contents(row: seq<Batches>): seq<seq<GPtr>> {
    seq(|row|, j requires 0 <= j < |row| => Flatten(row[j]))
  }

  /** Every queue of a row after one dequeue. */
  function Popped(row: seq<Batches>): seq<Batches> {
    seq(|row|, j requires 0 <= j < |row| => Rest(row[j]))
  }

  /** What draining a row of queues appends to list_rec: the oldest batch of each queue in turn. */
  function Drained(row: seq<Batches>): seq<GPtr> {
    Flatten(Fronts(row))
  }

  /** Dequeuing queue `i` of a row whose first `i` queues were dequeued already. */
  lemma PoppedStep(row: seq<Batches>, i: nat)
    requires i < |row|
    ensures (Popped(row[..i]) + row[i..])[i := Rest(row[i])] == Popped(row[..i + 1]) + row[i + 1..]
  {
    var a := (Popped(row[..i]) + row[i..])[i := Rest(row[i])];
    var b := Popped(row[..i + 1]) + row[i + 1..];
    assert |a| == |row| == |b|;
    forall j | 0 <= j < |row| ensures a[j] == b[j] {
      if j < i {
        assert a[j] == Popped(row[..i])[j] == Rest(row[j]);
        assert b[j] == Popped(row[..i + 1])[j] == Rest(row[j]);
      } else if j > i {
        assert a[j] == row[j] == b[j];
      }
    }
  }

  /** Every address waiting in a row of queues. */
  function Waiting(row: seq<Batches>): seq<GPtr> {
    Flatten(Contents(row))
  }

  /** Draining one more queue appends its oldest batch. */
  lemma DrainedAppend(row: seq<Batches>, i: nat)
    requires i < |row|
    ensures Drained(row[..i + 1]) == Drained(row[..i]) + Front(row[i])
  {
    assert Fronts(row[..i + 1]) == Fronts(row[..i]) + [Front(row[i])];
    FlattenAppend(Fronts(row[..i]), Front(row[i]));
  }

  /**
   * A drain loses nothing: the addresses it moves to list_rec and those left
   * waiting in the drained queues are together exactly those that waited
   * before.
   */
  lemma {:induction false} DrainConserves(row: seq<Batches>)
    ensures multiset(Drained(row)) + multiset(Waiting(Popped(row))) == multiset(Waiting(row))
  {
    if row != [] {
      var b := row[0];
      DrainConserves(row[1..]);
      DrainedCons(row);
      PoppedCons(row);
      WaitingCons(Popped(row));
      WaitingCons(row);
      assert Flatten(b) == Front(b) + Flatten(Rest(b));
    }
  }

  /** Draining a non-empty row takes its first queue's oldest batch before the rest. */
  lemma DrainedCons(row: seq<Batches>)
    requires row != []
    ensures Drained(row) == Front(row[0]) + Drained(row[1..])
  {
    assert Fronts(row)[1..] == Fronts(row[1..]);
  }

  /** The addresses of a non-empty row: its first queue's, then the rest's. */
  lemma WaitingCons(row: seq<Batches>)
    requires row != []
    ensures Waiting(row) == Flatten(row[0]) + Waiting(row[1..])
  {
    assert Contents(row)[1..] == Contents(row[1..]);
  }

  /** Popping a non-empty row pops its first queue and the rest separately. */
  lemma PoppedCons(row: seq<Batches>)
    requires row != []
    ensures Popped(row) != [] && Popped(row)[0] == Rest(row[0]) && Popped(row)[1..] == Popped(row[1..])
  {
  }

  /** The queues (i, own) into which `own` produces, one per rank i. */
  function Column(q: Grid, own: nat): seq<Batches> {
    seq(|q|, i requires 0 <= i < |q| => if own < |q[i]| then q[i][own] else [])
  }

  /** Appending batch `b` to queue (r, own). */
  function Enqueued(q: Grid, r: nat, own: nat, b: seq<GPtr>): Grid
    requires r < |q| && own < |q[r]|
  {
    q[r := q[r][own := q[r][own] + [b]]]
  }

  /** An enqueue into (r, own) adds exactly the batch to what `own` has sent. */
  lemma SentEnqueue(q: Grid, r: nat, own: nat, b: seq<GPtr>)
    requires r < |q| && own < |q[r]|
    ensures multiset(Waiting(Column(Enqueued(q, r, own, b), own))) == multiset(Waiting(Column(q, own))) + multiset(b)
  {
    var col := Column(q, own);
    assert Column(Enqueued(q, r, own, b), own) == col[r := col[r] + [b]];
    assert Contents(col[r := col[r] + [b]]) == Contents(col)[r := Flatten(col[r] + [b])];
    FlattenUpdate(Contents(col), r, Flatten(col[r] + [b]));
    FlattenAppend(col[r], b);
    Cancel(multiset(Waiting(col[r := col[r] + [b]])), multiset(Flatten(col[r])),
           multiset(Waiting(col)), multiset(b));
  }

  /** The state Stage 3 routes into: the per-owner buffers and the queues. */
  datatype Routing = Routing(buffers: Batches, queues: Grid)

  ghost predicate Routable(st: Routing, own: nat, addr: GPtr) {
    addr.Ptr? && addr.rank < |st.buffers| && addr.rank < |st.queues| && own < |st.queues[addr.rank]|
  }

  /** `st1` has the buffers and queues `st` has, each holding whatever. */
  ghost predicate SameShape(st: Routing, st1: Routing) {
    |st1.buffers| == |st.buffers| && |st1.queues| == |st.queues| &&
    forall i :: 0 <= i < |st.queues| ==> |st1.queues[i]| == |st.queues[i]|
  }

  /**
   * One unprotected address: appended to the buffer of its owner; a buffer
   * that reaches exactly `w` elements is enqueued to queues[owner][own], and
   * then holds `left`, whatever the moved-from buffer holds.
   */
  function RouteStep(st: Routing, own: nat, w: nat, addr: GPtr, left: seq<GPtr>): (st1: Routing)
    requires Routable(st, own, addr)
    ensures SameShape(st, st1)
  {
    var r := addr.rank;
    var b := st.buffers[r] + [addr];
    if |b| == w then Routing(st.buffers[r := left], Enqueued(st.queues, r, own, b))
    else Routing(st.buffers[r := b], st.queues)
  }

  ghost predicate AllRoutable(st: Routing, own: nat, addrs: seq<GPtr>) {
    forall a :: a in addrs ==> Routable(st, own, a)
  }

  /** Routing `addrs` in order, the i-th hand-off leaving `lefts[i]` behind. */
  function RouteAll(st: Routing, own: nat, w: nat, addrs: seq<GPtr>, lefts: Batches): (st1: Routing)
    requires |lefts| == |addrs| && AllRoutable(st, own, addrs)
    ensures SameShape(st, st1)
  {
    if addrs == [] then st
    else
      var n := |addrs| - 1;
      assert forall a :: a in addrs[..n] ==> a in addrs;
      var mid := RouteAll(st, own, w, addrs[..n], lefts[..n]);
      assert addrs[n] in addrs;
      RouteStep(mid, own, w, addrs[n], lefts[n])
  }

  /** Everything `own` holds for others: its buffers and the queues it fills. */
  function Held(st: Routing, own: nat): multiset<GPtr> {
    multiset(Flatten(st.buffers)) + multiset(Waiting(Column(st.queues, own)))
  }

  /** A buffer is handed off exactly when the new address makes it `w` long. */
  lemma RouteHandsOff(st: Routing, own: nat, w: nat, addr: GPtr, left: seq<GPtr>)
    requires Routable(st, own, addr)
    ensures var st1 := RouteStep(st, own, w, addr, left);
      (st1.queues != st.queues <==> |st.buffers[addr.rank]| + 1 == w) &&
      (st1.queues != st.queues ==>
         st1.queues == Enqueued(st.queues, addr.rank, own, st.buffers[addr.rank] + [addr]))
  {
    var r := addr.rank;
    if |st.buffers[r]| + 1 == w {
      var q1 := Enqueued(st.queues, r, own, st.buffers[r] + [addr]);
      assert |q1[r][own]| != |st.queues[r][own]|;
    }
  }

  /**
   * A buffer already `w` or more long is never handed off again: were the
   * moved-from buffer to keep its contents, the addresses it collects from
   * then on would never reach their owner.
   */
  lemma OverfullStays(st: Routing, own: nat, w: nat, addr: GPtr, left: seq<GPtr>)
    requires Routable(st, own, addr) && |st.buffers[addr.rank]| >= w
    ensures RouteStep(st, own, w, addr, left).queues == st.queues
    ensures RouteStep(st, own, w, addr, left).buffers[addr.rank] == st.buffers[addr.rank] + [addr]
  {
  }

  /**
   * With the moved-from buffers empty, routing loses and duplicates nothing:
   * what the buffers and the queues `own` fills hold grows by exactly the
   * routed address.
   */
  lemma {:induction false} RouteStepConserves(st: Routing, own: nat, w: nat, addr: GPtr)
    requires Routable(st, own, addr)
    ensures Held(RouteStep(st, own, w, addr, []), own) == Held(st, own) + multiset{addr}
  {
    var r := addr.rank;
    var b := st.buffers[r] + [addr];
    if |b| == w {
      FlattenUpdate(st.buffers, r, []);
      SentEnqueue(st.queues, r, own, b);
      var st1 := RouteStep(st, own, w, addr, []);
      assert multiset(b) == multiset(st.buffers[r]) + multiset{addr};
      assert st1.buffers == st.buffers[r := []];
      assert st1.queues == Enqueued(st.queues, r, own, b);
      assert multiset(Flatten(st1.buffers)) + multiset(st.buffers[r]) == multiset(Flatten(st.buffers));
      forall z ensures Held(st1, own)[z] == (Held(st, own) + multiset{addr})[z] {
        assert multiset(Flatten(st1.buffers))[z] + multiset(st.buffers[r])[z] == multiset(Flatten(st.buffers))[z];
      }
    } else {
      FlattenUpdate(st.buffers, r, b);
      Cancel(multiset(Flatten(st.buffers[r := b])), multiset(st.buffers[r]),
             multiset(Flatten(st.buffers)), multiset{addr});
    }
  }

  lemma {:induction false} RouteAllConserves(st: Routing, own: nat, w: nat, addrs: seq<GPtr>, lefts: Batches)
    requires |lefts| == |addrs| && AllRoutable(st, own, addrs)
    requires forall i :: 0 <= i < |lefts| ==> lefts[i] == []
    ensures Held(RouteAll(st, own, w, addrs, lefts), own) == Held(st, own) + multiset(addrs)
  {
    if addrs != [] {
      var k := |addrs| - 1;
      RouteAllSnoc(st, own, w, addrs, lefts);
      var mid := RouteAll(st, own, w, addrs[..k], lefts[..k]);
      RouteAllConserves(st, own, w, addrs[..k], lefts[..k]);
      RouteStepConserves(mid, own, w, addrs[k]);
      AddOne(Held(st, own), Held(mid, own), Held(RouteStep(mid, own, w, addrs[k], []), own), addrs[..k], addrs[k], addrs);
    }
  }

  /** RouteAll of a non-empty list is one RouteStep after RouteAll of all but its last address. */
  lemma RouteAllSnoc(st: Routing, own: nat, w: nat, addrs: seq<GPtr>, lefts: Batches)
    requires |lefts| == |addrs| && AllRoutable(st, own, addrs) && addrs != []
    ensures var k := |addrs| - 1;
      AllRoutable(st, own, addrs[..k]) && addrs == addrs[..k] + [addrs[k]] &&
      Routable(RouteAll(st, own, w, addrs[..k], lefts[..k]), own, addrs[k]) &&
      RouteAll(st, own, w, addrs, lefts) == RouteStep(RouteAll(st, own, w, addrs[..k], lefts[..k]), own, w, addrs[k], lefts[k])
  {
    var k := |addrs| - 1;
    assert forall a :: a in addrs[..k] ==> a in addrs;
    assert addrs[k] in addrs;
  }

  lemma AddOne(h0: multiset<GPtr>, h1: multiset<GPtr>, h2: multiset<GPtr>, init: seq<GPtr>, a: GPtr, all: seq<GPtr>)
    requires h1 == h0 + multiset(init) && h2 == h1 + multiset{a} && all == init + [a]
    ensures h2 == h0 + multiset(all)
  {
  }

  /** The queue_spsc objects of all ranks, as batches of addresses. */
  class Queues {
    var q: Grid

    /** One empty queue per (owner, producer) pair of `n` ranks. */
    constructor (n: nat)
      ensures Square(q, n)
      ensures forall i, j :: 0 <= i < n && 0 <= j < n ==> q[i][j] == []
    {
      q := seq(n, _ => seq(n, _ => []));
    }

    /** enqueue: the batch goes to the back. */
    method Enqueue(owner: nat, producer: nat, b: seq<GPtr>)
      requires owner < |q| && producer < |q[owner]|
      modifies this
      ensures q == Enqueued(old(q), owner, producer, b)
    {
      q := q[owner := q[owner][producer := q[owner][producer] + [b]]];
    }

    /** dequeue: false on an empty queue; otherwise the oldest batch, removed. */
    method Dequeue(owner: nat, producer: nat) returns (ok: bool, b: seq<GPtr>)
      requires owner < |q| && producer < |q[owner]|
      modifies this
      ensures ok <==> old(q)[owner][producer] != []
      ensures b == Front(old(q)[owner][producer])
      ensures q == old(q)[owner := old(q)[owner][producer := Rest(old(q)[owner][producer])]]
    {
      var w := q[owner][producer];
      if w == [] {
        assert q[owner][producer := []] == q[owner];
        assert q[owner := q[owner]] == q;
        return false, [];
      }
      ok, b := true, w[0];
      q := q[owner := q[owner][producer := w[1..]]];
    }
  }

  class Memory {
    const own: nat            // BCL::rank()
    const nprocs: nat         // BCL::nprocs()
    const hps: nat            // HPS_PER_UNIT
    const elemSize: nat       // sizeof(T)
    const totalOps: nat       // TOTAL_OPS
    const heap: Heap<GPtr>    // pointer cells, among them every rank's reservation slots
    const queues: Queues      // queues[i][j], shared by all ranks
    const reservation: nat    // offset of the slot array, the same on every rank
    const poolRep: GPtr       // first element of the pool
    const capacity: nat       // offset just past the pool
    var pool: GPtr            // the bump cursor
    var listRet: seq<GPtr>    // retired elements
    var listRec: seq<GPtr>    // reclaimed elements handed back by their scanners
    var counter: nat          // malloc calls so far
    var buffers: Batches      // buffers[i]: reclaimed elements owned by rank i
    ghost var used: nat       // elements the cursor has handed out

    ghost predicate Valid()
      reads this, heap, queues
    {
      own < nprocs && elemSize > 0 && hps > 0 &&
      poolRep.Ptr? && poolRep.rank == own && capacity == poolRep.off + totalOps * elemSize &&
      used <= totalOps && pool == Advance(poolRep, used, elemSize) &&
      AllSlots(heap.cells, nprocs, reservation, hps) &&
      |buffers| == nprocs &&
      Square(queues.q, nprocs) &&
      (forall x :: x in listRet ==> x.Ptr? && x.rank < nprocs)
    }

    ghost function Prot(): set<GPtr>
      reads this, heap, queues
      requires Valid()
    {
      Protected(heap.cells, nprocs, reservation, hps)
    }

    function HpWindow(): nat
      reads this
    {
      Window(nprocs, hps)
    }

    function State(): Routing
      reads this, queues
    {
      Routing(buffers, queues.q)
    }

    constructor (own: nat, nprocs: nat, hps: nat, elemSize: nat, totalOps: nat,
                 heap: Heap<GPtr>, queues: Queues, reservation: nat, poolStart: nat)
      requires own < nprocs && elemSize > 0 && hps > 0
      requires AllSlots(heap.cells, nprocs, reservation, hps)
      requires Square(queues.q, nprocs)
      modifies heap
      ensures Valid()
      ensures this.own == own && this.nprocs == nprocs && this.hps == hps && this.heap == heap
      ensures this.elemSize == elemSize && this.totalOps == totalOps && this.reservation == reservation
      ensures this.queues == queues && queues.q == old(queues.q)
      ensures heap.cells == Cleared(old(heap.cells), own, reservation, hps)
      ensures poolRep == Ptr(own, poolStart) && pool == poolRep && used == 0
      ensures capacity == poolStart + totalOps * elemSize
      ensures listRet == [] && listRec == [] && counter == 0
      ensures |buffers| == nprocs && forall i :: 0 <= i < nprocs ==> buffers[i] == []
    {
      this.own, this.nprocs, this.hps := own, nprocs, hps;
      this.elemSize, this.totalOps := elemSize, totalOps;
      this.heap, this.queues, this.reservation := heap, queues, reservation;
      poolRep := Ptr(own, poolStart);
      capacity := poolStart + totalOps * elemSize;
      pool := Ptr(own, poolStart);
      listRet, listRec, counter := [], [], 0;
      buffers := seq(nprocs, _ => []);
      used := 0;
      new;
      ClearSlots(heap, own, reservation, hps);
      ClearedSpec(old(heap.cells), own, reservation, hps);
    }

    /** The drain loop of malloc: the oldest batch of every queue (own, i) joins list_rec. */
    method DrainQueues()
      requires Valid()
      modifies this, queues
      ensures Valid()
      ensures listRec == old(listRec) + Drained(old(queues.q)[own])
      ensures queues.q == old(queues.q)[own := Popped(old(queues.q)[own])]
      ensures pool == old(pool) && used == old(used) && counter == old(counter)
      ensures listRet == old(listRet) && buffers == old(buffers)
    {
      ghost var q0 := queues.q;
      var i := 0;
      assert Popped(q0[own][..0]) + q0[own][0..] == q0[own];
      assert q0[own := q0[own]] == q0;
      while i < nprocs
        invariant 0 <= i <= nprocs && Valid()
        invariant listRec == old(listRec) + Drained(q0[own][..i])
        invariant queues.q == q0[own := Popped(q0[own][..i]) + q0[own][i..]]
        invariant pool == old(pool) && used == old(used) && counter == old(counter)
        invariant listRet == old(listRet) && buffers == old(buffers)
      {
        var ok, temp := queues.Dequeue(own, i);
        if ok {
          listRec := listRec + temp;
        }
        DrainedAppend(q0[own], i);
        PoppedStep(q0[own], i);
        i := i + 1;
      }
      assert q0[own][..i] == q0[own] && q0[own][i..] == [];
      assert Popped(q0[own][..i]) + q0[own][i..] == Popped(q0[own]);
    }

    /**
     * malloc: counts the call and, on every HP_WINDOW-th call, drains the own
     * queues first.  Then the last element of list_rec; else the cursor while
     * it is below capacity; else one more drain and its last element, or null.
     */
    method Malloc() returns (r: GPtr)
      requires Valid()
      modifies this, queues
      ensures Valid() && counter == old(counter) + 1
      ensures listRet == old(listRet) && buffers == old(buffers)
      ensures var q0 := old(queues.q);
        var early := (old(counter) + 1) % HpWindow() == 0;
        var rec1 := if early then old(listRec) + Drained(q0[own]) else old(listRec);
        var q1 := if early then q0[own := Popped(q0[own])] else q0;
        if rec1 != [] then
          r == rec1[|rec1| - 1] && listRec == rec1[..|rec1| - 1] && queues.q == q1 &&
          pool == old(pool) && used == old(used)
        else if old(pool).off < capacity then
          r == old(pool) && r !in Issued(poolRep, elemSize, old(used)) &&
          pool == Advance(old(pool), 1, elemSize) && used == old(used) + 1 &&
          listRec == [] && queues.q == q1
        else
          var rec2 := Drained(q1[own]);
          queues.q == q1[own := Popped(q1[own])] && pool == old(pool) && used == old(used) &&
          (rec2 == [] ==> r == Null && listRec == []) &&
          (rec2 != [] ==> r == rec2[|rec2| - 1] && listRec == rec2[..|rec2| - 1])
    {
      counter := counter + 1;
      WindowPositive(nprocs, hps);
      if counter % HpWindow() == 0 {
        DrainQueues();
      }
      r := Allocate();
    }

    /** malloc after the counted drain: list_rec, else the cursor, else drain once more. */
    method Allocate() returns (r: GPtr)
      requires Valid()
      modifies this, queues
      ensures Valid() && counter == old(counter)
      ensures listRet == old(listRet) && buffers == old(buffers)
      ensures var rec, q := old(listRec), old(queues.q);
        if rec != [] then
          r == rec[|rec| - 1] && listRec == rec[..|rec| - 1] && queues.q == q &&
          pool == old(pool) && used == old(used)
        else if old(pool).off < capacity then
          r == old(pool) && r !in Issued(poolRep, elemSize, old(used)) &&
          pool == Advance(old(pool), 1, elemSize) && used == old(used) + 1 &&
          listRec == [] && queues.q == q
        else
          var rec2 := Drained(q[own]);
          queues.q == q[own := Popped(q[own])] && pool == old(pool) && used == old(used) &&
          (rec2 == [] ==> r == Null && listRec == []) &&
          (rec2 != [] ==> r == rec2[|rec2| - 1] && listRec == rec2[..|rec2| - 1])
    {
      if listRec != [] {
        r := PopRec();
        return;
      }
      if pool.off < capacity {
        r := Bump();
        return;
      }
      DrainQueues();
      if listRec != [] {
        r := PopRec();
      } else {
        r := Null;
      }
    }

    /** The pop from the back of list_rec. */
    method PopRec() returns (r: GPtr)
      requires Valid() && listRec != []
      modifies this
      ensures Valid() && r == old(listRec)[|old(listRec)| - 1] && listRec == old(listRec)[..|old(listRec)| - 1]
      ensures pool == old(pool) && used == old(used) && counter == old(counter)
      ensures listRet == old(listRet) && buffers == old(buffers)
    {
      r := listRec[|listRec| - 1];
      listRec := listRec[..|listRec| - 1];
    }

    /** `pool++` on a cursor below capacity: a fresh element. */
    method Bump() returns (r: GPtr)
      requires Valid() && pool.off < capacity
      modifies this
      ensures Valid() && r == old(pool) && r !in Issued(poolRep, elemSize, old(used))
      ensures pool == Advance(old(pool), 1, elemSize) && used == old(used) + 1
      ensures listRec == old(listRec) && counter == old(counter)
      ensures listRet == old(listRet) && buffers == old(buffers)
    {
      CursorBelowCapacity(poolRep.off, elemSize, used, totalOps);
      r := pool;
      IssuedCount(poolRep, elemSize, used);
      AdvanceStep(poolRep, used, elemSize);
      pool, used := Advance(pool, 1, elemSize), used + 1;
    }

    /**
     * free: retire `addr` (an element of some rank's pool); a retire list of
     * HP_WINDOW or more elements is scanned.  `lefts` are the contents of
     * the buffers moved into queues meanwhile.
     */
    method Free(addr: GPtr) returns (ghost lefts: Batches)
      requires Valid() && addr.Ptr? && addr.rank < nprocs
      modifies this, queues
      ensures Valid() && pool == old(pool) && used == old(used) && counter == old(counter)
      ensures listRec == old(listRec)
      ensures var ret := old(listRet) + [addr];
        if |ret| >= HpWindow() then
          var freed := Reclaimed(ret, Prot());
          |lefts| == |freed| && AllRoutable(old(State()), own, freed) &&
          listRet == Retained(ret, Prot()) && State() == RouteAll(old(State()), own, HpWindow(), freed, lefts)
        else
          listRet == ret && State() == old(State()) && lefts == []
    {
      listRet := listRet + [addr];
      lefts := [];
      if |listRet| >= HpWindow() {
        lefts := Empty();
      }
    }

    /** op_begin: a no-op. */
    method OpBegin()
      ensures unchanged(this, heap, queues)
    {
    }

    /** op_end: a no-op. */
    method OpEnd()
      ensures unchanged(this, heap, queues)
    {
    }

    /**
     * try_reserve(ptr, atom): `others` are the stores other ranks make into
     * `atom` meanwhile; `ptr1` is the caller's `ptr` afterwards and `full`
     * reports the error message printed when no slot is free.
     */
    method TryReserve(ptr: GPtr, atom: GPtr, others: seq<GPtr>) returns (ok: bool, ptr1: GPtr, full: bool)
      requires Valid() && atom in heap.cells
      modifies heap
      ensures Valid()
      ensures LoopReserved(old(heap.cells), heap.cells, own, reservation, hps, atom, ptr, others, ok, ptr1, full)
    {
      ok, ptr1, full := LoopReserve(heap, own, reservation, hps, ptr, atom, others);
    }

    /** unreserve: clears the first own slot holding `ptr`, if any. */
    method Unreserve(ptr: GPtr)
      requires Valid()
      modifies heap
      ensures Valid()
      ensures var k := FirstSlot(old(heap.cells), own, reservation, hps, ptr);
        heap.cells == if k < hps then old(heap.cells)[Slot(own, reservation, k) := Null] else old(heap.cells)
    {
      Release(heap, own, reservation, hps, ptr);
    }

    /**
     * empty: the protected retired elements stay in list_ret and every other
     * one is routed, in the order of the pops, towards its owner.
     */
    method Empty() returns (ghost lefts: Batches)
      requires Valid()
      modifies this, queues
      ensures Valid() && pool == old(pool) && used == old(used) && counter == old(counter)
      ensures listRec == old(listRec)
      ensures listRet == Retained(old(listRet), Prot())
      ensures var freed := Reclaimed(old(listRet), Prot());
        |lefts| == |freed| && AllRoutable(old(State()), own, freed) &&
        State() == RouteAll(old(State()), own, HpWindow(), freed, lefts)
    {
      var kept, freed := Scan(heap, nprocs, reservation, hps, listRet);
      ScanFromRetired(listRet, Prot());
      listRet := kept;
      lefts := RouteFreed(freed);
    }

    /** Stage 3's routing of the unprotected addresses, one after another. */
    method RouteFreed(freed: seq<GPtr>) returns (ghost lefts: Batches)
      requires Valid() && forall x :: x in freed ==> x.Ptr? && x.rank < nprocs
      modifies this, queues
      ensures Valid() && pool == old(pool) && used == old(used) && counter == old(counter)
      ensures listRec == old(listRec) && listRet == old(listRet)
      ensures |lefts| == |freed| && AllRoutable(old(State()), own, freed)
      ensures State() == RouteAll(old(State()), own, HpWindow(), freed, lefts)
    {
      ghost var st0 := State();
      lefts := [];
      var i := 0;
      while i < |freed|
        invariant 0 <= i <= |freed| && |lefts| == i && Valid()
        invariant pool == old(pool) && used == old(used) && counter == old(counter)
        invariant listRec == old(listRec) && listRet == old(listRet)
        invariant AllRoutable(st0, own, freed[..i])
        invariant State() == RouteAll(st0, own, HpWindow(), freed[..i], lefts)
      {
        ghost var left := RouteOne(freed[i]);
        assert freed[..i + 1][..i] == freed[..i];
        lefts := lefts + [left];
        i := i + 1;
      }
      assert freed[..i] == freed;
    }

    /** Stage 3 for one unprotected address `addr`. */
    method RouteOne(addr: GPtr) returns (ghost left: seq<GPtr>)
      requires Valid() && addr.Ptr? && addr.rank < nprocs
      modifies this, queues
      ensures Valid() && pool == old(pool) && used == old(used) && counter == old(counter)
      ensures listRec == old(listRec) && listRet == old(listRet)
      ensures State() == RouteStep(old(State()), own, HpWindow(), addr, left)
    {
      var r := addr.rank;
      buffers := buffers[r := buffers[r] + [addr]];
      left := buffers[r];
      if |buffers[r]| == HpWindow() {
        queues.Enqueue(r, own, buffers[r]);
        var moved: seq<GPtr> := *;
        buffers := buffers[r := moved];
        left := moved;
      }
    }
  }
}
