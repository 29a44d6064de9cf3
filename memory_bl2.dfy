/**
 * The baseline manager of memory/inc/memory_bl2.h.  It keeps the hazard
 * pointer protocol and the scan of the hp manager but never reuses what the
 * scan reclaims: malloc only bump-allocates, and on more than one node it
 * hands out the address at the same offset on the partner rank of the
 * neighbouring node (rank + size on an even node, rank - size on an odd one).
 */
module MemoryBl2 {
  import opened GlobalPtr
  import opened Rma
  import opened Hazard

  /** The node layout: number of nodes, this rank's node, ranks per node. */
  datatype Topology = Topology(nodeNum: nat, nodeId: nat, size: nat)

  /**
   * The rank-shifted address malloc returns for cursor value `p` on more than
   * one node.  On an odd node the shift moves down by `size`, which the
   * node layout makes possible only when `rank >= size`.
   */
  function Shift(p: GPtr, topo: Topology): (q: GPtr)
    requires p.Ptr?
    requires topo.nodeId % 2 != 0 ==> p.rank >= topo.size
    ensures q.Ptr? && q.off == p.off
    ensures topo.nodeId % 2 == 0 ==> q.rank == p.rank + topo.size
    ensures topo.nodeId % 2 != 0 ==> q.rank + topo.size == p.rank
  {
    if topo.nodeId % 2 == 0 then Ptr(p.rank + topo.size, p.off)
    else Ptr(p.rank - topo.size, p.off)
  }

  /**
   * With ranks numbered node by node (`rank / size == nodeId`, `nprocs ==
   * nodeNum * size`), the shifted rank names an existing rank exactly when
   * the node is odd or is not the last one: with an odd number of nodes the
   * last node's elements are addressed past the last rank.
   */
  lemma {:induction false} ShiftInRange(rank: nat, off: nat, topo: Topology, nprocs: nat)
    requires topo.size > 0 && rank / topo.size == topo.nodeId && nprocs == topo.nodeNum * topo.size
    requires rank < nprocs
    ensures topo.nodeId % 2 != 0 ==> rank >= topo.size
    ensures topo.nodeId % 2 != 0 ==> Shift(Ptr(rank, off), topo).rank < nprocs
    ensures topo.nodeId % 2 == 0 ==>
              (Shift(Ptr(rank, off), topo).rank < nprocs <==> topo.nodeId + 1 < topo.nodeNum)
  {
    var s, id := topo.size, topo.nodeId;
    assert id * s <= rank < id * s + s;
    assert id < topo.nodeNum;
    if id % 2 != 0 {
      assert id >= 1;
      assert id * s >= s by { MulMono(1, id, s); }
    } else {
      assert (id + 1) * s <= rank + s < (id + 2) * s;
      if id + 1 < topo.nodeNum {
        assert (id + 2) * s <= topo.nodeNum * s by { MulMono(id + 2, topo.nodeNum, s); }
      } else {
        assert id + 1 == topo.nodeNum;
      }
    }
  }

  lemma MulMono(a: nat, b: nat, s: nat)
    requires a <= b
    ensures a * s <= b * s
  {
    assert b * s == a * s + (b - a) * s;
  }

  class Memory {
    const own: nat            // BCL::rank()
    const nprocs: nat         // BCL::nprocs()
    const hps: nat            // HPS_PER_UNIT
    const elemSize: nat       // sizeof(T)
    const totalOps: nat       // TOTAL_OPS
    const topo: Topology      // topo
    const heap: Heap<GPtr>    // pointer cells, among them every rank's reservation slots
    const reservation: nat    // offset of the slot array, the same on every rank
    const poolRep: GPtr       // first element of the pool
    const capacity: nat       // offset just past the pool
    var pool: GPtr            // the bump cursor
    var listRet: seq<GPtr>    // retired elements
    var listRec: seq<GPtr>    // reclaimed elements, never reused
    ghost var used: nat       // elements the cursor has handed out

    ghost predicate Valid()
      reads this, heap
    {
      own < nprocs && elemSize > 0 &&
      (topo.nodeId % 2 != 0 ==> own >= topo.size) &&
      poolRep.Ptr? && poolRep.rank == own && capacity == poolRep.off + totalOps * elemSize &&
      used <= totalOps && pool == Advance(poolRep, used, elemSize) &&
      AllSlots(heap.cells, nprocs, reservation, hps)
    }

    ghost function Prot(): set<GPtr>
      reads this, heap
      requires Valid()
    {
      Protected(heap.cells, nprocs, reservation, hps)
    }

    function HpWindow(): nat
      reads this
    {
      Window(nprocs, hps)
    }

    constructor (own: nat, nprocs: nat, hps: nat, elemSize: nat, totalOps: nat, topo: Topology,
                 heap: Heap<GPtr>, reservation: nat, poolStart: nat)
      requires own < nprocs && elemSize > 0
      requires topo.nodeId % 2 != 0 ==> own >= topo.size
      requires AllSlots(heap.cells, nprocs, reservation, hps)
      modifies heap
      ensures Valid()
      ensures this.own == own && this.nprocs == nprocs && this.hps == hps && this.heap == heap
      ensures this.elemSize == elemSize && this.totalOps == totalOps && this.reservation == reservation
      ensures this.topo == topo
      ensures heap.cells == Cleared(old(heap.cells), own, reservation, hps)
      ensures poolRep == Ptr(own, poolStart) && pool == poolRep && used == 0
      ensures capacity == poolStart + totalOps * elemSize
      ensures listRet == [] && listRec == []
    {
      this.own, this.nprocs, this.hps := own, nprocs, hps;
      this.elemSize, this.totalOps, this.topo := elemSize, totalOps, topo;
      this.heap, this.reservation := heap, reservation;
      poolRep := Ptr(own, poolStart);
      capacity := poolStart + totalOps * elemSize;
      pool := Ptr(own, poolStart);
      listRet, listRec := [], [];
      used := 0;
      new;
      ClearSlots(heap, own, reservation, hps);
      ClearedSpec(old(heap.cells), own, reservation, hps);
    }

    /**
     * malloc: while the cursor is below capacity it advances by one element
     * and returns its old value (single node) or that value shifted to the
     * partner rank (several nodes); afterwards it returns null.  Neither
     * list is read or written.
     */
    method Malloc() returns (r: GPtr)
      requires Valid()
      modifies this
      ensures Valid() && listRet == old(listRet) && listRec == old(listRec)
      ensures old(pool).off < capacity ==>
                pool == Advance(old(pool), 1, elemSize) && used == old(used) + 1 &&
                old(pool) !in Issued(poolRep, elemSize, old(used)) &&
                r == (if topo.nodeNum == 1 then old(pool) else Shift(old(pool), topo))
      ensures old(pool).off >= capacity ==> r == Null && pool == old(pool) && used == old(used)
    {
      if pool.off < capacity {
        var ptr := Bump();
        if topo.nodeNum == 1 {
          r := ptr;
        } else if topo.nodeId % 2 == 0 {
          r := Ptr(ptr.rank + topo.size, ptr.off);
        } else {
          r := Ptr(ptr.rank - topo.size, ptr.off);
        }
      } else {
        r := Null;
      }
    }

    /** `pool++` on a cursor below capacity: a fresh element. */
    method Bump() returns (r: GPtr)
      requires Valid() && pool.off < capacity
      modifies this
      ensures Valid() && r == old(pool) && r !in Issued(poolRep, elemSize, old(used))
      ensures pool == Advance(old(pool), 1, elemSize) && used == old(used) + 1
      ensures listRec == old(listRec) && listRet == old(listRet)
    {
      CursorBelowCapacity(poolRep.off, elemSize, used, totalOps);
      r := pool;
      IssuedCount(poolRep, elemSize, used);
      AdvanceStep(poolRep, used, elemSize);
      pool, used := Advance(pool, 1, elemSize), used + 1;
    }

    /** free: retire `ptr`; a retire list of HP_WINDOW or more elements is scanned. */
    method Free(ptr: GPtr)
      requires Valid()
      modifies this
      ensures Valid() && pool == old(pool) && used == old(used)
      ensures var ret := old(listRet) + [ptr];
        if |ret| >= HpWindow() then
          listRet == Retained(ret, Prot()) && listRec == old(listRec) + Reclaimed(ret, Prot())
        else
          listRet == ret && listRec == old(listRec)
    {
      listRet := listRet + [ptr];
      if |listRet| >= HpWindow() {
        Empty();
      }
    }

    /** op_begin: a no-op. */
    method OpBegin()
      ensures unchanged(this, heap)
    {
    }

    /** op_end: a no-op. */
    method OpEnd()
      ensures unchanged(this, heap)
    {
    }

    method TryReserve(src: GPtr, valOld: GPtr) returns (r: GPtr, full: bool)
      requires Valid() && (valOld != Null ==> src in heap.cells)
      modifies heap
      ensures Valid()
      ensures TryReserved(old(heap.cells), heap.cells, own, reservation, hps, src, valOld, r, full)
    {
      r, full := Hazard.TryReserve(heap, own, reservation, hps, src, valOld);
    }

    /** reserve; `others` are the stores other ranks make into `src` meanwhile. */
    method Reserve(src: GPtr, others: seq<GPtr>) returns (r: GPtr, full: bool)
      requires Valid() && src in heap.cells
      modifies heap
      ensures Valid()
      ensures Reserved(old(heap.cells), heap.cells, own, reservation, hps, src, others, r, full)
    {
      r, full := Hazard.Reserve(heap, own, reservation, hps, src, others);
    }

    method Unreserve(p: GPtr) returns (missing: bool)
      requires Valid()
      modifies heap
      ensures Valid()
      ensures Unreserved(old(heap.cells), heap.cells, own, reservation, hps, p, missing)
    {
      missing := Hazard.Unreserve(heap, own, reservation, hps, p);
    }

    /** empty: as in the hp manager; what it reclaims stays in list_rec for good. */
    method Empty()
      requires Valid()
      modifies this
      ensures Valid() && pool == old(pool) && used == old(used)
      ensures listRet == Retained(old(listRet), Prot())
      ensures listRec == old(listRec) + Reclaimed(old(listRet), Prot())
    {
      var kept, freed := Scan(heap, nprocs, reservation, hps, listRet);
      listRec := listRec + freed;
      listRet := kept;
    }
  }
}
