/**
 * The hazard-pointer memory manager of memory/memory_hp.h, one object per
 * rank.  Fresh elements come from a bump cursor over a pool of TOTAL_OPS
 * elements; freed elements wait in list_ret until a scan finds them
 * unprotected, then move to list_rec, from which malloc takes the most
 * recently reclaimed one first.
 */
module MemoryHp {
  import opened GlobalPtr
  import opened Rma
  import opened Hazard

  class Memory {
    const own: nat            // BCL::rank()
    const nprocs: nat         // BCL::nprocs()
    const hps: nat            // HPS_PER_UNIT
    const elemSize: nat       // sizeof(T)
    const totalOps: nat       // TOTAL_OPS
    const heap: Heap<GPtr>    // pointer cells, among them every rank's reservation slots
    const reservation: nat    // offset of the slot array, the same on every rank
    const poolRep: GPtr       // first element of the pool
    const capacity: nat       // offset just past the pool
    var pool: GPtr            // the bump cursor
    var listRet: seq<GPtr>    // retired elements
    var listRec: seq<GPtr>    // reclaimed elements
    ghost var used: nat       // elements the cursor has handed out

    ghost predicate Valid()
      reads this, heap
    {
      own < nprocs && elemSize > 0 &&
      poolRep.Ptr? && poolRep.rank == own && capacity == poolRep.off + totalOps * elemSize &&
      used <= totalOps && pool == Advance(poolRep, used, elemSize) &&
      AllSlots(heap.cells, nprocs, reservation, hps)
    }

    /** The addresses that some rank's slot holds right now. */
    ghost function Prot(): set<GPtr>
      reads this, heap
      requires Valid()
    {
      Protected(heap.cells, nprocs, reservation, hps)
    }

    /** HP_WINDOW. */
    function HpWindow(): nat
      reads this
    {
      Window(nprocs, hps)
    }

    /**
     * The constructor: every rank has allocated its slot array at offset
     * `reservation` and its pool at `poolStart`; the own slots are cleared.
     */
    constructor (own: nat, nprocs: nat, hps: nat, elemSize: nat, totalOps: nat,
                 heap: Heap<GPtr>, reservation: nat, poolStart: nat)
      requires own < nprocs && elemSize > 0
      requires AllSlots(heap.cells, nprocs, reservation, hps)
      modifies heap
      ensures Valid()
      ensures this.own == own && this.nprocs == nprocs && this.hps == hps && this.heap == heap
      ensures this.elemSize == elemSize && this.totalOps == totalOps && this.reservation == reservation
      ensures heap.cells == Cleared(old(heap.cells), own, reservation, hps)
      ensures poolRep == Ptr(own, poolStart) && pool == poolRep && used == 0
      ensures capacity == poolStart + totalOps * elemSize
      ensures listRet == [] && listRec == []
    {
      this.own, this.nprocs, this.hps := own, nprocs, hps;
      this.elemSize, this.totalOps := elemSize, totalOps;
      this.heap, this.reservation := heap, reservation;
      poolRep := Ptr(own, poolStart);
      capacity := poolStart + totalOps * elemSize;
      pool := Ptr(own, poolStart);
      listRet, listRec := [], [];
      used := 0;
      new;
      ClearSlots(heap, own, reservation, hps);
      ClearedSpec(old(heap.cells), own, reservation, hps);
    }

    /**
     * malloc: the last reclaimed element if there is one; else the cursor,
     * advanced by one element, while it is below capacity; else one scan,
     * then the last element it reclaimed, or null.
     */
    method Malloc() returns (r: GPtr)
      requires Valid()
      modifies this
      ensures Valid()
      ensures old(listRec) != [] ==>
                r == old(listRec)[|old(listRec)| - 1] && listRec == old(listRec)[..|old(listRec)| - 1] &&
                listRet == old(listRet) && pool == old(pool)
      ensures old(listRec) == [] && old(pool).off < capacity ==>
                r == old(pool) && r !in Issued(poolRep, elemSize, old(used)) &&
                pool == Advance(old(pool), 1, elemSize) && used == old(used) + 1 &&
                listRec == [] && listRet == old(listRet)
      ensures old(listRec) == [] && old(pool).off >= capacity ==>
                var rec := Reclaimed(old(listRet), Prot());
                pool == old(pool) && listRet == Retained(old(listRet), Prot()) &&
                (rec == [] ==> r == Null && listRec == []) &&
                (rec != [] ==> r == rec[|rec| - 1] && listRec == rec[..|rec| - 1])
    {
      if listRec != [] {
        r := PopRec();
        return;
      }
      if pool.off < capacity {
        r := Bump();
        return;
      }
      Empty();
      if listRec != [] {
        r := PopRec();
      } else {
        r := Null;
      }
    }

    /** The list_rec branch of malloc: its last element is taken off. */
    method PopRec() returns (r: GPtr)
      requires Valid() && listRec != []
      modifies this
      ensures Valid() && r == old(listRec)[|old(listRec)| - 1] && listRec == old(listRec)[..|old(listRec)| - 1]
      ensures pool == old(pool) && used == old(used) && listRet == old(listRet)
    {
      r := listRec[|listRec| - 1];
      listRec := listRec[..|listRec| - 1];
    }

    /** `pool++` on a cursor below capacity: a fresh element. */
    method Bump() returns (r: GPtr)
      requires Valid() && pool.off < capacity
      modifies this
      ensures Valid() && r == old(pool) && r !in Issued(poolRep, elemSize, old(used))
      ensures pool == Advance(old(pool), 1, elemSize) && used == old(used) + 1
      ensures listRec == old(listRec) && listRet == old(listRet)
    {
      CursorBelowCapacity(poolRep.off, elemSize, used, totalOps);
      r := pool;
      IssuedCount(poolRep, elemSize, used);
      AdvanceStep(poolRep, used, elemSize);
      pool, used := Advance(pool, 1, elemSize), used + 1;
    }

    /** free: retire `addr`; a retire list of HP_WINDOW or more elements is scanned. */
    method Free(addr: GPtr)
      requires Valid()
      modifies this
      ensures Valid() && pool == old(pool) && used == old(used)
      ensures var ret := old(listRet) + [addr];
        if |ret| >= HpWindow() then
          listRet == Retained(ret, Prot()) && listRec == old(listRec) + Reclaimed(ret, Prot())
        else
          listRet == ret && listRec == old(listRec)
    {
      listRet := listRet + [addr];
      if |listRet| >= HpWindow() {
        Empty();
      }
    }

    /** op_begin: a no-op. */
    method OpBegin()
      ensures unchanged(this, heap)
    {
    }

    /** op_end: a no-op. */
    method OpEnd()
      ensures unchanged(this, heap)
    {
    }

    method TryReserve(src: GPtr, valOld: GPtr) returns (r: GPtr, full: bool)
      requires Valid() && (valOld != Null ==> src in heap.cells)
      modifies heap
      ensures Valid()
      ensures TryReserved(old(heap.cells), heap.cells, own, reservation, hps, src, valOld, r, full)
    {
      r, full := Hazard.TryReserve(heap, own, reservation, hps, src, valOld);
    }

    /** reserve; `others` are the stores other ranks make into `src` meanwhile. */
    method Reserve(src: GPtr, others: seq<GPtr>) returns (r: GPtr, full: bool)
      requires Valid() && src in heap.cells
      modifies heap
      ensures Valid()
      ensures Reserved(old(heap.cells), heap.cells, own, reservation, hps, src, others, r, full)
    {
      r, full := Hazard.Reserve(heap, own, reservation, hps, src, others);
    }

    method Unreserve(p: GPtr) returns (missing: bool)
      requires Valid()
      modifies heap
      ensures Valid()
      ensures Unreserved(old(heap.cells), heap.cells, own, reservation, hps, p, missing)
    {
      missing := Hazard.Unreserve(heap, own, reservation, hps, p);
    }

    /**
     * empty: the protected retired elements stay in list_ret, every other
     * one is appended to list_rec, both in the order of the pops from the
     * back of the old list_ret.
     */
    method Empty()
      requires Valid()
      modifies this
      ensures Valid() && pool == old(pool) && used == old(used)
      ensures listRet == Retained(old(listRet), Prot())
      ensures listRec == old(listRec) + Reclaimed(old(listRet), Prot())
    {
      var kept, freed := Scan(heap, nprocs, reservation, hps, listRet);
      listRec := listRec + freed;
      listRet := kept;
    }
  }
}
