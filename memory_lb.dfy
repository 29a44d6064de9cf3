/**
 * The lower-bound manager of memory/inc/memory_lb.h: no protection at all.
 * Fresh elements come from a bump cursor over TOTAL_OPS elements, and free
 * pushes an address straight onto list_rec, from which malloc takes the
 * most recently freed one first.
 */
module MemoryLb {
  import opened GlobalPtr

  class Memory {
    const own: nat            // BCL::rank()
    const elemSize: nat       // sizeof(T)
    const totalOps: nat       // TOTAL_OPS
    const poolRep: GPtr       // first element of the pool
    const capacity: nat       // offset just past the pool
    var pool: GPtr            // the bump cursor
    var listRec: seq<GPtr>    // freed elements
    ghost var used: nat       // elements the cursor has handed out

    ghost predicate Valid()
      reads this
    {
      elemSize > 0 &&
      poolRep.Ptr? && poolRep.rank == own && capacity == poolRep.off + totalOps * elemSize &&
      used <= totalOps && pool == Advance(poolRep, used, elemSize)
    }

    /** The constructor: the pool of TOTAL_OPS elements was allocated at `poolStart`. */
    constructor (own: nat, elemSize: nat, totalOps: nat, poolStart: nat)
      requires elemSize > 0
      ensures Valid()
      ensures this.own == own && this.elemSize == elemSize && this.totalOps == totalOps
      ensures poolRep == Ptr(own, poolStart) && pool == poolRep && used == 0
      ensures capacity == poolStart + totalOps * elemSize && listRec == []
    {
      this.own, this.elemSize, this.totalOps := own, elemSize, totalOps;
      poolRep := Ptr(own, poolStart);
      pool := Ptr(own, poolStart);
      capacity := poolStart + totalOps * elemSize;
      listRec := [];
      used := 0;
    }

    /**
     * malloc: the last freed element if there is one; else the cursor,
     * advanced by one element, while it is below capacity; else null.  The
     * cursor never moves back, and what it yields was not yielded before.
     * Unless a null address was freed, null means both sources are exhausted.
     */
    method Malloc() returns (r: GPtr)
      requires Valid()
      modifies this
      ensures Valid() && pool.off >= old(pool.off)
      ensures old(listRec) != [] ==>
                r == old(listRec)[|old(listRec)| - 1] && listRec == old(listRec)[..|old(listRec)| - 1] &&
                pool == old(pool) && used == old(used)
      ensures old(listRec) == [] && old(used) < totalOps ==>
                r == old(pool) && r !in Issued(poolRep, elemSize, old(used)) &&
                pool == Advance(old(pool), 1, elemSize) && used == old(used) + 1 && listRec == []
      ensures old(listRec) == [] && old(used) == totalOps ==> r == Null && pool == old(pool) && listRec == []
      ensures Null !in old(listRec) ==> (r == Null <==> old(listRec) == [] && old(used) == totalOps)
    {
      if listRec != [] {
        r := PopRec();
        return;
      }
      CursorBelowCapacity(poolRep.off, elemSize, used, totalOps);
      if pool.off < capacity {
        r := Bump();
      } else {
        r := Null;
      }
    }

    /** The list_rec branch of malloc: its last element is taken off. */
    method PopRec() returns (r: GPtr)
      requires Valid() && listRec != []
      modifies this
      ensures Valid() && r == old(listRec)[|old(listRec)| - 1] && listRec == old(listRec)[..|old(listRec)| - 1]
      ensures pool == old(pool) && used == old(used)
    {
      r := listRec[|listRec| - 1];
      listRec := listRec[..|listRec| - 1];
    }

    /** `pool++` on a cursor below capacity: a fresh element. */
    method Bump() returns (r: GPtr)
      requires Valid() && pool.off < capacity
      modifies this
      ensures Valid() && r == old(pool) && r !in Issued(poolRep, elemSize, old(used))
      ensures pool == Advance(old(pool), 1, elemSize) && used == old(used) + 1 && listRec == old(listRec)
    {
      CursorBelowCapacity(poolRep.off, elemSize, used, totalOps);
      r := pool;
      IssuedCount(poolRep, elemSize, used);
      AdvanceStep(poolRep, used, elemSize);
      pool, used := Advance(pool, 1, elemSize), used + 1;
    }

    /** free: push `addr` onto list_rec, with no check of any kind. */
    method Free(addr: GPtr)
      requires Valid()
      modifies this
      ensures Valid() && listRec == old(listRec) + [addr] && pool == old(pool) && used == old(used)
    {
      listRec := listRec + [addr];
    }

    /** free, then malloc, hands the freed address back. */
    method FreeThenMalloc(a: GPtr) returns (r: GPtr)
      requires Valid()
      modifies this
      ensures Valid() && r == a && listRec == old(listRec) && pool == old(pool)
    {
      Free(a);
      r := Malloc();
    }
  }
}
