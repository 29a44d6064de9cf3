/**
 * The manager of memory/inc/memory_dang5.h.  Its local heap is dang4's (a
 * contiguous list carved HP_WINDOW blocks at a time from pool_mem, and a
 * non-contiguous list of headers got back from a pool), but every rank
 * hosts one MPSC pool, and the buffer of the caller's own rank is never
 * flushed: malloc takes the most recently freed own element first.  The
 * reservation protocol and the scan are the hp manager's; the scan frees
 * every unprotected retired address.
 */
module MemoryDang5 {
  import opened GlobalPtr
  import opened Rma
  import opened Hazard
  import opened Block
  import opened PoolUbdMpsc
  import opened Batching

  /**
   * Where free leaves the elements it is given: in the buffer of their
   * rank, or, once a buffer of another rank is full, as headers in the pool
   * of that rank (items[i] is what pools[i] holds).
   */
  datatype Holding = Holding(buffers: seq<seq<GPtr>>, items: Batches)

  /** One buffer and one pool per rank; buffers hold elements, pools headers. */
  ghost predicate ValidHolding(h: Holding, n: nat) {
    |h.buffers| == n && |h.items| == n &&
    (forall r :: 0 <= r < n ==> Freeable(h.buffers[r], n)) &&
    (forall r :: 0 <= r < n ==> forall x :: x in h.items[r] ==> x.Ptr?)
  }

  /** One free, on rank `own` with the flush threshold `window`. */
  function FreeStep(h: Holding, ptr: GPtr, own: nat, window: nat): (h': Holding)
    requires ValidHolding(h, |h.buffers|) && Freeable([ptr], |h.buffers|)
    ensures ValidHolding(h', |h.buffers|)
  {
    var r := ptr.rank;
    var b := h.buffers[r] + [ptr];
    assert Freeable(b, |h.buffers|) by {
      assert forall x :: x in b ==> x in h.buffers[r] || x == ptr;
      assert ptr in [ptr];
    }
    if r != own && |b| >= window then
      ElementsOfHeaders(b);
      Holding(h.buffers[r := []], h.items[r := h.items[r] + Headers(b)])
    else
      h.(buffers := h.buffers[r := b])
  }

  /** The frees of `rec`, first to last. */
  function FreeAll(h: Holding, rec: seq<GPtr>, own: nat, window: nat): (h': Holding)
    requires ValidHolding(h, |h.buffers|) && Freeable(rec, |h.buffers|)
    ensures ValidHolding(h', |h.buffers|)
    decreases |rec|
  {
    if rec == [] then h
    else
      var last := rec[|rec| - 1];
      assert last in rec && last in [last];
      FreeStep(FreeAll(h, rec[..|rec| - 1], own, window), last, own, window)
  }

  /** The elements behind each pool's headers. */
  function ElementRuns(items: Batches): (es: Batches)
    requires forall r :: 0 <= r < |items| ==> forall x :: x in items[r] ==> x.Ptr?
    ensures |es| == |items| && forall r :: 0 <= r < |items| ==> es[r] == ElementsOf(items[r])
  {
    seq(|items|, r requires 0 <= r < |items| && forall x :: x in items[r] ==> x.Ptr? => ElementsOf(items[r]))
  }

  /** Every element a holding keeps: in the buffers, and behind the pools' headers. */
  ghost function Held(h: Holding): multiset<GPtr>
    requires ValidHolding(h, |h.buffers|)
  {
    multiset(Flatten(h.buffers)) + multiset(Flatten(ElementRuns(h.items)))
  }

  /** A free keeps exactly one more element: the one it is given. */
  lemma FreeStepHeld(h: Holding, ptr: GPtr, own: nat, window: nat)
    requires ValidHolding(h, |h.buffers|) && Freeable([ptr], |h.buffers|)
    ensures Held(FreeStep(h, ptr, own, window)) == Held(h) + multiset{ptr}
  {
    assert ptr in [ptr];
    var b := h.buffers[ptr.rank] + [ptr];
    assert Elements(b) by {
      assert forall x :: x in b ==> x in h.buffers[ptr.rank] || x == ptr;
    }
    if ptr.rank != own && |b| >= window {
      FlushHeld(h, ptr.rank, ptr, FreeStep(h, ptr, own, window));
    } else {
      BufferHeld(h, ptr.rank, ptr);
    }
  }

  /** Putting a full buffer into its pool moves its elements: the holding keeps them all. */
  lemma FlushHeld(h: Holding, r: nat, ptr: GPtr, h1: Holding)
    requires ValidHolding(h, |h.buffers|) && r < |h.buffers|
    requires Elements(h.buffers[r] + [ptr]) && Freeable(h.buffers[r] + [ptr], |h.buffers|)
    requires h1 == Holding(h.buffers[r := []], h.items[r := h.items[r] + Headers(h.buffers[r] + [ptr])])
    ensures ValidHolding(h1, |h.buffers|) && Held(h1) == Held(h) + multiset{ptr}
  {
    var b := h.buffers[r] + [ptr];
    RunsAppend(h.items, r, b, h1.items);
    FlattenUpdate(h.buffers, r, []);
    Regroup(multiset(Flatten(h1.buffers)), multiset(h.buffers[r]), multiset(Flatten(h.buffers)),
            multiset(Flatten(ElementRuns(h1.items))), multiset(Flatten(ElementRuns(h.items))), multiset{ptr});
  }

  /** Headers put into pool r add exactly their elements to what the pools hold. */
  lemma RunsAppend(items: Batches, r: nat, b: seq<GPtr>, items1: Batches)
    requires r < |items| && Elements(b) && items1 == items[r := items[r] + Headers(b)]
    requires forall k :: 0 <= k < |items| ==> forall x :: x in items[k] ==> x.Ptr?
    ensures forall k :: 0 <= k < |items1| ==> forall x :: x in items1[k] ==> x.Ptr?
    ensures multiset(Flatten(ElementRuns(items1))) == multiset(Flatten(ElementRuns(items))) + multiset(b)
  {
    ElementsOfHeaders(b);
    ElementsOfAppend(items[r], Headers(b));
    var e, e1 := ElementRuns(items), ElementRuns(items1);
    assert e1 == e[r := e[r] + b];
    FlattenUpdate(e, r, e[r] + b);
    assert multiset(e[r] + b) == multiset(e[r]) + multiset(b);
    Cancel(multiset(Flatten(e1)), multiset(e[r]), multiset(Flatten(e)), multiset(b));
  }

  /** Appending to a buffer keeps one more element. */
  lemma BufferHeld(h: Holding, r: nat, ptr: GPtr)
    requires ValidHolding(h, |h.buffers|) && r < |h.buffers| && Freeable(h.buffers[r] + [ptr], |h.buffers|)
    ensures ValidHolding(h.(buffers := h.buffers[r := h.buffers[r] + [ptr]]), |h.buffers|)
    ensures Held(h.(buffers := h.buffers[r := h.buffers[r] + [ptr]])) == Held(h) + multiset{ptr}
  {
    var h1 := h.(buffers := h.buffers[r := h.buffers[r] + [ptr]]);
    FlattenUpdate(h.buffers, r, h.buffers[r] + [ptr]);
    assert ElementRuns(h1.items) == ElementRuns(h.items);
    Cancel(multiset(Flatten(h1.buffers)), multiset(h.buffers[r]), multiset(Flatten(h.buffers)), multiset{ptr});
  }

  /** The frees of `rec` keep exactly the elements of `rec` more: none is lost or doubled. */
  lemma {:induction false} FreeAllHeld(h: Holding, rec: seq<GPtr>, own: nat, window: nat)
    requires ValidHolding(h, |h.buffers|) && Freeable(rec, |h.buffers|)
    ensures Held(FreeAll(h, rec, own, window)) == Held(h) + multiset(rec)
    decreases |rec|
  {
    if rec != [] {
      var init, last := rec[..|rec| - 1], rec[|rec| - 1];
      assert rec == init + [last];
      assert last in rec && last in [last];
      FreeAllHeld(h, init, own, window);
      FreeStepHeld(FreeAll(h, init, own, window), last, own, window);
    }
  }

  class Memory {
    const own: nat                 // BCL::rank()
    const nprocs: nat              // BCL::nprocs()
    const hps: nat                 // HPS_PER_UNIT
    const elemSize: nat            // sizeof(T)
    const totalOps: nat            // TOTAL_OPS
    const heap: Heap<GPtr>         // pointer cells, among them every rank's reservation slots
    const reservation: nat         // offset of the slot array, the same on every rank
    const poolRep: GPtr            // pool_rep, null when its allocation failed
    const pools: seq<Pool>         // pools[i] collects the elements of rank i
    var poolMem: seq<GPtr>         // pool_mem: blocks never handed out
    var contig: seq<GPtr>          // lheap.contig: blocks carved from pool_mem
    var ncontig: seq<GPtr>         // lheap.ncontig: headers got from the own pool
    var listRet: seq<GPtr>         // retired elements
    var buffers: seq<seq<GPtr>>    // freed elements per owning rank
    ghost var freed: seq<GPtr>     // every address passed to free, in order

    /** The pools, as a set of objects. */
    ghost function PoolSet(): set<Pool> {
      set i | 0 <= i < |pools| :: pools[i]
    }

    /** The part of the state fixed by a successful construction. */
    ghost predicate Layout() {
      hps > 0 && elemSize > 0 && own < nprocs &&
      poolRep.Ptr? && poolRep.rank == own &&
      |pools| == nprocs && forall i :: 0 <= i < nprocs ==> pools[i].host == i
    }

    ghost predicate PoolsValid()
      reads PoolSet()
    {
      forall i :: 0 <= i < |pools| ==> pools[i].Valid()
    }

    /**
     * The local lists: blocks of this rank, headers, buffers of their own
     * rank's addresses, those of the other ranks below HP_WINDOW.
     */
    ghost predicate ListsValid()
      reads this
    {
      OnRank(poolMem, own) && OnRank(contig, own) && (forall x :: x in ncontig ==> x.Ptr?) &&
      |buffers| == nprocs &&
      (forall r :: 0 <= r < nprocs && r != own ==> |buffers[r]| < HpWindow()) &&
      (forall r :: 0 <= r < nprocs ==> Freeable(buffers[r], nprocs)) &&
      (forall r :: 0 <= r < nprocs ==> forall x :: x in buffers[r] ==> x.rank == r) &&
      Freeable(listRet, nprocs)
    }

    ghost predicate Valid()
      reads this, heap, PoolSet()
    {
      Layout() && AllSlots(heap.cells, nprocs, reservation, hps) && PoolsValid() && ListsValid()
    }

    ghost function Prot(): set<GPtr>
      reads heap
      requires AllSlots(heap.cells, nprocs, reservation, hps)
    {
      Protected(heap.cells, nprocs, reservation, hps)
    }

    function HpWindow(): nat {
      Window(nprocs, hps)
    }

    /** What each pool holds. */
    ghost function Items(): (items: Batches)
      reads PoolSet()
      ensures |items| == |pools| && forall i :: 0 <= i < |pools| ==> items[i] == pools[i].items
    {
      seq(|pools|, i reads PoolSet() requires 0 <= i < |pools| => pools[i].items)
    }

    /** What free has left where. */
    ghost function Holds(): Holding
      reads this, PoolSet()
    {
      Holding(buffers, Items())
    }

    /**
     * The constructor: the own slots are cleared; `poolAlloc` is what the
     * allocation of the TOTAL_OPS blocks returned.  When that is null the
     * constructor stops there (after its error message): pool_mem, the
     * pools and the buffers stay empty, and the object is not usable.
     * Otherwise pool_mem holds the blocks and there is one empty pool and
     * one empty buffer per rank.
     */
    constructor (own: nat, nprocs: nat, hps: nat, elemSize: nat, totalOps: nat,
                 heap: Heap<GPtr>, reservation: nat, poolAlloc: GPtr)
      requires hps > 0 && elemSize > 0 && own < nprocs
      requires AllSlots(heap.cells, nprocs, reservation, hps)
      requires poolAlloc.Ptr? ==> poolAlloc.rank == own
      modifies heap
      ensures Valid() <==> poolAlloc.Ptr?
      ensures this.own == own && this.nprocs == nprocs && this.hps == hps && this.heap == heap
      ensures this.elemSize == elemSize && this.totalOps == totalOps && this.reservation == reservation
      ensures heap.cells == Cleared(old(heap.cells), own, reservation, hps)
      ensures poolRep == poolAlloc && contig == [] && ncontig == [] && listRet == [] && freed == []
      ensures poolAlloc == Null ==> poolMem == [] && pools == [] && buffers == []
      ensures poolAlloc.Ptr? ==>
                poolMem == Blocks(poolAlloc, HeaderSize + elemSize, totalOps) &&
                |pools| == nprocs && |buffers| == nprocs &&
                forall r :: 0 <= r < nprocs ==> fresh(pools[r]) && pools[r].items == [] && buffers[r] == []
    {
      this.own, this.nprocs, this.hps := own, nprocs, hps;
      this.elemSize, this.totalOps := elemSize, totalOps;
      this.heap, this.reservation := heap, reservation;
      poolRep := poolAlloc;
      contig, ncontig, listRet := [], [], [];
      freed := [];
      if poolAlloc == Null {
        poolMem, buffers := [], [];
        pools := [];
      } else {
        poolMem := Blocks(poolAlloc, HeaderSize + elemSize, totalOps);
        var ps: seq<Pool> := [];
        var i := 0;
        while i < nprocs
          invariant i <= nprocs && |ps| == i && unchanged(heap)
          invariant forall r :: 0 <= r < i ==> fresh(ps[r]) && ps[r].host == r && ps[r].items == []
        {
          var p := new Pool(i);
          ps := ps + [p];
          i := i + 1;
        }
        pools := ps;
        buffers := seq(nprocs, r => []);
      }
      new;
      WindowPositive(nprocs, hps);
      ClearSlots(heap, own, reservation, hps);
      ClearedSpec(old(heap.cells), own, reservation, hps);
    }

    /**
     * malloc: the last element of the own buffer; else the first header of
     * ncontig, else the first block of contig; else what get on the own
     * pool hands out, else the next HP_WINDOW blocks of pool_mem, else null
     * (see Refill).  A header or block is returned as the element behind it.
     */
    method Malloc() returns (r: GPtr)
      requires Valid()
      modifies this, pools[own]
      ensures Valid()
      ensures listRet == old(listRet) && freed == old(freed)
      ensures var mine := old(buffers[own]);
        mine != [] ==>
          r == mine[|mine| - 1] && buffers == old(buffers)[own := mine[..|mine| - 1]] &&
          ncontig == old(ncontig) && contig == old(contig) && poolMem == old(poolMem) && unchanged(pools[own])
      ensures old(buffers[own]) == [] && old(ncontig) != [] ==>
                r == ElementOf(old(ncontig)[0]) && ncontig == old(ncontig)[1..] && buffers == old(buffers) &&
                contig == old(contig) && poolMem == old(poolMem) && unchanged(pools[own])
      ensures old(buffers[own]) == [] && old(ncontig) == [] && old(contig) != [] ==>
                r == ElementOf(old(contig)[0]) && contig == old(contig)[1..] && buffers == old(buffers) &&
                ncontig == [] && poolMem == old(poolMem) && unchanged(pools[own])
      ensures old(buffers[own]) == [] && old(ncontig) == [] && old(contig) == [] ==>
                buffers == old(buffers) && Refilled(r)
    {
      var mine := buffers[own];
      if mine != [] {
        r := mine[|mine| - 1];
        buffers := buffers[own := mine[..|mine| - 1]];
        return;
      }
      if ncontig != [] {
        var h := ncontig[0];
        ncontig := ncontig[1..];
        return ElementOf(h);
      }
      if contig != [] {
        var b := contig[0];
        contig := contig[1..];
        return ElementOf(b);
      }
      r := Refill();
    }

    /**
     * malloc's outcome once the own buffer and both local lists are empty:
     * the first header the own pool held; else the first block carved from
     * pool_mem, the rest of the carved blocks in contig; else null.  The own
     * pool is left empty.
     */
    twostate predicate Refilled(r: GPtr)
      reads this, PoolSet()
      requires Layout()
    {
      var g := old(pools[own].items);
      pools[own].items == [] &&
      (g != [] ==>
         g[0].Ptr? && r == ElementOf(g[0]) && ncontig == g[1..] && contig == [] && poolMem == old(poolMem)) &&
      (g == [] && old(poolMem) != [] ==>
         var w := Min(HpWindow(), |old(poolMem)|);
         old(poolMem)[0].Ptr? && r == ElementOf(old(poolMem)[0]) && contig == old(poolMem)[1..w] &&
         poolMem == old(poolMem)[w..] && ncontig == []) &&
      (g == [] && old(poolMem) == [] ==> r == Null && ncontig == [] && contig == [] && poolMem == [])
    }

    /** The get, pool_mem and second get steps of malloc. */
    method Refill() returns (r: GPtr)
      requires Valid() && ncontig == [] && contig == []
      modifies this, pools[own]
      ensures Valid() && Refilled(r)
      ensures listRet == old(listRet) && buffers == old(buffers) && freed == old(freed)
    {
      var ok, slist := pools[own].Get();
      if ok {
        ncontig := ncontig + slist;
      }
      if ncontig != [] {
        var h := ncontig[0];
        ncontig := ncontig[1..];
        return ElementOf(h);
      }
      r := Carve();
      if r != Null {
        return;
      }
      // The second get: no rank puts between the two gets of this
      // sequential model, so the pool is still empty and malloc returns null.
      ok, slist := pools[own].Get();
      r := Null;
    }

    /**
     * The pool_mem step of malloc: the next HP_WINDOW blocks (all that are
     * left when fewer remain) become contig, and its first block is
     * returned; null when pool_mem is empty.
     */
    method Carve() returns (r: GPtr)
      requires Valid() && contig == []
      modifies this
      ensures Valid()
      ensures ncontig == old(ncontig) && listRet == old(listRet) && buffers == old(buffers) && freed == old(freed)
      ensures old(poolMem) != [] ==>
                var w := Min(HpWindow(), |old(poolMem)|);
                r == ElementOf(old(poolMem)[0]) && contig == old(poolMem)[1..w] && poolMem == old(poolMem)[w..]
      ensures old(poolMem) == [] ==> r == Null && contig == [] && poolMem == []
    {
      if poolMem == [] {
        return Null;
      }
      WindowPositive(nprocs, hps);
      var w := Min(HpWindow(), |poolMem|);
      contig := poolMem[..w];
      poolMem := poolMem[w..];
      var b := contig[0];
      contig := contig[1..];
      r := ElementOf(b);
    }

    /**
     * free: append `ptr` to the buffer of its rank; a buffer of another
     * rank that reaches HP_WINDOW is put into that rank's pool and cleared.
     * The own buffer is never flushed.
     */
    method Free(ptr: GPtr)
      requires Valid() && Freeable([ptr], nprocs)
      modifies this, pools[ptr.rank]
      ensures Valid() && freed == old(freed) + [ptr]
      ensures ncontig == old(ncontig) && poolMem == old(poolMem) && contig == old(contig) && listRet == old(listRet)
      ensures var b := old(buffers[ptr.rank]) + [ptr];
        if ptr.rank != own && |b| >= HpWindow() then
          buffers == old(buffers)[ptr.rank := []] && pools[ptr.rank].items == old(pools[ptr.rank].items) + Headers(b)
        else
          buffers == old(buffers)[ptr.rank := b] && unchanged(pools[ptr.rank])
      ensures Holds() == FreeStep(old(Holds()), ptr, own, HpWindow())
    {
      freed := freed + [ptr];
      buffers := buffers[ptr.rank := buffers[ptr.rank] + [ptr]];
      if ptr.rank != own && |buffers[ptr.rank]| >= HpWindow() {
        pools[ptr.rank].Put(buffers[ptr.rank]);
        buffers := buffers[ptr.rank := []];
        assert forall i :: 0 <= i < nprocs && i != ptr.rank ==> pools[i] != pools[ptr.rank] by {
          assert forall i :: 0 <= i < nprocs ==> pools[i].host == i;
        }
      }
      assert ptr in [ptr];
    }

    /** free of an own element, then malloc, hands that element back. */
    method FreeThenMalloc(a: GPtr) returns (r: GPtr)
      requires Valid() && Freeable([a], nprocs) && a.rank == own
      modifies this, pools[own]
      ensures Valid() && r == a && buffers == old(buffers) && freed == old(freed) + [a]
    {
      Free(a);
      r := Malloc();
    }

    /** retire: append to list_ret; a list of HP_WINDOW or more elements is scanned. */
    method Retire(ptr: GPtr)
      requires Valid() && Freeable([ptr], nprocs)
      modifies this, PoolSet()
      ensures Valid() && poolMem == old(poolMem) && contig == old(contig) && ncontig == old(ncontig)
      ensures var ret := old(listRet) + [ptr];
        if |ret| >= HpWindow() then
          var rec := Reclaimed(ret, Prot());
          Freeable(rec, nprocs) && listRet == Retained(ret, Prot()) && freed == old(freed) + rec &&
          Holds() == FreeAll(old(Holds()), rec, own, HpWindow()) &&
          Held(Holds()) == Held(old(Holds())) + multiset(rec)
        else
          listRet == ret && freed == old(freed) && buffers == old(buffers) && unchanged(PoolSet())
    {
      ghost var h0 := Holds();
      listRet := listRet + [ptr];
      assert Holds() == h0;
      if |listRet| >= HpWindow() {
        Empty();
      }
    }

    /** op_begin: a no-op. */
    method OpBegin()
      ensures unchanged(this, heap)
    {
    }

    /** op_end: a no-op. */
    method OpEnd()
      ensures unchanged(this, heap)
    {
    }

    method TryReserve(src: GPtr, valOld: GPtr) returns (r: GPtr, full: bool)
      requires Valid() && (valOld != Null ==> src in heap.cells)
      modifies heap
      ensures Valid()
      ensures TryReserved(old(heap.cells), heap.cells, own, reservation, hps, src, valOld, r, full)
    {
      r, full := Hazard.TryReserve(heap, own, reservation, hps, src, valOld);
    }

    /** reserve; `others` are the stores other ranks make into `src` meanwhile. */
    method Reserve(src: GPtr, others: seq<GPtr>) returns (r: GPtr, full: bool)
      requires Valid() && src in heap.cells
      modifies heap
      ensures Valid()
      ensures Reserved(old(heap.cells), heap.cells, own, reservation, hps, src, others, r, full)
    {
      r, full := Hazard.Reserve(heap, own, reservation, hps, src, others);
    }

    method Unreserve(p: GPtr) returns (missing: bool)
      requires Valid()
      modifies heap
      ensures Valid()
      ensures Unreserved(old(heap.cells), heap.cells, own, reservation, hps, p, missing)
    {
      missing := Hazard.Unreserve(heap, own, reservation, hps, p);
    }

    /** Stage 3's frees of the unprotected addresses, one after another. */
    method ReclaimAll(rec: seq<GPtr>)
      requires Valid() && Freeable(rec, nprocs)
      modifies this, PoolSet()
      ensures Valid() && freed == old(freed) + rec
      ensures Holds() == FreeAll(old(Holds()), rec, own, HpWindow())
      ensures Held(Holds()) == Held(old(Holds())) + multiset(rec)
      ensures listRet == old(listRet) && poolMem == old(poolMem) && contig == old(contig) && ncontig == old(ncontig)
    {
      ghost var h0 := Holds();
      var k := 0;
      while k < |rec|
        invariant k <= |rec| && Valid() && |h0.buffers| == nprocs && ValidHolding(h0, nprocs)
        invariant freed == old(freed) + rec[..k]
        invariant Holds() == FreeAll(h0, rec[..k], own, HpWindow())
        invariant listRet == old(listRet) && poolMem == old(poolMem) && contig == old(contig) && ncontig == old(ncontig)
      {
        assert rec[k] in rec;
        assert rec[..k + 1] == rec[..k] + [rec[k]] && rec[..k + 1][..k] == rec[..k];
        Reclaim(rec[k]);
        k := k + 1;
      }
      assert rec[..k] == rec;
      FreeAllHeld(h0, rec, own, HpWindow());
    }

    /** Stage 3's free of one unprotected address, seen from the scan. */
    method Reclaim(ptr: GPtr)
      requires Valid() && Freeable([ptr], nprocs)
      modifies this, PoolSet()
      ensures Valid() && freed == old(freed) + [ptr]
      ensures Holds() == FreeStep(old(Holds()), ptr, own, HpWindow())
      ensures listRet == old(listRet) && poolMem == old(poolMem) && contig == old(contig) && ncontig == old(ncontig)
    {
      Free(ptr);
    }

    /**
     * empty: the protected retired elements stay in list_ret; every other
     * one is passed to free, in the order of the pops from the back, and so
     * ends up in a buffer or a pool, none lost and none doubled.
     */
    method Empty()
      requires Valid()
      modifies this, PoolSet()
      ensures Valid() && poolMem == old(poolMem) && contig == old(contig) && ncontig == old(ncontig)
      ensures listRet == Retained(old(listRet), Prot())
      ensures Freeable(Reclaimed(old(listRet), Prot()), nprocs)
      ensures freed == old(freed) + Reclaimed(old(listRet), Prot())
      ensures Holds() == FreeAll(old(Holds()), Reclaimed(old(listRet), Prot()), own, HpWindow())
      ensures Held(Holds()) == Held(old(Holds())) + multiset(Reclaimed(old(listRet), Prot()))
    {
      ghost var h0 := Holds();
      var kept, rec := Scan(heap, nprocs, reservation, hps, listRet);
      ScanFromRetired(listRet, Prot());
      listRet := kept;
      assert Holds() == h0;
      ReclaimAll(rec);
    }
  }
}
