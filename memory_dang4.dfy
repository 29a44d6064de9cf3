/**
 * The manager of memory/inc/memory_dang4.h.  Every element lives in a block
 * behind a one-link header.  Fresh blocks are carved HP_WINDOW at a time
 * from pool_mem into the local heap's contiguous list; blocks that other
 * ranks free come back through SPSC pools into its non-contiguous list.
 * free collects addresses per owning rank and puts a full buffer into the
 * pool that owner drains; the scan (empty) frees every unprotected retired
 * address.  The reservation protocol is the hp manager's.
 */
module MemoryDang4 {
  import opened GlobalPtr
  import opened Rma
  import opened Hazard
  import opened Block
  import opened PoolUbdSpsc
  import opened Batching

  /**
   * The pools as the constructor builds them: pools[i][j] is hosted on rank
   * i and carries the puts of rank j, over the shared head and header
   * cells; the column this rank puts into uses head cells apart from the
   * one of its own pool pools[own][own].
   */
  ghost predicate PoolGrid(pools: seq<seq<Pool>>, n: nat, own: nat, heads: Heap<GPtr>, headers: Heap<GPtr>) {
    |pools| == n && own < n &&
    (forall i :: 0 <= i < n ==> |pools[i]| == n) &&
    (forall i, j :: 0 <= i < n && 0 <= j < n ==>
       pools[i][j].host == i && pools[i][j].producer == j &&
       pools[i][j].heads == heads && pools[i][j].headers == headers) &&
    (forall r :: 0 <= r < n && r != own ==> pools[r][own].headPtr != pools[own][own].headPtr)
  }

  /**
   * Where free leaves the elements it is given: an own element goes to
   * ncontig as its header, any other to the buffer of its rank, and a full
   * buffer is put into a pool (`puts` is every such buffer, in order).
   */
  datatype Holding = Holding(ncontig: seq<GPtr>, buffers: seq<seq<GPtr>>, puts: Batches)

  /** One free, on rank `own` with the flush threshold `window`. */
  function FreeStep(h: Holding, ptr: GPtr, own: nat, window: nat): (h': Holding)
    requires ptr.Ptr? && ptr.off >= HeaderSize && ptr.rank < |h.buffers|
    ensures |h'.buffers| == |h.buffers|
    ensures (forall x :: x in h.ncontig ==> x.Ptr?) ==> forall x :: x in h'.ncontig ==> x.Ptr?
  {
    if ptr.rank == own then h.(ncontig := h.ncontig + [HeaderOf(ptr)])
    else
      var b := h.buffers[ptr.rank] + [ptr];
      if |b| >= window then h.(buffers := h.buffers[ptr.rank := []], puts := h.puts + [b])
      else h.(buffers := h.buffers[ptr.rank := b])
  }

  /** The frees of `rec`, first to last. */
  function FreeAll(h: Holding, rec: seq<GPtr>, own: nat, window: nat): (h': Holding)
    requires Freeable(rec, |h.buffers|)
    ensures |h'.buffers| == |h.buffers|
    ensures (forall x :: x in h.ncontig ==> x.Ptr?) ==> forall x :: x in h'.ncontig ==> x.Ptr?
    decreases |rec|
  {
    if rec == [] then h
    else
      var last := rec[|rec| - 1];
      assert last in rec;
      FreeStep(FreeAll(h, rec[..|rec| - 1], own, window), last, own, window)
  }

  /** Every element a holding keeps: behind the headers of ncontig, in the buffers, in the puts. */
  ghost function Held(h: Holding): multiset<GPtr>
    requires forall x :: x in h.ncontig ==> x.Ptr?
  {
    multiset(ElementsOf(h.ncontig)) + multiset(Flatten(h.buffers)) + multiset(Flatten(h.puts))
  }

  /** A free keeps exactly one more element: the one it is given. */
  lemma FreeStepHeld(h: Holding, ptr: GPtr, own: nat, window: nat)
    requires ptr.Ptr? && ptr.off >= HeaderSize && ptr.rank < |h.buffers|
    requires forall x :: x in h.ncontig ==> x.Ptr?
    ensures Held(FreeStep(h, ptr, own, window)) == Held(h) + multiset{ptr}
  {
    var h1 := FreeStep(h, ptr, own, window);
    var r := ptr.rank;
    if r == own {
      ElementsOfAppend(h.ncontig, [HeaderOf(ptr)]);
      assert ElementsOf([HeaderOf(ptr)]) == [ptr];
    } else {
      var b := h.buffers[r] + [ptr];
      if |b| >= window {
        FlattenUpdate(h.buffers, r, []);
        FlattenAppend(h.puts, b);
        assert multiset(Flatten(h1.buffers)) + multiset(h.buffers[r]) == multiset(Flatten(h.buffers));
        assert multiset(Flatten(h1.puts)) == multiset(Flatten(h.puts)) + multiset(h.buffers[r]) + multiset{ptr};
      } else {
        FlattenUpdate(h.buffers, r, b);
        Cancel(multiset(Flatten(h1.buffers)), multiset(h.buffers[r]), multiset(Flatten(h.buffers)), multiset{ptr});
      }
    }
  }

  /** The frees of `rec` keep exactly the elements of `rec` more: none is lost or doubled. */
  lemma {:induction false} FreeAllHeld(h: Holding, rec: seq<GPtr>, own: nat, window: nat)
    requires Freeable(rec, |h.buffers|) && forall x :: x in h.ncontig ==> x.Ptr?
    ensures Held(FreeAll(h, rec, own, window)) == Held(h) + multiset(rec)
    decreases |rec|
  {
    if rec != [] {
      var init, last := rec[..|rec| - 1], rec[|rec| - 1];
      assert rec == init + [last];
      assert last in rec;
      FreeAllHeld(h, init, own, window);
      FreeStepHeld(FreeAll(h, init, own, window), last, own, window);
    }
  }

  class Memory {
    const own: nat                 // BCL::rank()
    const nprocs: nat              // BCL::nprocs()
    const hps: nat                 // HPS_PER_UNIT
    const elemSize: nat            // sizeof(T)
    const totalOps: nat            // TOTAL_OPS
    const heap: Heap<GPtr>         // pointer cells, among them every rank's reservation slots
    const reservation: nat         // offset of the slot array, the same on every rank
    const heads: Heap<GPtr>        // the pools' head cells
    const headers: Heap<GPtr>      // block headers
    const pools: seq<seq<Pool>>    // pools
    const poolRep: GPtr            // pool_rep
    var poolMem: seq<GPtr>         // pool_mem: blocks never handed out
    var contig: seq<GPtr>          // lheap.contig: blocks carved from pool_mem
    var ncontig: seq<GPtr>         // lheap.ncontig: headers got from the pools
    var listRet: seq<GPtr>         // retired elements
    var buffers: seq<seq<GPtr>>    // freed elements per owning rank
    ghost var freed: seq<GPtr>     // every address passed to free, in order
    ghost var puts: Batches        // every buffer free has put into a pool, in order

    /** The own pools, which malloc drains. */
    ghost function Consumers(): set<Pool> {
      if own < |pools| then set i | 0 <= i < |pools[own]| :: pools[own][i] else {}
    }

    /** The pools free puts into. */
    ghost function Producers(): set<Pool> {
      set r | 0 <= r < |pools| && own < |pools[r]| :: pools[r][own]
    }

    /** The part of the state fixed at construction. */
    ghost predicate Layout() {
      hps > 0 && elemSize > 0 &&
      poolRep.Ptr? && poolRep.rank == own &&
      heap != heads && heap != headers && heads != headers &&
      PoolGrid(pools, nprocs, own, heads, headers)
    }

    /**
     * Every own pool can be drained, and pools[own][own] has its published
     * head cached.
     */
    ghost predicate PoolsValid()
      reads heads, headers, Consumers()
    {
      Layout() &&
      (forall i :: 0 <= i < nprocs ==> pools[own][i].Ready()) &&
      heads.cells[pools[own][own].headPtr] == pools[own][own].headAddr
    }

    /**
     * The local lists: blocks of this rank, headers, buffers below
     * HP_WINDOW holding addresses of their own rank only.
     */
    ghost predicate ListsValid()
      reads this
    {
      OnRank(poolMem, own) && OnRank(contig, own) && (forall x :: x in ncontig ==> x.Ptr?) &&
      |buffers| == nprocs &&
      (forall r :: 0 <= r < nprocs ==> |buffers[r]| < HpWindow() && Freeable(buffers[r], nprocs)) &&
      (forall r :: 0 <= r < nprocs ==> forall x :: x in buffers[r] ==> x.rank == r) &&
      Freeable(listRet, nprocs)
    }

    ghost predicate Valid()
      reads this, heap, heads, headers, Consumers()
    {
      Layout() && AllSlots(heap.cells, nprocs, reservation, hps) && PoolsValid() && ListsValid()
    }

    ghost function Prot(): set<GPtr>
      reads heap
      requires AllSlots(heap.cells, nprocs, reservation, hps)
    {
      Protected(heap.cells, nprocs, reservation, hps)
    }

    function HpWindow(): nat {
      Window(nprocs, hps)
    }

    /** What free has left where. */
    ghost function Holds(): Holding
      reads this
    {
      Holding(ncontig, buffers, puts)
    }

    /** The headers that draining the first `n` own pools would gain, pool by pool. */
    ghost function GainedFrom(n: nat): (g: seq<GPtr>)
      reads heads, headers, Consumers()
      requires PoolsValid() && n <= nprocs
      ensures forall x :: x in g ==> x.Ptr?
    {
      if n == 0 then []
      else
        var p := pools[own][n - 1];
        var curr := heads.cells[p.headPtr];
        assert forall x :: x in p.Pending() ==> x.Ptr? by {
          if curr != p.headAddr {
            ChainPtrs(headers.cells, headers.cells[curr], p.headAddr, |headers.cells| + 1);
          }
        }
        GainedFrom(n - 1) + p.Pending()
    }

    /** The same headers as GainedFrom(n), kept run by run: one run per pool. */
    ghost function PendingRuns(n: nat): (r: seq<seq<GPtr>>)
      reads heads, headers, Consumers()
      requires PoolsValid() && n <= nprocs
      ensures |r| == n && Flatten(r) == GainedFrom(n)
      ensures forall k :: 0 <= k < n ==> r[k] == pools[own][k].Pending()
    {
      if n == 0 then []
      else
        var prev := PendingRuns(n - 1);
        var run := pools[own][n - 1].Pending();
        var r := prev + [run];
        assert r[..n - 1] == prev;
        FlattenAppend(prev, run);
        assert GainedFrom(n) == GainedFrom(n - 1) + run;
        r
    }

    /** Pool k's published head is the one it has cached. */
    ghost predicate Cached(k: nat)
      reads heads, headers, Consumers()
      requires PoolsValid() && k < nprocs
    {
      heads.cells[pools[own][k].headPtr] == pools[own][k].headAddr
    }

    /** Pools whose published head is their cached one have nothing to give. */
    lemma {:induction false} NothingPending(n: nat)
      requires PoolsValid() && n <= nprocs
      requires forall k :: 0 <= k < n ==> Cached(k)
      ensures GainedFrom(n) == []
    {
      if n > 0 {
        assert Cached(n - 1);
        NothingPending(n - 1);
      }
    }

    /**
     * The drain after its first `i` pools: those have their published head
     * cached, ncontig has gained their runs, the rest still hold theirs.
     */
    ghost predicate DrainedTo(i: nat, n0: seq<GPtr>, runs: seq<seq<GPtr>>)
      reads this, heap, heads, headers, Consumers()
    {
      Valid() && i <= nprocs && |runs| == nprocs &&
      ncontig == n0 + Flatten(runs[..i]) &&
      (forall k :: 0 <= k < i ==> Cached(k)) &&
      (forall k :: i <= k < nprocs ==> pools[own][k].Pending() == runs[k])
    }

    /**
     * The constructor: every rank has allocated its slot array at offset
     * `reservation` and its pool of blocks at `poolStart`; the pools were
     * built collectively, each with its host's head published and cached.
     */
    constructor (own: nat, nprocs: nat, hps: nat, elemSize: nat, totalOps: nat,
                 heap: Heap<GPtr>, reservation: nat, poolStart: nat,
                 heads: Heap<GPtr>, headers: Heap<GPtr>, pools: seq<seq<Pool>>)
      requires hps > 0 && elemSize > 0
      requires AllSlots(heap.cells, nprocs, reservation, hps)
      requires heap != heads && heap != headers && heads != headers
      requires PoolGrid(pools, nprocs, own, heads, headers)
      requires forall i :: 0 <= i < nprocs ==>
                 pools[own][i].Ready() && heads.cells[pools[own][i].headPtr] == pools[own][i].headAddr
      modifies heap
      ensures Valid()
      ensures this.own == own && this.nprocs == nprocs && this.hps == hps && this.heap == heap
      ensures this.elemSize == elemSize && this.totalOps == totalOps && this.reservation == reservation
      ensures this.heads == heads && this.headers == headers && this.pools == pools
      ensures heap.cells == Cleared(old(heap.cells), own, reservation, hps)
      ensures poolRep == Ptr(own, poolStart)
      ensures poolMem == Blocks(poolRep, HeaderSize + elemSize, totalOps)
      ensures contig == [] && ncontig == [] && listRet == [] && freed == [] && puts == []
      ensures |buffers| == nprocs && forall r :: 0 <= r < nprocs ==> buffers[r] == []
      ensures GainedFrom(nprocs) == []
    {
      this.own, this.nprocs, this.hps := own, nprocs, hps;
      this.elemSize, this.totalOps := elemSize, totalOps;
      this.heap, this.reservation := heap, reservation;
      this.heads, this.headers, this.pools := heads, headers, pools;
      poolRep := Ptr(own, poolStart);
      poolMem := Blocks(Ptr(own, poolStart), HeaderSize + elemSize, totalOps);
      contig, ncontig, listRet := [], [], [];
      buffers := seq(nprocs, r => []);
      freed, puts := [], [];
      new;
      WindowPositive(nprocs, hps);
      ClearSlots(heap, own, reservation, hps);
      ClearedSpec(old(heap.cells), own, reservation, hps);
      NothingPending(nprocs);
    }

    /**
     * Drain every own pool, in rank order, appending what each get hands
     * out to ncontig; afterwards no own pool has anything pending.
     */
    method Drain()
      requires Valid()
      modifies this`ncontig, Consumers()
      ensures Valid() && GainedFrom(nprocs) == []
      ensures ncontig == old(ncontig) + old(GainedFrom(nprocs))
    {
      ghost var runs, n0 := PendingRuns(nprocs), ncontig;
      DrainStart(runs);
      var i := 0;
      while i < |pools[own]|
        invariant i <= nprocs == |pools[own]| && DrainedTo(i, n0, runs)
      {
        DrainStep(i, n0, runs);
        i := i + 1;
      }
      DrainedAll(n0, runs);
    }

    /** Before the drain, nothing is drained and every pool holds its run. */
    lemma DrainStart(runs: seq<seq<GPtr>>)
      requires Valid() && runs == PendingRuns(nprocs)
      ensures DrainedTo(0, ncontig, runs) && |pools[own]| == nprocs
      ensures Flatten(runs) == GainedFrom(nprocs)
    {
      assert runs[..0] == [];
    }

    /** Once every pool is drained, ncontig has gained all the runs and nothing is pending. */
    lemma DrainedAll(n0: seq<GPtr>, runs: seq<seq<GPtr>>)
      requires DrainedTo(nprocs, n0, runs)
      ensures Valid() && GainedFrom(nprocs) == [] && ncontig == n0 + Flatten(runs)
    {
      assert runs[..nprocs] == runs;
      NothingPending(nprocs);
    }

    /** The loop body of the drain, stated on DrainedTo. */
    method DrainStep(i: nat, ghost n0: seq<GPtr>, ghost runs: seq<seq<GPtr>>)
      requires i < nprocs && DrainedTo(i, n0, runs)
      modifies this`ncontig, pools[own][i]
      ensures DrainedTo(i + 1, n0, runs)
      ensures heads.cells == old(heads.cells) && headers.cells == old(headers.cells)
    {
      FlattenPrefix(runs, i);
      DrainOne(i);
    }

    /** One step of the drain: get from pools[own][i] and append what it hands out. */
    method DrainOne(i: nat)
      requires Valid() && i < nprocs
      modifies this`ncontig, pools[own][i]
      ensures Valid()
      ensures ncontig == old(ncontig) + old(pools[own][i].Pending())
      ensures Cached(i)
      ensures forall k :: 0 <= k < nprocs && k != i ==> (Cached(k) <==> old(Cached(k)))
      ensures heads.cells == old(heads.cells) && headers.cells == old(headers.cells)
      ensures forall k :: 0 <= k < nprocs && k != i ==> unchanged(pools[own][k])
      ensures forall k :: 0 <= k < nprocs && k != i ==> pools[own][k].Pending() == old(pools[own][k].Pending())
      ensures poolMem == old(poolMem) && contig == old(contig)
      ensures listRet == old(listRet) && buffers == old(buffers) && freed == old(freed) && puts == old(puts)
    {
      var p := pools[own][i];
      var ok, first, last := p.Get();
      if ok {
        ChainPtrs(headers.cells, first, last, |headers.cells| + 1);
        ncontig := ncontig + Chain(headers.cells, first, last, |headers.cells| + 1);
      }
      forall k | 0 <= k < nprocs ensures pools[own][k].Ready() {
        if k != i {
          assert pools[own][k].producer == k;
        }
      }
    }

    /**
     * malloc: the first header of ncontig, else the first block of contig;
     * else drain the own pools and take the first header gained; else carve
     * the next HP_WINDOW blocks of pool_mem into contig and take the first;
     * else drain once more (in a sequential run this finds nothing: the
     * first drain left every own pool without pending headers) and return
     * null.  A header or block is returned as the element behind it.
     */
    method Malloc() returns (r: GPtr)
      requires Valid()
      modifies this, Consumers()
      ensures Valid()
      ensures listRet == old(listRet) && buffers == old(buffers) && freed == old(freed) && puts == old(puts)
      ensures old(ncontig) != [] ==>
                r == ElementOf(old(ncontig)[0]) && ncontig == old(ncontig)[1..] &&
                contig == old(contig) && poolMem == old(poolMem) && unchanged(Consumers())
      ensures old(ncontig) == [] && old(contig) != [] ==>
                r == ElementOf(old(contig)[0]) && contig == old(contig)[1..] &&
                ncontig == [] && poolMem == old(poolMem) && unchanged(Consumers())
      ensures old(ncontig) == [] && old(contig) == [] ==> Refilled(r)
    {
      if ncontig != [] {
        var h := ncontig[0];
        ncontig := ncontig[1..];
        return ElementOf(h);
      }
      if contig != [] {
        var b := contig[0];
        contig := contig[1..];
        return ElementOf(b);
      }
      r := Refill();
    }

    /**
     * malloc's outcome once both local lists are empty: the first header
     * the drain gains; else the first block carved from pool_mem, the rest
     * of the carved blocks in contig; else null.  The own pools are left
     * with nothing pending.
     */
    twostate predicate Refilled(r: GPtr)
      reads this, heads, headers, Consumers()
      requires old(PoolsValid()) && PoolsValid()
    {
      var g := old(GainedFrom(nprocs));
      GainedFrom(nprocs) == [] &&
      (g != [] ==> r == ElementOf(g[0]) && ncontig == g[1..] && contig == [] && poolMem == old(poolMem)) &&
      (g == [] && old(poolMem) != [] ==>
         var w := Min(HpWindow(), |old(poolMem)|);
         old(poolMem)[0].Ptr? && r == ElementOf(old(poolMem)[0]) && contig == old(poolMem)[1..w] &&
         poolMem == old(poolMem)[w..] && ncontig == []) &&
      (g == [] && old(poolMem) == [] ==> r == Null && ncontig == [] && contig == [] && poolMem == [])
    }

    /** The drain, pool_mem and second drain steps of malloc. */
    method Refill() returns (r: GPtr)
      requires Valid() && ncontig == [] && contig == []
      modifies this, Consumers()
      ensures Valid() && Refilled(r)
      ensures listRet == old(listRet) && buffers == old(buffers) && freed == old(freed) && puts == old(puts)
    {
      ghost var g, pm := GainedFrom(nprocs), poolMem;
      Drain();
      assert ncontig == g && contig == [] && poolMem == pm;
      r := AfterDrain();
    }

    /**
     * malloc after its first drain: the first header gained, else the
     * pool_mem step, else the second drain.
     */
    method AfterDrain() returns (r: GPtr)
      requires Valid() && contig == [] && GainedFrom(nprocs) == []
      modifies this, Consumers()
      ensures Valid() && GainedFrom(nprocs) == []
      ensures listRet == old(listRet) && buffers == old(buffers) && freed == old(freed) && puts == old(puts)
      ensures old(ncontig) != [] ==>
                r == ElementOf(old(ncontig)[0]) && ncontig == old(ncontig)[1..] && contig == [] && poolMem == old(poolMem)
      ensures old(ncontig) == [] && old(poolMem) != [] ==>
                var w := Min(HpWindow(), |old(poolMem)|);
                old(poolMem)[0].Ptr? && r == ElementOf(old(poolMem)[0]) && contig == old(poolMem)[1..w] &&
                poolMem == old(poolMem)[w..] && ncontig == []
      ensures old(ncontig) == [] && old(poolMem) == [] ==> r == Null && ncontig == [] && contig == [] && poolMem == []
    {
      if ncontig != [] {
        var h := ncontig[0];
        ncontig := ncontig[1..];
        return ElementOf(h);
      }
      r := Carve();
      if r != Null {
        return;
      }
      // The second drain: no rank puts between the two drains of this
      // sequential model, so it gains nothing and malloc returns null.
      Drain();
      r := Null;
    }

    /**
     * The pool_mem step of malloc: the next HP_WINDOW blocks (all that are
     * left when fewer remain) become contig, and its first block is
     * returned; null when pool_mem is empty.
     */
    method Carve() returns (r: GPtr)
      requires Valid() && contig == []
      modifies this
      ensures Valid()
      ensures ncontig == old(ncontig) && listRet == old(listRet) && buffers == old(buffers) && freed == old(freed) && puts == old(puts)
      ensures old(poolMem) != [] ==>
                var w := Min(HpWindow(), |old(poolMem)|);
                r == ElementOf(old(poolMem)[0]) && contig == old(poolMem)[1..w] && poolMem == old(poolMem)[w..]
      ensures old(poolMem) == [] ==> r == Null && contig == [] && poolMem == []
    {
      if poolMem == [] {
        return Null;
      }
      WindowPositive(nprocs, hps);
      var w := Min(HpWindow(), |poolMem|);
      contig := poolMem[..w];
      poolMem := poolMem[w..];
      var b := contig[0];
      contig := contig[1..];
      r := ElementOf(b);
    }

    /**
     * free, with own-rank addresses kept: an address of this rank goes
     * straight back to ncontig as its header; any other address is appended
     * to the buffer of its rank, and a buffer that reaches HP_WINDOW is put
     * into pools[rank][own] and cleared.
     */
    method Free(ptr: GPtr)
      requires Valid() && Freeable([ptr], nprocs)
      modifies this, heads, headers, pools[ptr.rank][own]
      ensures Valid() && freed == old(freed) + [ptr]
      ensures poolMem == old(poolMem) && contig == old(contig) && listRet == old(listRet)
      ensures ptr.rank == own ==>
                ncontig == old(ncontig) + [HeaderOf(ptr)] && buffers == old(buffers) &&
                unchanged(heads, headers, pools[ptr.rank][own])
      ensures ptr.rank != own ==> ncontig == old(ncontig) && Buffered(ptr)
      ensures Holds() == FreeStep(old(Holds()), ptr, own, HpWindow())
    {
      freed := freed + [ptr];
      if ptr.rank == own {
        ncontig := ncontig + [HeaderOf(ptr)];
      } else {
        Push(ptr);
      }
    }

    /**
     * The buffering and flushing of `ptr` as free does it: the new state of
     * buffers[ptr.rank], and when that buffer reached HP_WINDOW, the put of
     * it into pools[ptr.rank][own].
     */
    twostate predicate Buffered(ptr: GPtr)
      reads this, heads, headers, Producers()
      requires old(Valid()) && Freeable([ptr], nprocs) && |buffers| == nprocs
    {
      var b := old(buffers[ptr.rank]) + [ptr];
      var p := pools[ptr.rank][own];
      if |b| >= HpWindow() then
        buffers == old(buffers)[ptr.rank := []] && puts == old(puts) + [b] &&
        headers.cells == Scattered(old(headers.cells), Links(b, old(p.headAddr)), HeaderOf(b[0]), Disp(b)) &&
        (Batch(b) ==> Linked(headers.cells, b, old(p.headAddr))) &&
        p.headAddr == HeaderOf(b[0]) && heads.cells == old(heads.cells)[p.headPtr := p.headAddr]
      else
        buffers == old(buffers)[ptr.rank := b] && puts == old(puts) &&
        headers.cells == old(headers.cells) && heads.cells == old(heads.cells) && p.headAddr == old(p.headAddr)
    }

    /** Append `ptr` to the buffer of its rank and flush that buffer once full. */
    method Push(ptr: GPtr)
      requires Valid() && Freeable([ptr], nprocs)
      modifies this, heads, headers, pools[ptr.rank][own]
      ensures Valid() && Buffered(ptr)
      ensures ncontig == old(ncontig) && freed == old(freed)
      ensures poolMem == old(poolMem) && contig == old(contig) && listRet == old(listRet)
    {
      if |buffers[ptr.rank]| + 1 >= HpWindow() {
        Flush(ptr);
      } else {
        buffers := buffers[ptr.rank := buffers[ptr.rank] + [ptr]];
      }
    }

    /** A buffer that `ptr` fills up is put into the pool of its rank and emptied. */
    method Flush(ptr: GPtr)
      requires Valid() && Freeable([ptr], nprocs) && |buffers[ptr.rank]| + 1 >= HpWindow()
      modifies this, heads, headers, pools[ptr.rank][own]
      ensures Valid() && Buffered(ptr)
      ensures ncontig == old(ncontig) && freed == old(freed)
      ensures poolMem == old(poolMem) && contig == old(contig) && listRet == old(listRet)
    {
      var p := pools[ptr.rank][own];
      p.Put(buffers[ptr.rank] + [ptr]);
      puts := puts + [buffers[ptr.rank] + [ptr]];
      buffers := buffers[ptr.rank := []];
      PutKeepsPools(p);
    }

    /**
     * After a put from this rank into `p`, the own pools can still be
     * drained, and pools[own][own] still has its published head cached.
     */
    twostate lemma PutKeepsPools(p: Pool)
      requires old(PoolsValid()) && p in Producers()
      requires forall i :: 0 <= i < nprocs && pools[own][i] != p ==> pools[own][i].headAddr == old(pools[own][i].headAddr)
      requires heads.cells == old(heads.cells)[p.headPtr := p.headAddr] && p.headAddr in headers.cells
      requires forall a :: a in old(headers.cells) ==> a in headers.cells
      requires Null !in headers.cells && p.headAddr.Ptr?
      ensures PoolsValid()
    {
      var r :| 0 <= r < nprocs && p == pools[r][own];
      forall i | 0 <= i < nprocs ensures pools[own][i].Ready() {
        var q := pools[own][i];
        if q != p {
          assert old(q.Ready());
        }
      }
      if r != own {
        assert pools[own][own].host == own;
        assert p.headPtr != pools[own][own].headPtr;
      }
    }

    /**
     * free as written: every address, the caller's own included, goes to the
     * buffer of its rank.  An own-rank buffer is therefore put into
     * pools[own][own], the very object malloc drains for that rank, which
     * caches the head it publishes: the batch is never pending there, and get
     * on it keeps returning false.
     */
    method FreeAsWritten(ptr: GPtr)
      requires Valid() && Freeable([ptr], nprocs)
      modifies this, heads, headers, pools[ptr.rank][own]
      ensures Valid() && freed == old(freed) + [ptr] && ncontig == old(ncontig)
      ensures poolMem == old(poolMem) && contig == old(contig) && listRet == old(listRet)
      ensures Buffered(ptr)
      ensures pools[own][own].Pending() == []
    {
      freed := freed + [ptr];
      Push(ptr);
    }

    /** retire: append to list_ret; a list of HP_WINDOW or more elements is scanned. */
    method Retire(ptr: GPtr)
      requires Valid() && Freeable([ptr], nprocs)
      modifies this, heads, headers, Producers()
      ensures Valid() && poolMem == old(poolMem) && contig == old(contig)
      ensures var ret := old(listRet) + [ptr];
        if |ret| >= HpWindow() then
          var rec := Reclaimed(ret, Prot());
          Freeable(rec, nprocs) && listRet == Retained(ret, Prot()) && freed == old(freed) + rec &&
          Holds() == FreeAll(old(Holds()), rec, own, HpWindow()) &&
          Held(Holds()) == Held(old(Holds())) + multiset(rec)
        else
          listRet == ret && freed == old(freed) && Holds() == old(Holds()) && unchanged(heads, headers, Producers())
    {
      listRet := listRet + [ptr];
      if |listRet| >= HpWindow() {
        Empty();
      }
    }

    /** op_begin: a no-op. */
    method OpBegin()
      ensures unchanged(this, heap)
    {
    }

    /** op_end: a no-op. */
    method OpEnd()
      ensures unchanged(this, heap)
    {
    }

    method TryReserve(src: GPtr, valOld: GPtr) returns (r: GPtr, full: bool)
      requires Valid() && (valOld != Null ==> src in heap.cells)
      modifies heap
      ensures Valid()
      ensures TryReserved(old(heap.cells), heap.cells, own, reservation, hps, src, valOld, r, full)
    {
      r, full := Hazard.TryReserve(heap, own, reservation, hps, src, valOld);
    }

    /** reserve; `others` are the stores other ranks make into `src` meanwhile. */
    method Reserve(src: GPtr, others: seq<GPtr>) returns (r: GPtr, full: bool)
      requires Valid() && src in heap.cells
      modifies heap
      ensures Valid()
      ensures Reserved(old(heap.cells), heap.cells, own, reservation, hps, src, others, r, full)
    {
      r, full := Hazard.Reserve(heap, own, reservation, hps, src, others);
    }

    method Unreserve(p: GPtr) returns (missing: bool)
      requires Valid()
      modifies heap
      ensures Valid()
      ensures Unreserved(old(heap.cells), heap.cells, own, reservation, hps, p, missing)
    {
      missing := Hazard.Unreserve(heap, own, reservation, hps, p);
    }

    /** Stage 3's frees of the unprotected addresses, one after another. */
    method ReclaimAll(rec: seq<GPtr>)
      requires Valid() && Freeable(rec, nprocs)
      modifies this, heads, headers, Producers()
      ensures Valid() && freed == old(freed) + rec
      ensures Holds() == FreeAll(old(Holds()), rec, own, HpWindow())
      ensures Held(Holds()) == Held(old(Holds())) + multiset(rec)
      ensures listRet == old(listRet) && poolMem == old(poolMem) && contig == old(contig)
    {
      ghost var h0 := Holds();
      var k := 0;
      while k < |rec|
        invariant k <= |rec| && Valid() && |h0.buffers| == nprocs
        invariant freed == old(freed) + rec[..k]
        invariant Holds() == FreeAll(h0, rec[..k], own, HpWindow())
        invariant listRet == old(listRet) && poolMem == old(poolMem) && contig == old(contig)
      {
        assert rec[k] in rec;
        assert rec[..k + 1] == rec[..k] + [rec[k]] && rec[..k + 1][..k] == rec[..k];
        Reclaim(rec[k]);
        k := k + 1;
      }
      assert rec[..k] == rec;
      FreeAllHeld(h0, rec, own, HpWindow());
    }

    /** Stage 3's free of one unprotected address, seen from the scan. */
    method Reclaim(ptr: GPtr)
      requires Valid() && Freeable([ptr], nprocs)
      modifies this, heads, headers, Producers()
      ensures Valid() && freed == old(freed) + [ptr]
      ensures Holds() == FreeStep(old(Holds()), ptr, own, HpWindow())
      ensures listRet == old(listRet) && poolMem == old(poolMem) && contig == old(contig)
    {
      Free(ptr);
    }

    /**
     * empty: the protected retired elements stay in list_ret; every other
     * one is passed to free, in the order of the pops from the back, and so
     * ends up in ncontig, a buffer or a put, none lost and none doubled.
     */
    method Empty()
      requires Valid()
      modifies this, heads, headers, Producers()
      ensures Valid() && poolMem == old(poolMem) && contig == old(contig)
      ensures listRet == Retained(old(listRet), Prot())
      ensures Freeable(Reclaimed(old(listRet), Prot()), nprocs)
      ensures freed == old(freed) + Reclaimed(old(listRet), Prot())
      ensures Holds() == FreeAll(old(Holds()), Reclaimed(old(listRet), Prot()), own, HpWindow())
      ensures Held(Holds()) == Held(old(Holds())) + multiset(Reclaimed(old(listRet), Prot()))
    {
      var kept, rec := Scan(heap, nprocs, reservation, hps, listRet);
      ScanFromRetired(listRet, Prot());
      ghost var h0 := Holds();
      listRet := kept;
      assert Holds() == h0;
      ReclaimAll(rec);
    }
  }
}
