/**
 * The unbounded single-producer single-consumer pool of freed blocks of
 * pool/inc/pool_ubd_spsc.h.  Every block starts with a header holding one
 * link.  The pool is a list of headers threaded through those links, newest
 * first; the host rank publishes its head in one cell (head_ptr).  The
 * producer links a batch of blocks in front of the head it published last
 * and publishes the batch's first header; the consumer compares the
 * published head with the one it saw last and takes the headers in between.
 */
module PoolUbdSpsc {
  import opened GlobalPtr
  import opened Rma
  import opened Block

  /** A batch as free hands it to put: non-empty, on one rank, no address twice. */
  ghost predicate Batch(vals: seq<GPtr>) {
    vals != [] && Elements(vals) &&
    (forall i :: 0 <= i < |vals| ==> vals[i].rank == vals[0].rank) &&
    (forall i, j :: 0 <= i < j < |vals| ==> vals[i].off != vals[j].off)
  }

  /** put's `disp`: every offset relative to the first element's. */
  function Disp(vals: seq<GPtr>): (d: seq<int>)
    requires vals != [] && Elements(vals)
    ensures |d| == |vals|
  {
    seq(|vals|, i requires 0 <= i < |vals| => vals[i].off as int - vals[0].off as int)
  }

  /**
   * put's `buffer`: the link of header `i` names the header in front of
   * `vals[i + 1]`, and the last one names `head`.
   */
  function Links(vals: seq<GPtr>, head: GPtr): (links: seq<GPtr>)
    requires Elements(vals)
    ensures |links| == |vals|
  {
    seq(|vals|, i requires 0 <= i < |vals| => if i < |vals| - 1 then HeaderOf(vals[i + 1]) else head)
  }

  /** The header of every element holds the link put means it to hold. */
  ghost predicate Linked(cells: map<GPtr, GPtr>, vals: seq<GPtr>, head: GPtr)
    requires Elements(vals)
  {
    forall i :: 0 <= i < |vals| ==> HeaderOf(vals[i]) in cells && cells[HeaderOf(vals[i])] == Links(vals, head)[i]
  }

  /**
   * put writes entry `i` at base + disp[i], with base the header in front
   * of `vals[0]`: the header in front of `vals[i]`, moved to `vals[0]`'s rank.
   */
  lemma PutTargets(vals: seq<GPtr>)
    requires vals != [] && Elements(vals)
    ensures Displacements(HeaderOf(vals[0]), Disp(vals))
    ensures forall i :: 0 <= i < |vals| ==>
              Displaced(HeaderOf(vals[0]), Disp(vals)[i]) == Ptr(vals[0].rank, vals[i].off - HeaderSize)
  {
  }

  /**
   * For a batch these are the headers themselves: after put the header in
   * front of `vals[i]` links to the one in front of `vals[i + 1]`, the last
   * one to the head cached before, and no other header changes.
   */
  lemma {:induction false} PutLinks(cells: map<GPtr, GPtr>, vals: seq<GPtr>, head: GPtr)
    requires Batch(vals)
    ensures Linked(Scattered(cells, Links(vals, head), HeaderOf(vals[0]), Disp(vals)), vals, head)
  {
    PutTargets(vals);
    var base, disp := HeaderOf(vals[0]), Disp(vals);
    forall i, j | 0 <= i < j < |disp| ensures disp[i] != disp[j] {
      assert vals[i].off != vals[j].off;
    }
    ScatteredSpec(cells, Links(vals, head), base, disp);
    forall i | 0 <= i < |vals| ensures Displaced(base, disp[i]) == HeaderOf(vals[i]) {
      assert vals[i].rank == vals[0].rank;
    }
  }

  /**
   * The headers met following the links from `first` until `last`, both
   * included: the list a list_seq2 set to (first, last) holds.  The walk
   * stops after `fuel` headers, or at a header never written.
   */
  function Chain(cells: map<GPtr, GPtr>, first: GPtr, last: GPtr, fuel: nat): seq<GPtr>
    decreases fuel
  {
    if fuel == 0 then []
    else if first == last then [last]
    else if first !in cells then []
    else [first] + Chain(cells, cells[first], last, fuel - 1)
  }

  /** With no header at null, a walk down to a non-null head meets only non-null headers. */
  lemma {:induction false} ChainPtrs(cells: map<GPtr, GPtr>, first: GPtr, last: GPtr, fuel: nat)
    requires Null !in cells && last.Ptr?
    ensures forall x :: x in Chain(cells, first, last, fuel) ==> x.Ptr?
    decreases fuel
  {
    if fuel > 0 && first != last && first in cells {
      ChainPtrs(cells, cells[first], last, fuel - 1);
    }
  }

  /** Walking a linked batch from its `k`-th header meets the rest of the batch, then `head`. */
  lemma {:induction false} ChainOfLinked(cells: map<GPtr, GPtr>, vals: seq<GPtr>, head: GPtr, k: nat, fuel: nat)
    requires Elements(vals) && Linked(cells, vals, head) && head !in Headers(vals)
    requires k < |vals| && fuel >= |vals| - k + 1
    ensures Chain(cells, HeaderOf(vals[k]), head, fuel) == Headers(vals)[k..] + [head]
    decreases |vals| - k
  {
    var h := HeaderOf(vals[k]);
    assert h == Headers(vals)[k];
    if k < |vals| - 1 {
      ChainOfLinked(cells, vals, head, k + 1, fuel - 1);
      assert Headers(vals)[k..] == [h] + Headers(vals)[k + 1..];
    } else {
      assert Chain(cells, head, head, fuel - 1) == [head];
    }
  }

  /** Distinct headers that are all keys of `cells` are at most as many as its keys. */
  lemma {:induction false} KeysCover(cells: map<GPtr, GPtr>, hs: seq<GPtr>)
    requires forall i, j :: 0 <= i < j < |hs| ==> hs[i] != hs[j]
    requires forall i :: 0 <= i < |hs| ==> hs[i] in cells
    ensures |hs| <= |cells|
  {
    if hs != [] {
      var x := hs[|hs| - 1];
      var rest := cells - {x};
      KeysCover(rest, hs[..|hs| - 1]);
      assert rest.Keys + {x} == cells.Keys;
      assert |rest.Keys| + 1 == |cells.Keys|;
    }
  }

  /**
   * What a get would hand out: nothing when the published head `curr` is
   * the cached one, otherwise the headers from `curr`'s link down to the
   * cached head.
   */
  ghost function Waiting(cells: map<GPtr, GPtr>, curr: GPtr, cached: GPtr): seq<GPtr>
    requires curr == cached || curr in cells
  {
    if curr == cached then [] else Chain(cells, cells[curr], cached, |cells| + 1)
  }

  /**
   * The hand-over of one batch: after the producer puts `vals` in front of
   * `head`, a consumer whose cached head is `head` gets every header of the
   * batch but the first, followed by `head` itself; the first header becomes
   * the cached head that the next batch links to.
   */
  lemma {:induction false} PutThenGet(cells: map<GPtr, GPtr>, vals: seq<GPtr>, head: GPtr)
    requires Batch(vals) && head !in Headers(vals)
    ensures var after := Scattered(cells, Links(vals, head), HeaderOf(vals[0]), Disp(vals));
      HeaderOf(vals[0]) in after &&
      Waiting(after, HeaderOf(vals[0]), head) == Headers(vals)[1..] + [head]
  {
    var after := Scattered(cells, Links(vals, head), HeaderOf(vals[0]), Disp(vals));
    PutLinks(cells, vals, head);
    HeadersDistinct(vals);
    LinkedWaiting(after, vals, head);
  }

  /** In any cells where a batch is linked, walking from its first header meets the rest, then `head`. */
  lemma LinkedWaiting(after: map<GPtr, GPtr>, vals: seq<GPtr>, head: GPtr)
    requires Elements(vals) && vals != [] && Linked(after, vals, head) && head !in Headers(vals)
    requires forall i, j :: 0 <= i < j < |vals| ==> Headers(vals)[i] != Headers(vals)[j]
    ensures HeaderOf(vals[0]) in after && Waiting(after, HeaderOf(vals[0]), head) == Headers(vals)[1..] + [head]
  {
    var h0 := HeaderOf(vals[0]);
    assert h0 in after && after[h0] == Links(vals, head)[0];
    assert h0 == Headers(vals)[0];
    if |vals| == 1 {
      assert after[h0] == head;
      assert Headers(vals)[1..] == [];
    } else {
      assert after[h0] == HeaderOf(vals[1]);
      var hs := Headers(vals);
      assert forall i :: 0 <= i < |hs| ==> hs[i] in after;
      KeysCover(after, hs);
      ChainOfLinked(after, vals, head, 1, |after| + 1);
    }
  }

  lemma HeadersDistinct(vals: seq<GPtr>)
    requires Batch(vals)
    ensures forall i, j :: 0 <= i < j < |vals| ==> Headers(vals)[i] != Headers(vals)[j]
  {
    forall i, j | 0 <= i < j < |vals| ensures Headers(vals)[i] != Headers(vals)[j] {
      assert vals[i].off != vals[j].off;
    }
  }

  class Pool {
    const host: nat             // HOST
    ghost const producer: nat   // the rank whose puts this copy carries
    const headPtr: GPtr         // head_ptr: HOST's cell publishing the newest header
    const heads: Heap<GPtr>     // the cells head_ptr points to
    const headers: Heap<GPtr>   // block headers: each header's link
    var headAddr: GPtr          // head_addr: the head this copy put or got last

    /**
     * get can run: the published head is readable, and its header is
     * written unless it is the cached head.
     */
    ghost predicate Ready()
      reads this, heads, headers
    {
      headPtr in heads.cells && headAddr.Ptr? && Null !in headers.cells &&
      (heads.cells[headPtr] == headAddr || heads.cells[headPtr] in headers.cells)
    }

    /** The headers the next get hands out. */
    ghost function Pending(): seq<GPtr>
      reads this, heads, headers
      requires Ready()
    {
      Waiting(headers.cells, heads.cells[headPtr], headAddr)
    }

    /**
     * The constructor on HOST: head_ptr and the dummy block are fresh
     * allocations; head_addr is the dummy's address, also stored in
     * head_ptr's cell.
     */
    constructor Host(host: nat, ghost producer: nat, headPtr: GPtr, dummy: GPtr,
                     heads: Heap<GPtr>, headers: Heap<GPtr>)
      requires dummy.Ptr? && Null !in headers.cells && heads != headers
      modifies heads
      ensures this.host == host && this.producer == producer && this.headPtr == headPtr
      ensures this.heads == heads && this.headers == headers
      ensures headAddr == dummy && heads.cells == old(heads.cells)[headPtr := dummy]
      ensures Ready() && Pending() == []
    {
      this.host, this.producer, this.headPtr := host, producer, headPtr;
      this.heads, this.headers := heads, headers;
      headAddr := dummy;
      new;
      heads.Put(headAddr, headPtr);
    }

    /**
     * The constructor on every other rank: the broadcast hands it HOST's
     * head_ptr and head_addr.
     */
    constructor Peer(host: nat, ghost producer: nat, headPtr: GPtr, headAddr: GPtr,
                     heads: Heap<GPtr>, headers: Heap<GPtr>)
      ensures this.host == host && this.producer == producer && this.headPtr == headPtr
      ensures this.heads == heads && this.headers == headers && this.headAddr == headAddr
    {
      this.host, this.producer, this.headPtr := host, producer, headPtr;
      this.heads, this.headers, this.headAddr := heads, headers, headAddr;
    }

    /**
     * put: link the headers in front of `vals` to one another and the last
     * one to the cached head, in one write relative to the first header;
     * then cache and publish the first header.
     */
    method Put(vals: seq<GPtr>)
      requires vals != [] && Elements(vals) && heads != headers
      modifies this, heads, headers
      ensures headers.cells == Scattered(old(headers.cells), Links(vals, old(headAddr)), HeaderOf(vals[0]), Disp(vals))
      ensures headAddr == HeaderOf(vals[0]) && heads.cells == old(heads.cells)[headPtr := headAddr]
      ensures Batch(vals) ==> Linked(headers.cells, vals, old(headAddr))
      ensures headAddr in headers.cells
      ensures forall a :: a in old(headers.cells) ==> a in headers.cells
      ensures Null !in old(headers.cells) ==> Ready() && Pending() == []
    {
      var disp: seq<int> := [];
      var buffer: seq<GPtr> := [];
      var i := 0;
      while i < |vals|
        invariant i <= |vals|
        invariant disp == Disp(vals)[..i] && buffer == Links(vals, headAddr)[..i]
      {
        disp := disp + [vals[i].off as int - vals[0].off as int];
        var next := if i != |vals| - 1 then Ptr(vals[i + 1].rank, vals[i + 1].off - HeaderSize) else headAddr;
        buffer := buffer + [next];
        i := i + 1;
      }
      assert disp == Disp(vals) && buffer == Links(vals, headAddr);
      var base := Ptr(vals[0].rank, vals[0].off - HeaderSize);
      PutTargets(vals);
      ghost var cells0 := headers.cells;
      headers.PutScattered(buffer, base, disp);
      ScatteredKeys(cells0, buffer, base, disp);
      assert Displaced(base, disp[0]) == base;
      headAddr := base;
      heads.Put(headAddr, headPtr);
      if Batch(vals) {
        PutLinks(cells0, vals, old(headAddr));
      }
    }

    /**
     * get: false when the published head is the cached one; otherwise the
     * list from the published header's link down to the cached head, and
     * the published head becomes the cached one.
     */
    method Get() returns (ok: bool, first: GPtr, last: GPtr)
      requires Ready()
      modifies this
      ensures Ready() && Pending() == []
      ensures ok <==> heads.cells[headPtr] != old(headAddr)
      ensures !ok ==> headAddr == old(headAddr)
      ensures ok ==> headAddr == heads.cells[headPtr] && first == headers.cells[headAddr] && last == old(headAddr)
      ensures ok ==> Chain(headers.cells, first, last, |headers.cells| + 1) == old(Pending())
    {
      var curr := heads.Get(headPtr);
      if curr == headAddr {
        return false, Null, Null;
      }
      first := headers.Get(curr);
      last := headAddr;
      headAddr := curr;
      ok := true;
    }
  }
}
