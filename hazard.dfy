/**
 * The hazard-pointer protocol shared by the per-rank memory managers.
 *
 * Every rank owns HPS_PER_UNIT reservation slots (pointer cells) at the same
 * offset `base` of its segment.  A rank protects an address by publishing it
 * in one of its own slots (try_reserve, reserve), withdraws it again
 * (unreserve), and before reusing retired memory it scans every rank's slots
 * (empty, Stages 1 to 3): a retired address that some slot holds stays
 * retired, every other one is reclaimed.  The managers differ only in where
 * reclaimed addresses go, so the scan here returns the two lists and each
 * manager routes the second one itself.
 */
module Hazard {
  import opened GlobalPtr
  import opened Rma

  /** Bytes in one global pointer: consecutive slots of a rank are this far apart. */
  const PtrSize: nat := 8

  /** HP_WINDOW = HP_TOTAL * 2, where HP_TOTAL = nprocs * HPS_PER_UNIT. */
  function Window(nprocs: nat, hps: nat): nat {
    2 * (nprocs * hps)
  }

  /** Every rank with a slot makes the window positive. */
  lemma WindowPositive(nprocs: nat, hps: nat)
    requires nprocs > 0 && hps > 0
    ensures Window(nprocs, hps) > 0
  {
    assert nprocs * hps >= 1 * hps;
  }

  /** Slot `j` of `rank`: `reservation` advanced by `j` pointers, on that rank. */
  function Slot(rank: nat, base: nat, j: nat): GPtr {
    Ptr(rank, base + j * PtrSize)
  }

  lemma SlotInjective(r1: nat, r2: nat, base: nat, j1: nat, j2: nat)
    requires (r1, j1) != (r2, j2)
    ensures Slot(r1, base, j1) != Slot(r2, base, j2)
  {
    if j1 != j2 { AdvanceInjective(Ptr(r1, base), j1, j2, PtrSize); }
  }

  /** The slots of `rank` are allocated pointer cells. */
  ghost predicate OwnSlots(cells: map<GPtr, GPtr>, rank: nat, base: nat, hps: nat) {
    forall j :: 0 <= j < hps ==> Slot(rank, base, j) in cells
  }

  /** The slots of every rank below `n` are allocated pointer cells. */
  ghost predicate AllSlots(cells: map<GPtr, GPtr>, n: nat, base: nat, hps: nat) {
    forall i, j :: 0 <= i < n && 0 <= j < hps ==> Slot(i, base, j) in cells
  }

  // ---------------------------------------------------------------------
  // Slot search
  // ---------------------------------------------------------------------

  /**
   * The index of the first slot of `rank`, at or after `j`, holding `v`;
   * `hps` when none does.
   */
  function FirstFrom(cells: map<GPtr, GPtr>, rank: nat, base: nat, hps: nat, v: GPtr, j: nat): (k: nat)
    requires OwnSlots(cells, rank, base, hps) && j <= hps
    ensures j <= k <= hps
    ensures k < hps ==> cells[Slot(rank, base, k)] == v
    ensures forall i :: j <= i < k ==> cells[Slot(rank, base, i)] != v
    decreases hps - j
  {
    if j == hps then hps
    else if cells[Slot(rank, base, j)] == v then j
    else FirstFrom(cells, rank, base, hps, v, j + 1)
  }

  function FirstSlot(cells: map<GPtr, GPtr>, rank: nat, base: nat, hps: nat, v: GPtr): nat
    requires OwnSlots(cells, rank, base, hps)
  {
    FirstFrom(cells, rank, base, hps, v, 0)
  }

  /**
   * The `for (i < HPS_PER_UNIT) if (aget_sync(temp) == v) … else ++temp` search
   * of try_reserve, reserve and unreserve: the first own slot holding `v`.
   */
  method FindSlot(heap: Heap<GPtr>, rank: nat, base: nat, hps: nat, v: GPtr) returns (k: nat)
    requires OwnSlots(heap.cells, rank, base, hps)
    ensures k <= hps
    ensures k < hps ==> heap.cells[Slot(rank, base, k)] == v
    ensures forall i :: 0 <= i < k ==> heap.cells[Slot(rank, base, i)] != v
    ensures k == FirstSlot(heap.cells, rank, base, hps, v)
  {
    k := 0;
    while k < hps
      invariant k <= hps
      invariant FirstFrom(heap.cells, rank, base, hps, v, k) == FirstSlot(heap.cells, rank, base, hps, v)
      invariant forall i :: 0 <= i < k ==> heap.cells[Slot(rank, base, i)] != v
      decreases hps - k
    {
      var cur := heap.Get(Slot(rank, base, k));
      if cur == v {
        return;
      }
      k := k + 1;
    }
  }

  // ---------------------------------------------------------------------
  // Clearing the slots (the managers' constructors)
  // ---------------------------------------------------------------------

  /** The cells after storing null into the first `n` slots of `own`. */
  function Cleared(cells: map<GPtr, GPtr>, own: nat, base: nat, n: nat): map<GPtr, GPtr> {
    if n == 0 then cells else Cleared(cells, own, base, n - 1)[Slot(own, base, n - 1) := Null]
  }

  /** Clearing makes every slot of `own` below `n` hold null and changes no other cell. */
  lemma {:induction false} ClearedSpec(cells: map<GPtr, GPtr>, own: nat, base: nat, n: nat)
    ensures forall j :: 0 <= j < n ==> Slot(own, base, j) in Cleared(cells, own, base, n) &&
                                        Cleared(cells, own, base, n)[Slot(own, base, j)] == Null
    ensures forall a :: a in Cleared(cells, own, base, n) <==>
                        a in cells || exists j :: 0 <= j < n && a == Slot(own, base, j)
    ensures forall a :: a in cells && (forall j :: 0 <= j < n ==> a != Slot(own, base, j)) ==>
                        Cleared(cells, own, base, n)[a] == cells[a]
  {
    if n > 0 {
      ClearedSpec(cells, own, base, n - 1);
    }
  }

  /** The constructors' `for (i < HPS_PER_UNIT) { store(NULL_PTR, temp); ++temp; }`. */
  method ClearSlots(heap: Heap<GPtr>, own: nat, base: nat, hps: nat)
    modifies heap
    ensures heap.cells == Cleared(old(heap.cells), own, base, hps)
    ensures OwnSlots(heap.cells, own, base, hps)
    ensures forall j :: 0 <= j < hps ==> heap.cells[Slot(own, base, j)] == Null
  {
    var i := 0;
    while i < hps
      invariant i <= hps
      invariant heap.cells == Cleared(old(heap.cells), own, base, i)
    {
      heap.Put(Null, Slot(own, base, i));
      i := i + 1;
    }
    ClearedSpec(old(heap.cells), own, base, hps);
  }

  // ---------------------------------------------------------------------
  // Protecting and releasing one address
  // ---------------------------------------------------------------------

  /**
   * What try_reserve(ptr, val_old) leaves behind, from cells `c0` to `c1`.
   * Null is never protected.  Otherwise `valOld` is published in the first
   * free slot and `src` is read once more; the slot keeps `valOld` only when
   * that read is non-null and still equal to it, and the value read is the
   * result.  With no free slot nothing is written, `full` reports the error
   * message and the result is null.
   */
  ghost predicate TryReserved(c0: map<GPtr, GPtr>, c1: map<GPtr, GPtr>, own: nat, base: nat, hps: nat,
                              src: GPtr, valOld: GPtr, r: GPtr, full: bool)
    requires OwnSlots(c0, own, base, hps)
    requires valOld != Null ==> src in c0
  {
    var k := FirstSlot(c0, own, base, hps, Null);
    if valOld == Null then r == Null && !full && c1 == c0
    else if k == hps then r == Null && full && c1 == c0
    else
      var s := Slot(own, base, k);
      !full && r == c0[s := valOld][src] &&
      c1 == c0[s := if r == Null || r != valOld then Null else valOld]
  }

  /** try_reserve of memory_hp.h (the same code in bl2, dang4 and dang5). */
  method TryReserve(heap: Heap<GPtr>, own: nat, base: nat, hps: nat, src: GPtr, valOld: GPtr)
    returns (r: GPtr, full: bool)
    requires OwnSlots(heap.cells, own, base, hps)
    requires valOld != Null ==> src in heap.cells
    modifies heap
    ensures TryReserved(old(heap.cells), heap.cells, own, base, hps, src, valOld, r, full)
  {
    if valOld == Null {
      return Null, false;
    }
    var k := FindSlot(heap, own, base, hps, Null);
    if k == hps {
      return Null, true;
    }
    var s := Slot(own, base, k);
    heap.Put(valOld, s);
    r := heap.Get(src);
    full := false;
    if r == Null || r != valOld {
      heap.Put(Null, s);
    }
  }

  /**
   * The outcome of the publish-and-re-read loop: whether the last re-read
   * saw the published value (`stable`), and the value published last.
   */
  datatype Outcome = Outcome(stable: bool, published: GPtr)

  /**
   * The publish-and-re-read loop of reserve, run with `p` published, `cur`
   * the contents of the source cell at that moment, and `others` the values
   * other ranks store into the source cell, one before each re-read.  A
   * null read ends the loop unprotected; a read equal to `p` ends it
   * protected; any other value is published next.
   */
  function Settle(p: GPtr, cur: GPtr, others: seq<GPtr>): (o: Outcome)
    decreases |others|, if p == cur then 0 else 1
  {
    var read := if others == [] then cur else others[0];
    var rest := if others == [] then [] else others[1..];
    if read == Null then Outcome(false, p)
    else if read == p then Outcome(true, p)
    else Settle(read, read, rest)
  }

  /**
   * A loop that ends protected protects a non-null value that the source
   * cell held: the starting value or one that another rank stored.  With no
   * interference it ends after at most two re-reads, protecting the current
   * contents of the source unless that is null.
   */
  lemma {:induction false} SettleProtects(p: GPtr, cur: GPtr, others: seq<GPtr>)
    requires p != Null
    ensures var o := Settle(p, cur, others);
      o.published != Null &&
      (o.stable ==> o.published == p || o.published == cur || o.published in others)
    ensures others == [] ==> Settle(p, cur, others) == Outcome(cur != Null, if cur == Null then p else cur)
    decreases |others|, if p == cur then 0 else 1
  {
    var read := if others == [] then cur else others[0];
    var rest := if others == [] then [] else others[1..];
    if read != Null && read != p {
      SettleProtects(read, read, rest);
      if others != [] {
        assert rest == others[1..];
        assert forall x :: x in rest ==> x in others;
      }
    }
  }

  /**
   * The body of reserve once a free slot `s` is known: publish `p`, re-read
   * the source, repeat with the newly read value until the source is null
   * or stable.  `others[i]` is the value another rank stores into the source
   * just before the i-th re-read; once they are used up the source keeps its
   * contents.  The slot and the source end up agreeing: both hold the
   * protected value, or both are null.
   */
  method PublishLoop(heap: Heap<GPtr>, s: GPtr, src: GPtr, p: GPtr, others: seq<GPtr>)
    returns (o: Outcome)
    requires s in heap.cells && src in heap.cells
    modifies heap
    ensures o == Settle(p, old(heap.cells)[s := p][src], others)
    ensures var x := if o.stable then o.published else Null;
      heap.cells == old(heap.cells)[src := x][s := x]
  {
    ghost var c0 := heap.cells;
    ghost var goal := Settle(p, c0[s := p][src], others);
    var valOld := p;
    var i := 0;
    // sv and tv: the current contents of the source and of the slot
    ghost var sv, tv := c0[src], c0[s];
    while true
      invariant 0 <= i <= |others|
      invariant s == src ==> sv == tv
      invariant heap.cells == c0[src := sv][s := tv]
      invariant Settle(valOld, if s == src then valOld else sv, others[i..]) == goal
      decreases |others| - i, if s == src || sv == valOld then 0 else 1
    {
      ghost var rest, cur := others[i..], if s == src then valOld else sv;
      var valNew := PublishAndRead(heap, s, src, valOld, others, i);
      ghost var w := if i < |others| then others[i] else cur;
      sv, tv := w, if s == src then w else valOld;
      if i < |others| {
        i := i + 1;
        assert others[i..] == rest[1..];
      }
      SettleUnfold(valOld, cur, rest);
      if valNew == Null {
        heap.Put(Null, s);
        o := Outcome(false, valOld);
        return;
      } else if valNew == valOld {
        o := Outcome(true, valOld);
        return;
      }
      valOld := valNew;
    }
  }

  /**
   * One round of the loop: publish `v` in the slot, let another rank store
   * `others[i]` into the source if one is scheduled, re-read the source.
   */
  method PublishAndRead(heap: Heap<GPtr>, s: GPtr, src: GPtr, v: GPtr, others: seq<GPtr>, i: nat)
    returns (valNew: GPtr)
    requires s in heap.cells && src in heap.cells && i <= |others|
    modifies heap
    ensures i < |others| ==> heap.cells == old(heap.cells)[s := v][src := others[i]] && valNew == others[i]
    ensures i == |others| ==> heap.cells == old(heap.cells)[s := v] && valNew == old(heap.cells)[s := v][src]
  {
    heap.Put(v, s);
    if i < |others| {
      // another rank stores into the source before the re-read
      heap.Put(others[i], src);
    }
    valNew := heap.Get(src);
  }

  lemma SettleUnfold(p: GPtr, cur: GPtr, others: seq<GPtr>)
    ensures var read := if others == [] then cur else others[0];
      var rest := if others == [] then [] else others[1..];
      Settle(p, cur, others) ==
        if read == Null then Outcome(false, p)
        else if read == p then Outcome(true, p)
        else Settle(read, read, rest)
  {
  }

  /**
   * What reserve(ptr) leaves behind.  When the source holds null the result
   * is null and nothing is written.  Otherwise the first free slot runs the
   * publish-and-re-read loop, and the slot and the source both end up
   * holding the result: the protected value, or null when the source became
   * null.  With no free slot nothing is written, `full` reports the error
   * message and the result is null.
   */
  ghost predicate Reserved(c0: map<GPtr, GPtr>, c1: map<GPtr, GPtr>, own: nat, base: nat, hps: nat,
                           src: GPtr, others: seq<GPtr>, r: GPtr, full: bool)
    requires OwnSlots(c0, own, base, hps) && src in c0
  {
    var v0 := c0[src];
    var k := FirstSlot(c0, own, base, hps, Null);
    if v0 == Null then r == Null && !full && c1 == c0
    else if k == hps then r == Null && full && c1 == c0
    else
      var s := Slot(own, base, k);
      var o := Settle(v0, v0, others);
      !full && r == (if o.stable then o.published else Null) && c1 == c0[src := r][s := r]
  }

  /** reserve of memory_hp.h (the same code in bl2, dang4 and dang5). */
  method Reserve(heap: Heap<GPtr>, own: nat, base: nat, hps: nat, src: GPtr, others: seq<GPtr>)
    returns (r: GPtr, full: bool)
    requires OwnSlots(heap.cells, own, base, hps) && src in heap.cells
    modifies heap
    ensures Reserved(old(heap.cells), heap.cells, own, base, hps, src, others, r, full)
  {
    var valOld := heap.Get(src);
    if valOld == Null {
      return Null, false;
    }
    var k := FindSlot(heap, own, base, hps, Null);
    if k == hps {
      return Null, true;
    }
    var s := Slot(own, base, k);
    var o := PublishLoop(heap, s, src, valOld, others);
    r := if o.stable then o.published else Null;
    full := false;
  }

  /**
   * What try_reserve(ptr, atom) of memory_dang3.h leaves behind: with a free
   * slot it runs the publish-and-re-read loop starting from the caller's
   * `ptr`; `ok` says whether it ended stable, and `ptr1` (the updated
   * reference parameter) is the value published last, which on success
   * both the slot and `atom` hold; on failure both are null.  With no free
   * slot it reports the error, returns false and writes nothing.
   */
  ghost predicate LoopReserved(c0: map<GPtr, GPtr>, c1: map<GPtr, GPtr>, own: nat, base: nat, hps: nat,
                               atom: GPtr, ptr: GPtr, others: seq<GPtr>, ok: bool, ptr1: GPtr, full: bool)
    requires OwnSlots(c0, own, base, hps) && atom in c0
  {
    var k := FirstSlot(c0, own, base, hps, Null);
    if k == hps then !ok && full && ptr1 == ptr && c1 == c0
    else
      var s := Slot(own, base, k);
      var o := Settle(ptr, c0[s := ptr][atom], others);
      var x := if o.stable then o.published else Null;
      !full && ok == o.stable && ptr1 == o.published && c1 == c0[atom := x][s := x]
  }

  /** try_reserve of memory_dang3.h. */
  method LoopReserve(heap: Heap<GPtr>, own: nat, base: nat, hps: nat, ptr: GPtr, atom: GPtr, others: seq<GPtr>)
    returns (ok: bool, ptr1: GPtr, full: bool)
    requires OwnSlots(heap.cells, own, base, hps) && atom in heap.cells
    modifies heap
    ensures LoopReserved(old(heap.cells), heap.cells, own, base, hps, atom, ptr, others, ok, ptr1, full)
  {
    var k := FindSlot(heap, own, base, hps, Null);
    if k == hps {
      return false, ptr, true;
    }
    var o := PublishLoop(heap, Slot(own, base, k), atom, ptr, others);
    ok, ptr1, full := o.stable, o.published, false;
  }

  /**
   * What unreserve(ptr) leaves behind: the first own slot holding `p` is
   * cleared.  Null needs no clearing; a non-null address held by no slot
   * leaves everything as it was and `missing` reports the error message.
   */
  ghost predicate Unreserved(c0: map<GPtr, GPtr>, c1: map<GPtr, GPtr>, own: nat, base: nat, hps: nat,
                             p: GPtr, missing: bool)
    requires OwnSlots(c0, own, base, hps)
  {
    var k := FirstSlot(c0, own, base, hps, p);
    if p == Null then !missing && c1 == c0
    else if k == hps then missing && c1 == c0
    else !missing && c1 == c0[Slot(own, base, k) := Null]
  }

  /** unreserve of memory_hp.h (the same code in bl2, dang4 and dang5). */
  method Unreserve(heap: Heap<GPtr>, own: nat, base: nat, hps: nat, p: GPtr) returns (missing: bool)
    requires OwnSlots(heap.cells, own, base, hps)
    modifies heap
    ensures Unreserved(old(heap.cells), heap.cells, own, base, hps, p, missing)
  {
    if p == Null {
      return false;
    }
    var k := FindSlot(heap, own, base, hps, p);
    if k == hps {
      return true;
    }
    heap.Put(Null, Slot(own, base, k));
    missing := false;
  }

  /**
   * unreserve of memory_dang3.h: no null test and no message; the first own
   * slot holding `p` is cleared, if there is one.
   */
  method Release(heap: Heap<GPtr>, own: nat, base: nat, hps: nat, p: GPtr)
    requires OwnSlots(heap.cells, own, base, hps)
    modifies heap
    ensures var k := FirstSlot(old(heap.cells), own, base, hps, p);
      heap.cells == if k < hps then old(heap.cells)[Slot(own, base, k) := Null] else old(heap.cells)
  {
    var k := FindSlot(heap, own, base, hps, p);
    if k < hps {
      heap.Put(Null, Slot(own, base, k));
    }
  }

  // ---------------------------------------------------------------------
  // The scan (empty)
  // ---------------------------------------------------------------------

  /** The non-null values in slots below `j` of rank `i`. */
  function RankProtected(cells: map<GPtr, GPtr>, i: nat, base: nat, j: nat): set<GPtr>
    requires forall jj :: 0 <= jj < j ==> Slot(i, base, jj) in cells
  {
    if j == 0 then {}
    else
      var v := cells[Slot(i, base, j - 1)];
      RankProtected(cells, i, base, j - 1) + (if v != Null then {v} else {})
  }

  /** The protected set: every non-null value in the slots of ranks below `n`. */
  function Protected(cells: map<GPtr, GPtr>, n: nat, base: nat, hps: nat): set<GPtr>
    requires AllSlots(cells, n, base, hps)
  {
    if n == 0 then {}
    else Protected(cells, n - 1, base, hps) + RankProtected(cells, n - 1, base, hps)
  }

  lemma {:induction false} RankProtectedSpec(cells: map<GPtr, GPtr>, i: nat, base: nat, j: nat, x: GPtr)
    requires forall jj :: 0 <= jj < j ==> Slot(i, base, jj) in cells
    ensures x in RankProtected(cells, i, base, j) <==>
            x != Null && exists jj :: 0 <= jj < j && cells[Slot(i, base, jj)] == x
  {
    if j > 0 {
      RankProtectedSpec(cells, i, base, j - 1, x);
      if x in RankProtected(cells, i, base, j) && x !in RankProtected(cells, i, base, j - 1) {
        assert cells[Slot(i, base, j - 1)] == x;
      }
    }
  }

  /**
   * An address is protected exactly when it is non-null and some slot of some
   * rank holds it: the set Stage 1 collects.
   */
  lemma {:induction false} ProtectedSpec(cells: map<GPtr, GPtr>, n: nat, base: nat, hps: nat, x: GPtr)
    requires AllSlots(cells, n, base, hps)
    ensures x in Protected(cells, n, base, hps) <==>
            x != Null && exists i, j :: 0 <= i < n && 0 <= j < hps && cells[Slot(i, base, j)] == x
  {
    if n > 0 {
      ProtectedSpec(cells, n - 1, base, hps, x);
      RankProtectedSpec(cells, n - 1, base, hps, x);
      if x in Protected(cells, n, base, hps) && x !in Protected(cells, n - 1, base, hps) {
        var jj :| 0 <= jj < hps && cells[Slot(n - 1, base, jj)] == x;
        assert 0 <= n - 1 < n;
      }
    }
  }

  /**
   * Stage 1: read every slot of every rank, rank by rank, and keep the
   * non-null values.
   */
  method ReadProtected(heap: Heap<GPtr>, nprocs: nat, base: nat, hps: nat) returns (plist: seq<GPtr>)
    requires AllSlots(heap.cells, nprocs, base, hps)
    ensures forall x :: x in plist <==> x in Protected(heap.cells, nprocs, base, hps)
  {
    plist := [];
    var i := 0;
    while i < nprocs
      invariant i <= nprocs
      invariant forall x :: x in plist <==> x in Protected(heap.cells, i, base, hps)
    {
      var j := 0;
      while j < hps
        invariant j <= hps
        invariant forall x :: x in plist <==>
                    x in Protected(heap.cells, i, base, hps) || x in RankProtected(heap.cells, i, base, j)
      {
        var addr := heap.Get(Slot(i, base, j));
        if addr != Null {
          plist := plist + [addr];
        }
        j := j + 1;
      }
      i := i + 1;
    }
  }

  /**
   * Stage 1 as written reads slot `j` of rank `i` at this address: the
   * cursor `hp_temp` gets `reservation`'s offset once, before the loop over
   * ranks, and every read advances it by one pointer, so rank `i`'s reads
   * start `i * hps` pointers past that rank's slot array.
   */
  function ScanSlot(i: nat, base: nat, hps: nat, j: nat): GPtr {
    Slot(i, base, i * hps + j)
  }

  /** Every cell Stage 1 as written reads holds a value. */
  ghost predicate ScanSlotsAsWritten(cells: map<GPtr, GPtr>, n: nat, base: nat, hps: nat) {
    forall i, j :: 0 <= i < n && 0 <= j < hps ==> ScanSlot(i, base, hps, j) in cells
  }

  /** The non-null values Stage 1 as written collects from rank `i`'s first `j` reads. */
  function RankProtectedAsWritten(cells: map<GPtr, GPtr>, i: nat, base: nat, hps: nat, j: nat): set<GPtr>
    requires forall jj :: 0 <= jj < j ==> ScanSlot(i, base, hps, jj) in cells
  {
    if j == 0 then {}
    else
      var v := cells[ScanSlot(i, base, hps, j - 1)];
      RankProtectedAsWritten(cells, i, base, hps, j - 1) + (if v != Null then {v} else {})
  }

  /** The protected set as written: what those reads find, over ranks below `n`. */
  function ProtectedAsWritten(cells: map<GPtr, GPtr>, n: nat, base: nat, hps: nat): set<GPtr>
    requires ScanSlotsAsWritten(cells, n, base, hps)
  {
    if n == 0 then {}
    else ProtectedAsWritten(cells, n - 1, base, hps) + RankProtectedAsWritten(cells, n - 1, base, hps, hps)
  }

  /** Stage 1 exactly as written, with the cursor that is never reset. */
  method ReadProtectedAsWritten(heap: Heap<GPtr>, nprocs: nat, base: nat, hps: nat) returns (plist: seq<GPtr>)
    requires ScanSlotsAsWritten(heap.cells, nprocs, base, hps)
    ensures forall x :: x in plist <==> x in ProtectedAsWritten(heap.cells, nprocs, base, hps)
  {
    plist := [];
    var k := 0;
    var i := 0;
    while i < nprocs
      invariant i <= nprocs && k == i * hps
      invariant forall x :: x in plist <==> x in ProtectedAsWritten(heap.cells, i, base, hps)
    {
      var j := 0;
      while j < hps
        invariant j <= hps && k == i * hps + j
        invariant forall x :: x in plist <==>
                    x in ProtectedAsWritten(heap.cells, i, base, hps) ||
                    x in RankProtectedAsWritten(heap.cells, i, base, hps, j)
      {
        assert Slot(i, base, k) == ScanSlot(i, base, hps, j);
        var addr := heap.Get(Slot(i, base, k));
        if addr != Null {
          plist := plist + [addr];
        }
        k := k + 1;
        j := j + 1;
      }
      i := i + 1;
    }
  }

  /**
   * With two ranks of one slot each, Stage 1 as written reads rank 1 at slot
   * index 1 instead of 0: an address held in rank 1's only slot is not in
   * the protected set it builds, so Stage 3 reclaims it although it is
   * protected.
   */
  lemma ScanAsWrittenMissesRank1()
    ensures var x := Ptr(0, 64);
      var cells := map[Slot(0, 0, 0) := Null, Slot(1, 0, 0) := x, Slot(1, 0, 1) := Null];
      AllSlots(cells, 2, 0, 1) && ScanSlotsAsWritten(cells, 2, 0, 1) &&
      x in Protected(cells, 2, 0, 1) && x !in ProtectedAsWritten(cells, 2, 0, 1) &&
      Reclaimed([x], ProtectedAsWritten(cells, 2, 0, 1)) == [x]
  {
    var x := Ptr(0, 64);
    var cells := map[Slot(0, 0, 0) := Null, Slot(1, 0, 0) := x, Slot(1, 0, 1) := Null];
    assert Slot(1, 0, 1) == Ptr(1, 8) && ScanSlot(1, 0, 1, 0) == Ptr(1, 8);
    assert ScanSlotsAsWritten(cells, 2, 0, 1) by {
      forall i: nat, j: nat | 0 <= i < 2 && 0 <= j < 1 ensures ScanSlot(i, 0, 1, j) in cells {
        assert i == 0 || i == 1;
      }
    }
    assert AllSlots(cells, 2, 0, 1) by {
      forall i: nat, j: nat | 0 <= i < 2 && 0 <= j < 1 ensures Slot(i, 0, j) in cells {
        assert i == 0 || i == 1;
      }
    }
    assert RankProtected(cells, 1, 0, 1) == {x};
    assert RankProtectedAsWritten(cells, 0, 0, 1, 1) == {};
    assert RankProtectedAsWritten(cells, 1, 0, 1, 1) == {};
    assert ProtectedAsWritten(cells, 1, 0, 1) == {};
    assert ProtectedAsWritten(cells, 2, 0, 1) == {};
  }

  /** Stage 3 takes nothing from outside the retired list. */
  lemma ScanFromRetired(ret: seq<GPtr>, prot: set<GPtr>)
    ensures forall x :: x in Reclaimed(ret, prot) ==> x in ret
    ensures forall x :: x in Retained(ret, prot) ==> x in ret
  {
    RetiredPartition(ret, prot);
    forall x | x in Reclaimed(ret, prot) ensures x in ret {
      assert x in multiset(Reclaimed(ret, prot));
      assert x in multiset(ret);
    }
    forall x | x in Retained(ret, prot) ensures x in ret {
      assert x in multiset(Retained(ret, prot));
      assert x in multiset(ret);
    }
  }

  /**
   * Stage 3 as it leaves list_ret: the retired addresses that are
   * protected, in the order in which popping from the back visits them.
   */
  function Retained(ret: seq<GPtr>, prot: set<GPtr>): seq<GPtr> {
    if ret == [] then []
    else
      var addr := ret[|ret| - 1];
      (if addr in prot then [addr] else []) + Retained(ret[..|ret| - 1], prot)
  }

  /** Stage 3's unprotected addresses, in the same order. */
  function Reclaimed(ret: seq<GPtr>, prot: set<GPtr>): seq<GPtr> {
    if ret == [] then []
    else
      var addr := ret[|ret| - 1];
      (if addr !in prot then [addr] else []) + Reclaimed(ret[..|ret| - 1], prot)
  }

  /**
   * The scan splits the retired addresses exactly: nothing is lost or
   * duplicated, every address it keeps retired is protected, and no protected
   * address is reclaimed.
   */
  lemma {:induction false} RetiredPartition(ret: seq<GPtr>, prot: set<GPtr>)
    ensures multiset(Retained(ret, prot)) + multiset(Reclaimed(ret, prot)) == multiset(ret)
    ensures forall x :: x in Retained(ret, prot) ==> x in prot
    ensures forall x :: x in Reclaimed(ret, prot) ==> x !in prot
  {
    if ret != [] {
      var init, addr := ret[..|ret| - 1], ret[|ret| - 1];
      RetiredPartition(init, prot);
      assert ret == init + [addr];
      assert multiset(ret) == multiset(init) + multiset{addr};
      if addr in prot {
        assert Retained(ret, prot) == [addr] + Retained(init, prot);
        assert Reclaimed(ret, prot) == Reclaimed(init, prot);
      } else {
        assert Retained(ret, prot) == Retained(init, prot);
        assert Reclaimed(ret, prot) == [addr] + Reclaimed(init, prot);
      }
    }
  }

  /** Scanning a list with no protected address reclaims all of it, last retired first. */
  lemma {:induction false} ReclaimedUnprotected(ret: seq<GPtr>, prot: set<GPtr>)
    requires forall x :: x in ret ==> x !in prot
    ensures Retained(ret, prot) == []
    ensures |Reclaimed(ret, prot)| == |ret|
    ensures forall k :: 0 <= k < |ret| ==> Reclaimed(ret, prot)[k] == ret[|ret| - 1 - k]
  {
    if ret != [] {
      var init := ret[..|ret| - 1];
      assert forall x :: x in init ==> x in ret;
      ReclaimedUnprotected(init, prot);
    }
  }

  /**
   * Stage 3: pop every retired address from the back and look it up in the
   * sorted protected list by binary search; found ones are kept, the others
   * reclaimed, each list in the order of the pops.
   */
  method SplitRetired(plist: seq<GPtr>, ghost prot: set<GPtr>, ret: seq<GPtr>)
    returns (kept: seq<GPtr>, freed: seq<GPtr>)
    requires StrictlySorted(plist)
    requires forall x :: x in plist <==> x in prot
    ensures kept == Retained(ret, prot)
    ensures freed == Reclaimed(ret, prot)
  {
    kept, freed := [], [];
    var rest := ret;
    while rest != []
      invariant kept + Retained(rest, prot) == Retained(ret, prot)
      invariant freed + Reclaimed(rest, prot) == Reclaimed(ret, prot)
      decreases |rest|
    {
      var addr := rest[|rest| - 1];
      ghost var whole := rest;
      rest := rest[..|rest| - 1];
      if BinarySearch(plist, addr) {
        assert Retained(whole, prot) == [addr] + Retained(rest, prot);
        assert Reclaimed(whole, prot) == Reclaimed(rest, prot);
        kept := kept + [addr];
      } else {
        assert Retained(whole, prot) == Retained(rest, prot);
        assert Reclaimed(whole, prot) == [addr] + Reclaimed(rest, prot);
        freed := freed + [addr];
      }
    }
  }

  /**
   * empty(), Stages 1 to 3: read all slots, sort and deduplicate them, then
   * split the retired list.  `kept` becomes the new list_ret (Stage 4);
   * `freed` is what the manager reclaims.
   */
  method Scan(heap: Heap<GPtr>, nprocs: nat, base: nat, hps: nat, ret: seq<GPtr>)
    returns (kept: seq<GPtr>, freed: seq<GPtr>)
    requires AllSlots(heap.cells, nprocs, base, hps)
    ensures kept == Retained(ret, Protected(heap.cells, nprocs, base, hps))
    ensures freed == Reclaimed(ret, Protected(heap.cells, nprocs, base, hps))
    ensures multiset(kept) + multiset(freed) == multiset(ret)
    ensures forall x :: x in kept ==> x in Protected(heap.cells, nprocs, base, hps)
    ensures forall x :: x in freed ==> x !in Protected(heap.cells, nprocs, base, hps)
  {
    ghost var prot := Protected(heap.cells, nprocs, base, hps);
    var plist := ReadProtected(heap, nprocs, base, hps);
    var sorted := SortUnique(plist);
    kept, freed := SplitRetired(sorted, prot, ret);
    RetiredPartition(ret, prot);
  }
}
