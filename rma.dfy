/**
 * One-sided remote memory access on the symmetric heap, one cell type at a
 * time.  `cells` maps every address written so far to its contents.  A read
 * (aget_sync, rget_sync, load) needs the address to hold a value; a write
 * (aput_sync, rput_sync, store) sets the cell.  Every call is one atomic
 * step: the model is sequential, so the difference between the
 * atomic and the plain variants, and between local and remote access, does
 * not show.
 */
module Rma {
  import opened GlobalPtr

  /** The address `d` bytes past `base`, on base's rank. */
  function Displaced(base: GPtr, d: int): (a: GPtr)
    requires base.Ptr? && base.off + d >= 0
    ensures a.Ptr? && a.rank == base.rank && a.off == base.off + d
  {
    Ptr(base.rank, base.off + d)
  }

  /** Every displacement stays inside base's segment. */
  ghost predicate Displacements(base: GPtr, disp: seq<int>) {
    base.Ptr? && forall i :: 0 <= i < |disp| ==> base.off + disp[i] >= 0
  }

  /**
   * The cells after rput_sync with a displacement list: `buffer[i]` is
   * written at `base + disp[i]`, in order, so a later write to the same
   * address wins.
   */
  ghost function Scattered<V>(cells: map<GPtr, V>, buffer: seq<V>, base: GPtr, disp: seq<int>): map<GPtr, V>
    requires |buffer| == |disp| && Displacements(base, disp)
  {
    if buffer == [] then cells
    else
      var n := |buffer| - 1;
      Scattered(cells, buffer[..n], base, disp[..n])[Displaced(base, disp[n]) := buffer[n]]
  }

  /** The written cells: every target, and every cell written before. */
  lemma {:induction false} ScatteredKeys<V>(cells: map<GPtr, V>, buffer: seq<V>, base: GPtr, disp: seq<int>)
    requires |buffer| == |disp| && Displacements(base, disp)
    ensures forall i :: 0 <= i < |disp| ==> Displaced(base, disp[i]) in Scattered(cells, buffer, base, disp)
    ensures forall a :: a in cells ==> a in Scattered(cells, buffer, base, disp)
    ensures Null !in cells ==> Null !in Scattered(cells, buffer, base, disp)
  {
    if buffer != [] {
      var n := |buffer| - 1;
      ScatteredKeys(cells, buffer[..n], base, disp[..n]);
    }
  }

  /**
   * With pairwise distinct displacements every target holds its own
   * buffer entry, and every other cell is as before.
   */
  lemma {:induction false} ScatteredSpec<V>(cells: map<GPtr, V>, buffer: seq<V>, base: GPtr, disp: seq<int>)
    requires |buffer| == |disp| && Displacements(base, disp)
    requires forall i, j :: 0 <= i < j < |disp| ==> disp[i] != disp[j]
    ensures forall i :: 0 <= i < |disp| ==>
              Displaced(base, disp[i]) in Scattered(cells, buffer, base, disp) &&
              Scattered(cells, buffer, base, disp)[Displaced(base, disp[i])] == buffer[i]
    ensures forall a :: a in cells && (forall i :: 0 <= i < |disp| ==> a != Displaced(base, disp[i])) ==>
              a in Scattered(cells, buffer, base, disp) && Scattered(cells, buffer, base, disp)[a] == cells[a]
  {
    if buffer != [] {
      var n := |buffer| - 1;
      ScatteredSpec(cells, buffer[..n], base, disp[..n]);
      ScatteredKeys(cells, buffer[..n], base, disp[..n]);
      forall i | 0 <= i < n ensures Displaced(base, disp[i]) != Displaced(base, disp[n]) {
        assert disp[i] != disp[n];
      }
    }
  }

  class Heap<V(==)> {
    var cells: map<GPtr, V>

    constructor (init: map<GPtr, V>)
      ensures cells == init
    {
      cells := init;
    }

    /** aget_sync / rget_sync / load: the value stored at `a`. */
    method Get(a: GPtr) returns (v: V)
      requires a in cells
      ensures v == cells[a]
    {
      v := cells[a];
    }

    /** aput_sync / rput_sync / store: `a` now holds `v`, every other cell is as before. */
    method Put(v: V, a: GPtr)
      modifies this
      ensures cells == old(cells)[a := v]
    {
      cells := cells[a := v];
    }

    /** rput_sync of a buffer with displacements: `buffer[i]` goes to `base + disp[i]`. */
    method PutScattered(buffer: seq<V>, base: GPtr, disp: seq<int>)
      requires |buffer| == |disp| && Displacements(base, disp)
      modifies this
      ensures cells == Scattered(old(cells), buffer, base, disp)
    {
      var i := 0;
      while i < |buffer|
        invariant i <= |buffer|
        invariant cells == Scattered(old(cells), buffer[..i], base, disp[..i])
      {
        assert buffer[..i + 1][..i] == buffer[..i] && disp[..i + 1][..i] == disp[..i];
        cells := cells[Displaced(base, disp[i]) := buffer[i]];
        i := i + 1;
      }
      assert buffer[..i] == buffer && disp[..i] == disp;
    }

    /**
     * cas_sync: returns the previous contents of `a` and writes `desired`
     * exactly when they equal `expected`.
     */
    method Cas(a: GPtr, expected: V, desired: V) returns (prev: V)
      requires a in cells
      modifies this
      ensures prev == old(cells[a])
      ensures cells == if prev == expected then old(cells)[a := desired] else old(cells)
    {
      prev := cells[a];
      if prev == expected {
        cells := cells[a := desired];
      }
    }
  }
}
