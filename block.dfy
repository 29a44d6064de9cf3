/**
 * Blocks and headers, the layout both dang4 and dang5 keep their elements
 * in: every element of type T sits in a block behind a header of one global
 * pointer, and block<T> is that header followed by the element.  The block
 * and header types and the list types the local heap is built from are
 * declared in files that are not part of this model; the lists are
 * sequences here.
 */
module Block {
  import opened GlobalPtr

  /** sizeof(header): one global pointer.  Nothing proved depends on the value. */
  const HeaderSize: nat := 8

  /** The header in front of the element at `p`. */
  function HeaderOf(p: GPtr): (h: GPtr)
    requires p.Ptr? && p.off >= HeaderSize
    ensures h.Ptr? && h.rank == p.rank && h.off + HeaderSize == p.off
  {
    Ptr(p.rank, p.off - HeaderSize)
  }

  /** Element addresses, each with room for its header in front of it. */
  ghost predicate Elements(vals: seq<GPtr>) {
    forall i :: 0 <= i < |vals| ==> vals[i].Ptr? && vals[i].off >= HeaderSize
  }

  /** The headers in front of the elements. */
  function Headers(vals: seq<GPtr>): (hs: seq<GPtr>)
    requires Elements(vals)
    ensures |hs| == |vals| && forall i :: 0 <= i < |vals| ==> hs[i] == HeaderOf(vals[i])
  {
    seq(|vals|, i requires 0 <= i < |vals| => HeaderOf(vals[i]))
  }

  /** The element of the block whose header is at `h`: `h + sizeof(header)`. */
  function ElementOf(h: GPtr): (p: GPtr)
    requires h.Ptr?
    ensures p.Ptr? && p.rank == h.rank && p.off >= HeaderSize && HeaderOf(p) == h
  {
    Ptr(h.rank, h.off + HeaderSize)
  }

  /** The elements behind a sequence of headers. */
  function ElementsOf(hs: seq<GPtr>): (es: seq<GPtr>)
    requires forall h :: h in hs ==> h.Ptr?
    ensures |es| == |hs| && forall i :: 0 <= i < |hs| ==> es[i] == ElementOf(hs[i])
  {
    seq(|hs|, i requires 0 <= i < |hs| => ElementOf(hs[i]))
  }

  /** ElementsOf undoes Headers: the element behind each element's header is that element. */
  lemma ElementsOfHeaders(vals: seq<GPtr>)
    requires Elements(vals)
    ensures forall h :: h in Headers(vals) ==> h.Ptr?
    ensures ElementsOf(Headers(vals)) == vals
  {
    assert forall h :: h in Headers(vals) ==> h.Ptr?;
    assert forall i :: 0 <= i < |vals| ==> ElementOf(HeaderOf(vals[i])) == vals[i];
  }

  /** ElementsOf distributes over concatenation. */
  lemma ElementsOfAppend(a: seq<GPtr>, b: seq<GPtr>)
    requires forall h :: h in a + b ==> h.Ptr?
    ensures ElementsOf(a + b) == ElementsOf(a) + ElementsOf(b)
  {
    assert forall h :: h in a ==> h in a + b;
    assert forall h :: h in b ==> h in a + b;
  }

  /** pool_mem.set(pool_rep, TOTAL_OPS): `n` consecutive blocks of `size` bytes from `start`. */
  function Blocks(start: GPtr, size: nat, n: nat): (bs: seq<GPtr>)
    requires start.Ptr?
    ensures |bs| == n && forall k :: 0 <= k < n ==> bs[k] == Advance(start, k, size)
  {
    seq(n, k requires 0 <= k < n => Advance(start, k, size))
  }

  /** The blocks of the fresh pool are pairwise distinct and all on the pool's rank. */
  lemma BlocksDistinct(start: GPtr, size: nat, n: nat)
    requires start.Ptr? && size > 0
    ensures forall i, j :: 0 <= i < j < n ==> Blocks(start, size, n)[i] != Blocks(start, size, n)[j]
    ensures forall i :: 0 <= i < n ==> Blocks(start, size, n)[i].rank == start.rank
  {
    forall i, j | 0 <= i < j < n ensures Blocks(start, size, n)[i] != Blocks(start, size, n)[j] {
      AdvanceInjective(start, i, j, size);
    }
  }

  function Min(a: nat, b: nat): nat {
    if a <= b then a else b
  }

  /** Addresses free accepts: an element with a header, of an existing rank. */
  ghost predicate Freeable(s: seq<GPtr>, nprocs: nat) {
    forall x :: x in s ==> x.Ptr? && x.rank < nprocs && x.off >= HeaderSize
  }

  /** Blocks or headers on rank `own`. */
  ghost predicate OnRank(s: seq<GPtr>, own: nat) {
    forall x :: x in s ==> x.Ptr? && x.rank == own
  }
}
