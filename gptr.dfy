/**
 * Global addresses of the partitioned global address space (the gptr<T> of
 * the source): null, or a rank together with an offset inside that rank's
 * segment.  The hazard-pointer scan sorts the protected addresses and looks
 * each retired address up by binary search, so the order below, the
 * sort-and-unique step and the search are defined here once.
 */
module GlobalPtr {

  datatype GPtr = Null | Ptr(rank: nat, off: nat)

  /** The address `k` elements of `size` bytes past `p` (pointer arithmetic `p + k`). */
  function Advance(p: GPtr, k: nat, size: nat): (q: GPtr)
    requires p.Ptr?
    ensures q.Ptr? && q.rank == p.rank && q.off >= p.off
  {
    Ptr(p.rank, p.off + k * size)
  }

  /** One more step of the cursor: `(p + k) + 1 == p + (k + 1)`. */
  lemma AdvanceStep(p: GPtr, k: nat, size: nat)
    requires p.Ptr?
    ensures Advance(Advance(p, k, size), 1, size) == Advance(p, k + 1, size)
  {
    assert (k + 1) * size == k * size + size;
  }

  /** Distinct element indices give distinct addresses when elements have a size. */
  lemma AdvanceInjective(p: GPtr, i: nat, j: nat, size: nat)
    requires p.Ptr? && size > 0 && i != j
    ensures Advance(p, i, size) != Advance(p, j, size)
  {
    if i < j {
      assert i * size < j * size by { MulStrict(i, j, size); }
    } else {
      assert j * size < i * size by { MulStrict(j, i, size); }
    }
  }

  lemma MulStrict(i: nat, j: nat, size: nat)
    requires i < j && size > 0
    ensures i * size < j * size
  {
    assert j * size == i * size + (j - i) * size;
  }

  /**
   * The first `n` elements of a pool of `size`-byte elements starting at
   * `start`: the fresh addresses a bump cursor (`pool++`) has handed out
   * after `n` steps.
   */
  function Issued(start: GPtr, size: nat, n: nat): set<GPtr>
    requires start.Ptr?
  {
    if n == 0 then {} else Issued(start, size, n - 1) + {Advance(start, n - 1, size)}
  }

  lemma {:induction false} IssuedSpec(start: GPtr, size: nat, n: nat, x: GPtr)
    requires start.Ptr?
    ensures x in Issued(start, size, n) <==> exists k :: 0 <= k < n && x == Advance(start, k, size)
  {
    if n > 0 {
      IssuedSpec(start, size, n - 1, x);
    }
  }

  /**
   * The cursor never hands out an address twice: after `n` steps exactly `n`
   * distinct addresses were issued, and the next one is new.
   */
  lemma {:induction false} IssuedCount(start: GPtr, size: nat, n: nat)
    requires start.Ptr? && size > 0
    ensures |Issued(start, size, n)| == n
    ensures Advance(start, n, size) !in Issued(start, size, n)
  {
    if n > 0 {
      IssuedCount(start, size, n - 1);
      var x := Advance(start, n, size);
      if x in Issued(start, size, n) {
        IssuedSpec(start, size, n, x);
        var k :| 0 <= k < n && x == Advance(start, k, size);
        AdvanceInjective(start, k, n, size);
      }
    } else {
      assert Issued(start, size, 0) == {};
    }
  }

  /**
   * `pool.ptr < capacity`, with `capacity` = start + total elements, holds
   * exactly while fewer than `total` elements were handed out.
   */
  lemma CursorBelowCapacity(start: nat, size: nat, used: nat, total: nat)
    requires size > 0 && used <= total
    ensures start + used * size < start + total * size <==> used < total
  {
    if used < total { MulStrict(used, total, size); }
  }

  /** The strict order the scan sorts by: null first, then by rank, then by offset. */
  predicate Less(a: GPtr, b: GPtr) {
    match (a, b)
    case (Null, Ptr(_, _)) => true
    case (Ptr(r1, o1), Ptr(r2, o2)) => r1 < r2 || (r1 == r2 && o1 < o2)
    case _ => false
  }

  lemma LessStrictTotal(a: GPtr, b: GPtr, c: GPtr)
    ensures !Less(a, a)
    ensures Less(a, b) && Less(b, c) ==> Less(a, c)
    ensures a == b || Less(a, b) || Less(b, a)
    ensures !(Less(a, b) && Less(b, a))
  {
  }

  /** Sorted with no repetitions: what std::sort followed by std::unique leaves. */
  predicate StrictlySorted(s: seq<GPtr>) {
    forall i, j :: 0 <= i < j < |s| ==> Less(s[i], s[j])
  }

  /** Inserts `x` into a strictly sorted sequence, keeping a single copy. */
  function Insert(x: GPtr, s: seq<GPtr>): (r: seq<GPtr>)
    requires StrictlySorted(s)
    ensures StrictlySorted(r)
    ensures forall y :: y in r <==> y == x || y in s
  {
    if s == [] then [x]
    else if x == s[0] then s
    else if Less(x, s[0]) then
      LessStrictTotal(x, s[0], s[0]);
      assert forall j :: 0 <= j < |s| ==> Less(x, s[j]) by {
        forall j | 0 <= j < |s| ensures Less(x, s[j]) {
          if j > 0 { LessStrictTotal(x, s[0], s[j]); }
        }
      }
      [x] + s
    else
      LessStrictTotal(x, s[0], s[0]);
      var t := Insert(x, s[1..]);
      assert forall y :: y in t ==> Less(s[0], y);
      [s[0]] + t
  }

  /**
   * The protected list after `std::sort(plist)` and
   * `plist.resize(std::distance(plist.begin(), std::unique(plist)))`:
   * strictly sorted and holding exactly the elements of `s`.  A strictly
   * sorted sequence is determined by its elements, so these two facts
   * determine the result.
   */
  function SortUnique(s: seq<GPtr>): (r: seq<GPtr>)
    ensures StrictlySorted(r)
    ensures forall y :: y in r <==> y in s
  {
    if s == [] then [] else Insert(s[0], SortUnique(s[1..]))
  }

  /** std::binary_search on a strictly sorted sequence. */
  function BinarySearch(s: seq<GPtr>, x: GPtr): (found: bool)
    requires StrictlySorted(s)
    ensures found <==> x in s
    decreases |s|
  {
    if s == [] then false
    else
      var m := |s| / 2;
      if s[m] == x then true
      else if Less(x, s[m]) then
        assert forall j :: m <= j < |s| ==> s[j] != x by {
          forall j | m <= j < |s| ensures s[j] != x {
            LessStrictTotal(x, s[m], s[j]);
          }
        }
        assert s == s[..m] + s[m..];
        BinarySearch(s[..m], x)
      else
        assert forall j :: 0 <= j <= m ==> s[j] != x by {
          forall j | 0 <= j <= m ensures s[j] != x {
            LessStrictTotal(s[j], s[m], x);
            LessStrictTotal(x, s[m], s[m]);
          }
        }
        assert s == s[..m + 1] + s[m + 1..];
        BinarySearch(s[m + 1..], x)
  }
}
