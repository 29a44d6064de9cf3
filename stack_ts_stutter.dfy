/**
 * The timestamped stack with stuttering of stack/inc/stack_ts_stutter.h.
 * Every rank keeps its own list of elements {next, taken, ts, value} from
 * its own top cell, newest first; push stamps the new element with an
 * interval timestamp from the ranks' logical clocks, and pop removes the
 * youngest untaken element over all ranks by flipping its taken flag,
 * unlinking taken elements on the way.  Each rank's list is a ghost chain:
 * the distinct elements from its top to null, all on that rank.
 */
module StackTsStutter {
  import opened GlobalPtr
  import opened Rma

  /** ULLI_MAX, the largest uint64_t. */
  const U64Max: nat := 0xFFFF_FFFF_FFFF_FFFF

  /** ++ on a uint64_t: wraps to 0 past ULLI_MAX. */
  function Inc64(x: nat): (r: nat)
    requires x <= U64Max
    ensures r <= U64Max && (x < U64Max ==> r == x + 1) && (x == U64Max ==> r == 0)
  {
    if x == U64Max then 0 else x + 1
  }

  /** timestamp: the interval [start, end] of logical time. */
  datatype Timestamp = Timestamp(start: nat, end: nat)

  const TsMin: Timestamp := Timestamp(0, 0)
  const TsMax: Timestamp := Timestamp(U64Max, U64Max)

  /** timestamp::operator<: `a` ends before `b` starts. */
  predicate Before(a: Timestamp, b: Timestamp) {
    a.end < b.start
  }

  /**
   * On intervals whose start is not past their end, < is a strict order;
   * nothing is below TS_MIN, and TS_MAX is below nothing of uint64 times.
   */
  lemma BeforeOrder(a: Timestamp, b: Timestamp, c: Timestamp)
    ensures a.start <= a.end ==> !Before(a, a)
    ensures b.start <= b.end && Before(a, b) && Before(b, c) ==> Before(a, c)
    ensures a.start <= a.end && b.start <= b.end && Before(a, b) ==> !Before(b, a)
    ensures !Before(a, TsMin)
    ensures b.start <= U64Max ==> !Before(TsMax, b)
  {
  }

  /** elem<T>. */
  datatype Elem<T> = Elem(next: GPtr, taken: bool, ts: Timestamp, value: T)

  /** pop's value: none when every list was empty. */
  datatype Option<T> = None | Some(value: T)

  /** The `k`th element of a chain, null past its end. */
  function At(chain: seq<GPtr>, k: nat): GPtr {
    if k < |chain| then chain[k] else Null
  }

  /** `chain` is the list of distinct elements from `t`, each linking to the next, the last to null. */
  ghost predicate IsChain<T>(cells: map<GPtr, Elem<T>>, t: GPtr, chain: seq<GPtr>) {
    t == At(chain, 0) &&
    (forall i :: 0 <= i < |chain| ==> chain[i] != Null && chain[i] in cells) &&
    (forall i :: 0 <= i < |chain| ==> cells[chain[i]].next == At(chain, i + 1)) &&
    (forall i, j :: 0 <= i < j < |chain| ==> chain[i] != chain[j])
  }

  /** From position `k` on, `l` is linked through the cells and ends in null. */
  ghost predicate LinkedFrom<T>(cells: map<GPtr, Elem<T>>, l: seq<GPtr>, k: nat) {
    k <= |l| && InCells(cells, l) &&
    forall j :: k <= j < |l| ==> l[j] != Null && cells[l[j]].next == At(l, j + 1)
  }

  ghost predicate InCells<T>(cells: map<GPtr, Elem<T>>, chain: seq<GPtr>) {
    forall i :: 0 <= i < |chain| ==> chain[i] in cells
  }

  /** The first untaken element of `chain` at or after `k`; |chain| when there is none. */
  ghost function FirstUntaken<T>(cells: map<GPtr, Elem<T>>, chain: seq<GPtr>, k: nat): (r: nat)
    requires InCells(cells, chain) && k <= |chain|
    ensures k <= r <= |chain|
    ensures forall j :: k <= j < r ==> cells[chain[j]].taken
    ensures r < |chain| ==> !cells[chain[r]].taken
    decreases |chain| - k
  {
    if k == |chain| then k
    else if !cells[chain[k]].taken then k
    else FirstUntaken(cells, chain, k + 1)
  }

  /** The values of the untaken elements of `chain`, in list order. */
  ghost function Live<T>(cells: map<GPtr, Elem<T>>, chain: seq<GPtr>): seq<T>
    requires InCells(cells, chain)
  {
    if chain == [] then []
    else
      var e := cells[chain[0]];
      (if e.taken then [] else [e.value]) + Live(cells, chain[1..])
  }

  /** Taken elements contribute nothing: skipping them leaves the same values. */
  lemma {:induction false} LiveSkip<T>(cells: map<GPtr, Elem<T>>, chain: seq<GPtr>, a: nat, b: nat)
    requires InCells(cells, chain) && a <= b <= |chain|
    requires forall j :: a <= j < b ==> cells[chain[j]].taken
    ensures Live(cells, chain[a..]) == Live(cells, chain[b..])
    decreases b - a
  {
    if a < b {
      assert chain[a..][1..] == chain[a + 1..];
      LiveSkip(cells, chain, a + 1, b);
    }
  }

  /** The first untaken element holds the first live value. */
  lemma LiveFirst<T>(cells: map<GPtr, Elem<T>>, chain: seq<GPtr>)
    requires InCells(cells, chain)
    ensures var k := FirstUntaken(cells, chain, 0);
      (k == |chain| <==> Live(cells, chain) == []) &&
      (k < |chain| ==> Live(cells, chain) == [cells[chain[k]].value] + Live(cells, chain[k + 1..]))
  {
    var k := FirstUntaken(cells, chain, 0);
    assert chain[0..] == chain;
    LiveSkip(cells, chain, 0, k);
    if k < |chain| {
      assert chain[k..][1..] == chain[k + 1..];
    } else {
      assert chain[k..] == [];
    }
  }

  /** Live depends only on the taken flags and values of the chain's own elements. */
  lemma {:induction false} LiveFrame<T>(c1: map<GPtr, Elem<T>>, c2: map<GPtr, Elem<T>>, chain: seq<GPtr>)
    requires InCells(c1, chain) && InCells(c2, chain)
    requires forall i :: 0 <= i < |chain| ==> c1[chain[i]].taken == c2[chain[i]].taken && c1[chain[i]].value == c2[chain[i]].value
    ensures Live(c1, chain) == Live(c2, chain)
  {
    if chain != [] {
      LiveFrame(c1, c2, chain[1..]);
    }
  }

  /** A chain stays one when the cells of its elements are not written. */
  lemma ChainFrame<T>(c1: map<GPtr, Elem<T>>, c2: map<GPtr, Elem<T>>, t: GPtr, chain: seq<GPtr>)
    requires IsChain(c1, t, chain)
    requires forall i :: 0 <= i < |chain| ==> chain[i] in c2 && c2[chain[i]] == c1[chain[i]]
    ensures IsChain(c2, t, chain)
    ensures Live(c1, chain) == Live(c2, chain)
  {
    LiveFrame(c1, c2, chain);
  }

  /**
   * remove's first writes, once its CAS on `y`'s taken flag succeeded: `y`
   * is taken and, when `topVal` is not `y`, the element at `topVal` links
   * to `y`.
   */
  ghost function TakeAndLink<T>(cells: map<GPtr, Elem<T>>, topVal: GPtr, y: GPtr): (c: map<GPtr, Elem<T>>)
    requires y in cells && (topVal != y ==> topVal in cells)
    ensures c.Keys == cells.Keys
    ensures c[y] == cells[y].(taken := true)
    ensures topVal != y ==> c[topVal] == cells[topVal].(next := y)
    ensures forall x :: x in cells && x != y && x != topVal ==> c[x] == cells[x]
    ensures forall x :: x in cells && x != y ==> c[x].taken == cells[x].taken
  {
    var c1 := cells[y := cells[y].(taken := true)];
    if topVal != y then c1[topVal := c1[topVal].(next := y)] else c1
  }

  /**
   * All of remove's writes: then `y`, at `p` in `chain`, links past the
   * taken elements that follow it there.
   */
  ghost function RemoveCells<T>(cells: map<GPtr, Elem<T>>, topVal: GPtr, y: GPtr, chain: seq<GPtr>, p: nat): map<GPtr, Elem<T>>
    requires y in cells && (topVal != y ==> topVal in cells) && InCells(cells, chain) && p < |chain|
  {
    var c := TakeAndLink(cells, topVal, y);
    c[y := c[y].(next := At(chain, FirstUntaken(c, chain, p + 1)))]
  }

  /** remove's CAS on the top cell of `y`'s rank: from `topVal` to `y`. */
  function RemoveTops(tops: map<GPtr, GPtr>, topCell: GPtr, topVal: GPtr, y: GPtr): (t: map<GPtr, GPtr>)
    requires topCell in tops
    ensures t == tops || t == tops[topCell := y]
  {
    if tops[topCell] == topVal then tops[topCell := y] else tops
  }

  lemma {:induction false} FirstUntakenUnique<T>(cells: map<GPtr, Elem<T>>, chain: seq<GPtr>, k: nat, r: nat)
    requires InCells(cells, chain) && k <= r <= |chain|
    requires forall j :: k <= j < r ==> cells[chain[j]].taken
    requires r < |chain| ==> !cells[chain[r]].taken
    ensures FirstUntaken(cells, chain, k) == r
    decreases r - k
  {
    if k < r {
      FirstUntakenUnique(cells, chain, k + 1, r);
    }
  }

  /** FirstUntaken reads only the taken flags from `k` on. */
  lemma {:induction false} FirstUntakenFrame<T>(c1: map<GPtr, Elem<T>>, c2: map<GPtr, Elem<T>>, chain: seq<GPtr>, k: nat)
    requires InCells(c1, chain) && InCells(c2, chain) && k <= |chain|
    requires forall j :: k <= j < |chain| ==> c1[chain[j]].taken == c2[chain[j]].taken
    ensures FirstUntaken(c1, chain, k) == FirstUntaken(c2, chain, k)
    decreases |chain| - k
  {
    if k < |chain| {
      FirstUntakenFrame(c1, c2, chain, k + 1);
    }
  }

  lemma ChainSuffix<T>(cells: map<GPtr, Elem<T>>, t: GPtr, chain: seq<GPtr>, k: nat)
    requires IsChain(cells, t, chain) && k <= |chain|
    ensures IsChain(cells, At(chain, k), chain[k..])
  {
    var s := chain[k..];
    forall i | 0 <= i < |s|
      ensures cells[s[i]].next == At(s, i + 1)
    {
      assert s[i] == chain[k + i];
      assert At(s, i + 1) == At(chain, k + i + 1);
    }
    forall i, j | 0 <= i < j < |s|
      ensures s[i] != s[j]
    {
      assert s[i] == chain[k + i] && s[j] == chain[k + j];
    }
  }

  lemma ChainCons<T>(cells: map<GPtr, Elem<T>>, a: GPtr, s: seq<GPtr>)
    requires IsChain(cells, At(s, 0), s)
    requires a != Null && a in cells && cells[a].next == At(s, 0) && a !in s
    ensures IsChain(cells, a, [a] + s)
  {
    var l := [a] + s;
    forall i | 0 <= i < |l|
      ensures cells[l[i]].next == At(l, i + 1)
    {
      if i > 0 {
        assert l[i] == s[i - 1];
        assert At(l, i + 1) == At(s, i);
      }
    }
    forall i, j | 0 <= i < j < |l|
      ensures l[i] != l[j]
    {
      assert l[j] == s[j - 1];
      if i > 0 {
        assert l[i] == s[i - 1];
      }
    }
  }

  /**
   * The per-rank lists: each rank's top cell exists and heads its chain,
   * whose elements all live on that rank (malloc hands out the calling
   * rank's own elements, and push links them below its own top).
   */
  ghost predicate Lists<T>(cells: map<GPtr, Elem<T>>, tops: map<GPtr, GPtr>, lists: seq<seq<GPtr>>, topOff: nat) {
    (forall i :: 0 <= i < |lists| ==> Ptr(i, topOff) in tops) &&
    (forall i :: 0 <= i < |lists| ==> IsChain(cells, tops[Ptr(i, topOff)], lists[i])) &&
    (forall i, k :: 0 <= i < |lists| && 0 <= k < |lists[i]| ==> lists[i][k].Ptr? && lists[i][k].rank == i)
  }

  /** The first untaken element of a chain, null when all are taken: what get_youngest returns. */
  ghost function Candidate<T>(cells: map<GPtr, Elem<T>>, chain: seq<GPtr>): (y: GPtr)
    requires InCells(cells, chain)
    ensures y != Null ==> y in cells
  {
    At(chain, FirstUntaken(cells, chain, 0))
  }

  /**
   * What RemoveCells writes for a first untaken `y` at `p`: `y` becomes
   * taken and links to the first untaken element after it; a different
   * top element links to `y`; nothing else changes.
   */
  lemma RemoveCellsWrites<T>(cells: map<GPtr, Elem<T>>, l: seq<GPtr>, p: nat)
    requires InCells(cells, l) && p < |l|
    requires forall i, j :: 0 <= i < j < |l| ==> l[i] != l[j]
    ensures var y := l[p];
      var c1 := RemoveCells(cells, l[0], y, l, p);
      c1.Keys == cells.Keys &&
      c1[y] == Elem(At(l, FirstUntaken(cells, l, p + 1)), true, cells[y].ts, cells[y].value) &&
      (l[0] != y ==> c1[l[0]] == cells[l[0]].(next := y)) &&
      (forall x :: x in cells && x != y && x != l[0] ==> c1[x] == cells[x])
  {
    RemoveCellsLink(cells, l, p);
  }

  /** The link remove leaves in `y`: the same as over the cells before its writes. */
  lemma RemoveCellsLink<T>(cells: map<GPtr, Elem<T>>, l: seq<GPtr>, p: nat)
    requires InCells(cells, l) && p < |l|
    requires forall i, j :: 0 <= i < j < |l| ==> l[i] != l[j]
    ensures var c := TakeAndLink(cells, l[0], l[p]);
      InCells(c, l) && FirstUntaken(c, l, p + 1) == FirstUntaken(cells, l, p + 1)
  {
    var y := l[p];
    var c := TakeAndLink(cells, l[0], y);
    forall j | p + 1 <= j < |l| ensures c[l[j]].taken == cells[l[j]].taken {
      assert l[j] in cells && l[j] != y;
    }
    FirstUntakenFrame(cells, c, l, p + 1);
  }

  /** Rank `i` after the remove: its chain from `y`, and its values less the first. */
  lemma RemoveKeepsOwn<T>(cells: map<GPtr, Elem<T>>, t: GPtr, l: seq<GPtr>)
    requires IsChain(cells, t, l)
    requires FirstUntaken(cells, l, 0) < |l|
    ensures var p := FirstUntaken(cells, l, 0);
      var y := l[p];
      var q := FirstUntaken(cells, l, p + 1);
      var c1 := RemoveCells(cells, l[0], y, l, p);
      IsChain(c1, y, [y] + l[q..]) &&
      Live(cells, l) != [] && Live(cells, l)[0] == cells[y].value &&
      Live(c1, [y] + l[q..]) == Live(cells, l)[1..]
  {
    var p := FirstUntaken(cells, l, 0);
    var y := l[p];
    var q := FirstUntaken(cells, l, p + 1);
    var c1 := RemoveCells(cells, l[0], y, l, p);
    RemoveCellsWrites(cells, l, p);
    RemoveOwnChain(cells, t, l, p, q, c1);
    LiveFirst(cells, l);
    LiveSkip(cells, l, p + 1, q);
  }

  /**
   * The cells after the remove, from `y` on: `y`, taken and linked to the
   * q-th element, followed by the untouched rest of the chain.
   */
  lemma RemoveOwnChain<T>(cells: map<GPtr, Elem<T>>, t: GPtr, l: seq<GPtr>, p: nat, q: nat, c1: map<GPtr, Elem<T>>)
    requires IsChain(cells, t, l) && p < q <= |l|
    requires l[p] in c1 && c1[l[p]].next == At(l, q) && c1[l[p]].taken
    requires forall x :: x in cells && x != l[p] && x != l[0] ==> x in c1 && c1[x] == cells[x]
    ensures IsChain(c1, l[p], [l[p]] + l[q..]) && Live(c1, [l[p]] + l[q..]) == Live(cells, l[q..])
  {
    var y := l[p];
    ChainSuffix(cells, t, l, q);
    var s := l[q..];
    forall k | 0 <= k < |s|
      ensures s[k] in c1 && c1[s[k]] == cells[s[k]] && s[k] != y
    {
      assert s[k] == l[q + k];
      assert s[k] != l[0];
    }
    ChainFrame(cells, c1, At(l, q), s);
    assert At(s, 0) == At(l, q);
    ChainCons(c1, y, s);
    assert ([y] + s)[1..] == s;
  }

  /**
   * What remove relies on before its writes, for `y` the first untaken
   * element of rank `i`, at `p`: the top is the list's head, and after `y`
   * is taken and the head linked to it, the rest of the list from `p + 1`
   * is still linked, with the same first untaken element.
   */
  lemma RemovePrep<T>(c0: map<GPtr, Elem<T>>, t0: map<GPtr, GPtr>, ls: seq<seq<GPtr>>, topOff: nat, i: nat, p: nat)
    requires Lists(c0, t0, ls, topOff) && i < |ls| && p < |ls[i]|
    requires forall j :: 0 <= j < p ==> c0[ls[i][j]].taken
    requires !c0[ls[i][p]].taken
    ensures var l := ls[i]; var y := l[p]; var c2 := TakeAndLink(c0, l[0], y);
      l[0] == t0[Ptr(i, topOff)] && y.Ptr? && y.rank == i && y in c0 && l[0] in c0 &&
      p == FirstUntaken(c0, l, 0) && c2[y].next == At(l, p + 1) && LinkedFrom(c2, l, p + 1) &&
      FirstUntaken(c2, l, p + 1) == FirstUntaken(c0, l, p + 1)
  {
    var l := ls[i];
    var y := l[p];
    assert IsChain(c0, t0[Ptr(i, topOff)], l);
    FirstUntakenUnique(c0, l, 0, p);
    var c2 := TakeAndLink(c0, l[0], y);
    RemoveCellsLink(c0, l, p);
    assert LinkedFrom(c2, l, p + 1) by {
      forall j | p + 1 <= j < |l| ensures c2[l[j]] == c0[l[j]] {
        assert l[j] != y && l[j] != l[0];
      }
    }
  }

  /** Writes to two elements `y`, `z` of rank `i` leave every other rank's chain and values. */
  lemma RemoveKeepsOthers<T>(cells: map<GPtr, Elem<T>>, tops: map<GPtr, GPtr>, lists: seq<seq<GPtr>>, topOff: nat,
                             i: nat, y: GPtr, z: GPtr, c1: map<GPtr, Elem<T>>)
    requires Lists(cells, tops, lists, topOff) && i < |lists|
    requires y.Ptr? && y.rank == i && z.Ptr? && z.rank == i
    requires forall x :: x in cells && x != y && x != z ==> x in c1 && c1[x] == cells[x]
    ensures forall j :: 0 <= j < |lists| && j != i ==>
              IsChain(c1, tops[Ptr(j, topOff)], lists[j]) && Live(c1, lists[j]) == Live(cells, lists[j])
  {
    forall j | 0 <= j < |lists| && j != i
      ensures IsChain(c1, tops[Ptr(j, topOff)], lists[j]) && Live(c1, lists[j]) == Live(cells, lists[j])
    {
      RemoveKeepsOther(cells, c1, tops[Ptr(j, topOff)], lists[j], y, z, i, j);
    }
  }

  /** A chain none of whose elements is `y` or `z` is untouched by writes to those two. */
  lemma RemoveKeepsOther<T>(cells: map<GPtr, Elem<T>>, c1: map<GPtr, Elem<T>>, t: GPtr, l: seq<GPtr>, y: GPtr, z: GPtr, i: nat, j: nat)
    requires IsChain(cells, t, l) && i != j && y.Ptr? && y.rank == i && z.Ptr? && z.rank == i
    requires forall k :: 0 <= k < |l| ==> l[k].Ptr? && l[k].rank == j
    requires forall x :: x in cells && x != y && x != z ==> x in c1 && c1[x] == cells[x]
    ensures IsChain(c1, t, l) && Live(c1, l) == Live(cells, l)
  {
    forall k | 0 <= k < |l|
      ensures l[k] in c1 && c1[l[k]] == cells[l[k]]
    {
      assert l[k] != y && l[k] != z;
    }
    ChainFrame(cells, c1, t, l);
  }

  /**
   * A successful remove of rank `i`'s first untaken element `y`, with the
   * top value it was read under: `y`, now taken, becomes the top and links
   * past the taken elements after it, so rank `i` keeps exactly its other
   * untaken values in order, `y`'s value is its first one, and every other
   * rank's list and values stay as they were.
   */
  lemma RemoveKeeps<T>(cells: map<GPtr, Elem<T>>, tops: map<GPtr, GPtr>, lists: seq<seq<GPtr>>, topOff: nat, i: nat)
    requires Lists(cells, tops, lists, topOff) && i < |lists|
    requires FirstUntaken(cells, lists[i], 0) < |lists[i]|
    ensures var l := lists[i];
      var p := FirstUntaken(cells, l, 0);
      var y := l[p];
      var q := FirstUntaken(cells, l, p + 1);
      var c1 := RemoveCells(cells, l[0], y, l, p);
      var t1 := RemoveTops(tops, Ptr(i, topOff), l[0], y);
      var l1 := lists[i := [y] + l[q..]];
      t1 == tops[Ptr(i, topOff) := y] &&
      Lists(c1, t1, l1, topOff) &&
      Live(cells, l) != [] && Live(cells, l)[0] == cells[y].value &&
      Live(c1, l1[i]) == Live(cells, l)[1..] &&
      (forall j :: 0 <= j < |lists| && j != i ==> Live(c1, l1[j]) == Live(cells, lists[j]))
  {
    var l := lists[i];
    var p := FirstUntaken(cells, l, 0);
    var y := l[p];
    var q := FirstUntaken(cells, l, p + 1);
    var c1 := RemoveCells(cells, l[0], y, l, p);
    var t1 := RemoveTops(tops, Ptr(i, topOff), l[0], y);
    var l1 := lists[i := [y] + l[q..]];
    RemoveCellsWrites(cells, l, p);
    RemoveKeepsOwn(cells, tops[Ptr(i, topOff)], l);
    RemoveKeepsOthers(cells, tops, lists, topOff, i, y, l[0], c1);
    var own := [y] + l[q..];
    forall k | 0 <= k < |own| ensures own[k].Ptr? && own[k].rank == i {
      if k > 0 {
        assert own[k] == l[q + k - 1];
      }
    }
    ListsReplace(c1, tops, lists, topOff, i, y, own);
    assert l1[i] == own;
    assert forall j :: 0 <= j < |lists| && j != i ==> l1[j] == lists[j];
  }

  /** Lists still hold after rank `i`'s list is replaced by a chain of that rank from a new top. */
  lemma ListsReplace<T>(c1: map<GPtr, Elem<T>>, tops: map<GPtr, GPtr>, lists: seq<seq<GPtr>>, topOff: nat,
                        i: nat, t: GPtr, l: seq<GPtr>)
    requires i < |lists| && forall j :: 0 <= j < |lists| ==> Ptr(j, topOff) in tops
    requires IsChain(c1, t, l) && forall k :: 0 <= k < |l| ==> l[k].Ptr? && l[k].rank == i
    requires forall j :: 0 <= j < |lists| && j != i ==> IsChain(c1, tops[Ptr(j, topOff)], lists[j])
    requires forall j, k :: 0 <= j < |lists| && 0 <= k < |lists[j]| ==> lists[j][k].Ptr? && lists[j][k].rank == j
    ensures Lists(c1, tops[Ptr(i, topOff) := t], lists[i := l], topOff)
  {
    var t1, l1 := tops[Ptr(i, topOff) := t], lists[i := l];
    forall j | 0 <= j < |l1| ensures IsChain(c1, t1[Ptr(j, topOff)], l1[j]) {
      if j != i {
        assert t1[Ptr(j, topOff)] == tops[Ptr(j, topOff)] && l1[j] == lists[j];
      }
    }
  }

  ghost predicate AllInCells<T>(cells: map<GPtr, Elem<T>>, lists: seq<seq<GPtr>>) {
    forall i :: 0 <= i < |lists| ==> InCells(cells, lists[i])
  }

  /** Which element try_rem goes for. */
  datatype Choice = Elimination(rank: nat) | YoungestOf(rank: nat) | NoCandidate

  /** The timestamp of a chain's first untaken element. */
  ghost function Stamp<T>(cells: map<GPtr, Elem<T>>, chain: seq<GPtr>): Timestamp
    requires InCells(cells, chain) && Candidate(cells, chain) != Null
  {
    cells[Candidate(cells, chain)].ts
  }

  /**
   * try_rem's scan from rank `i` on, with the youngest `best` seen so far
   * stamped `tsMax`: the first candidate stamped after `startTime` is taken
   * at once (elimination); otherwise each candidate stamped after `tsMax`
   * becomes the youngest.
   */
  ghost function Pick<T>(cells: map<GPtr, Elem<T>>, lists: seq<seq<GPtr>>, startTime: Timestamp,
                         i: nat, tsMax: Timestamp, best: Choice): Choice
    requires AllInCells(cells, lists) && i <= |lists|
    decreases |lists| - i
  {
    if i == |lists| then best
    else if Candidate(cells, lists[i]) == Null then Pick(cells, lists, startTime, i + 1, tsMax, best)
    else
      var ts := Stamp(cells, lists[i]);
      if Before(startTime, ts) then Elimination(i)
      else if Before(tsMax, ts) then Pick(cells, lists, startTime, i + 1, ts, YoungestOf(i))
      else Pick(cells, lists, startTime, i + 1, tsMax, best)
  }

  /**
   * The scan after `i` ranks: no elimination yet, a chosen youngest is of
   * a rank already seen, with its candidate and the top read with it.
   */
  ghost predicate ScanState<T>(cells: map<GPtr, Elem<T>>, lists: seq<seq<GPtr>>, tops: map<GPtr, GPtr>,
                               topOff: nat, startTime: Timestamp, i: nat, tsMax: Timestamp,
                               c: Choice, top: GPtr, y: GPtr) {
    AllInCells(cells, lists) && i <= |lists| && !c.Elimination? && (c == NoCandidate <==> y == Null) &&
    (c.YoungestOf? ==>
       c.rank < |lists| && Ptr(c.rank, topOff) in tops && y == Candidate(cells, lists[c.rank]) &&
       top == tops[Ptr(c.rank, topOff)])
  }

  /** One rank of Pick, given that rank's candidate and its timestamp. */
  lemma PickRank<T>(cells: map<GPtr, Elem<T>>, lists: seq<seq<GPtr>>, startTime: Timestamp,
                    i: nat, tsMax: Timestamp, best: Choice, y: GPtr, ts: Timestamp)
    requires AllInCells(cells, lists) && i < |lists|
    requires y == Candidate(cells, lists[i]) && (y != Null ==> ts == Stamp(cells, lists[i]))
    ensures y == Null ==> Pick(cells, lists, startTime, i, tsMax, best) == Pick(cells, lists, startTime, i + 1, tsMax, best)
    ensures y != Null && Before(startTime, ts) ==> Pick(cells, lists, startTime, i, tsMax, best) == Elimination(i)
    ensures y != Null && !Before(startTime, ts) && Before(tsMax, ts) ==>
              Pick(cells, lists, startTime, i, tsMax, best) == Pick(cells, lists, startTime, i + 1, ts, YoungestOf(i))
    ensures y != Null && !Before(startTime, ts) && !Before(tsMax, ts) ==>
              Pick(cells, lists, startTime, i, tsMax, best) == Pick(cells, lists, startTime, i + 1, tsMax, best)
  {
  }

  /** Every candidate's interval starts no later than it ends, as getNewTS stamps them. */
  ghost predicate WellStamped<T>(cells: map<GPtr, Elem<T>>, lists: seq<seq<GPtr>>)
    requires AllInCells(cells, lists)
  {
    forall j :: 0 <= j < |lists| && Candidate(cells, lists[j]) != Null ==>
      Stamp(cells, lists[j]).start <= Stamp(cells, lists[j]).end
  }

  /**
   * What the scan's choice means: a chosen rank has an untaken element; an
   * elimination is against the first candidate stamped after `startTime`;
   * otherwise no candidate is, and the youngest is stamped after TS_MIN
   * and below no candidate of a later rank, nor, with well-formed stamps,
   * of any rank; no choice means no candidate is stamped after TS_MIN.
   */
  ghost predicate PickSpec<T>(cells: map<GPtr, Elem<T>>, lists: seq<seq<GPtr>>, startTime: Timestamp, c: Choice)
    requires AllInCells(cells, lists)
  {
    (c != NoCandidate ==> c.rank < |lists| && Candidate(cells, lists[c.rank]) != Null) &&
    (c.Elimination? ==>
       Before(startTime, Stamp(cells, lists[c.rank])) &&
       forall j :: 0 <= j < c.rank && Candidate(cells, lists[j]) != Null ==> !Before(startTime, Stamp(cells, lists[j]))) &&
    (c.YoungestOf? ==>
       (forall j :: 0 <= j < |lists| && Candidate(cells, lists[j]) != Null ==> !Before(startTime, Stamp(cells, lists[j]))) &&
       Before(TsMin, Stamp(cells, lists[c.rank])) &&
       (forall j :: c.rank < j < |lists| && Candidate(cells, lists[j]) != Null ==>
          !Before(Stamp(cells, lists[c.rank]), Stamp(cells, lists[j]))) &&
       (WellStamped(cells, lists) ==>
          forall j :: 0 <= j < |lists| && Candidate(cells, lists[j]) != Null ==>
            !Before(Stamp(cells, lists[c.rank]), Stamp(cells, lists[j])))) &&
    (c == NoCandidate ==>
       forall j :: 0 <= j < |lists| && Candidate(cells, lists[j]) != Null ==> !Before(TsMin, Stamp(cells, lists[j])))
  }

  lemma {:induction false} PickFrom<T>(cells: map<GPtr, Elem<T>>, lists: seq<seq<GPtr>>, startTime: Timestamp,
                                       i: nat, tsMax: Timestamp, best: Choice)
    requires AllInCells(cells, lists) && i <= |lists|
    requires forall j :: 0 <= j < i && Candidate(cells, lists[j]) != Null ==> !Before(startTime, Stamp(cells, lists[j]))
    requires !best.Elimination?
    requires best == NoCandidate ==>
               tsMax == TsMin &&
               forall j :: 0 <= j < i && Candidate(cells, lists[j]) != Null ==> !Before(TsMin, Stamp(cells, lists[j]))
    requires best.YoungestOf? ==>
               best.rank < i && Candidate(cells, lists[best.rank]) != Null &&
               Stamp(cells, lists[best.rank]) == tsMax && Before(TsMin, tsMax) &&
               (forall j :: best.rank < j < i && Candidate(cells, lists[j]) != Null ==> !Before(tsMax, Stamp(cells, lists[j]))) &&
               (WellStamped(cells, lists) ==>
                  forall j :: 0 <= j < i && Candidate(cells, lists[j]) != Null ==> !Before(tsMax, Stamp(cells, lists[j])))
    ensures PickSpec(cells, lists, startTime, Pick(cells, lists, startTime, i, tsMax, best))
    decreases |lists| - i
  {
    if i < |lists| {
      if Candidate(cells, lists[i]) == Null {
        PickFrom(cells, lists, startTime, i + 1, tsMax, best);
      } else {
        var ts := Stamp(cells, lists[i]);
        if !Before(startTime, ts) {
          if Before(tsMax, ts) {
            if WellStamped(cells, lists) {
              forall j | 0 <= j < i + 1 && Candidate(cells, lists[j]) != Null
                ensures !Before(ts, Stamp(cells, lists[j]))
              {
                BeforeOrder(tsMax, ts, Stamp(cells, lists[j]));
              }
            }
            PickFrom(cells, lists, startTime, i + 1, ts, YoungestOf(i));
          } else {
            PickFrom(cells, lists, startTime, i + 1, tsMax, best);
          }
        }
      }
    }
  }

  /**
   * try_rem reports EMPTY exactly when no rank has an untaken element,
   * provided every candidate is stamped after TS_MIN, as every stamp of
   * getNewTS is below the wrap of the clocks.
   */
  lemma PickEmpty<T>(cells: map<GPtr, Elem<T>>, lists: seq<seq<GPtr>>, startTime: Timestamp)
    requires AllInCells(cells, lists)
    requires forall j, k :: 0 <= j < |lists| && 0 <= k < |lists[j]| ==> lists[j][k] != Null
    requires forall j :: 0 <= j < |lists| && Candidate(cells, lists[j]) != Null ==> Stamp(cells, lists[j]).start > 0
    ensures PickSpec(cells, lists, startTime, Pick(cells, lists, startTime, 0, TsMin, NoCandidate))
    ensures Pick(cells, lists, startTime, 0, TsMin, NoCandidate) == NoCandidate <==>
              forall j :: 0 <= j < |lists| ==> Live(cells, lists[j]) == []
  {
    PickFrom(cells, lists, startTime, 0, TsMin, NoCandidate);
    forall j | 0 <= j < |lists|
      ensures Live(cells, lists[j]) == [] <==> Candidate(cells, lists[j]) == Null
    {
      LiveFirst(cells, lists[j]);
      var k := FirstUntaken(cells, lists[j], 0);
      if k < |lists[j]| {
        assert lists[j][k] != Null;
      }
    }
  }

  /**
   * The state a successful remove from rank `i` leaves: `c0`, `t0`, `l0`
   * before, `c1`, `t1`, `l1` after.
   */
  ghost predicate Popped<T>(c0: map<GPtr, Elem<T>>, t0: map<GPtr, GPtr>, l0: seq<seq<GPtr>>, topOff: nat, i: nat,
                            c1: map<GPtr, Elem<T>>, t1: map<GPtr, GPtr>, l1: seq<seq<GPtr>>, value: Option<T>)
  {
    i < |l0| && InCells(c0, l0[i]) &&
    var l := l0[i];
    var p := FirstUntaken(c0, l, 0);
    p < |l| &&
    value == Some(c0[l[p]].value) &&
    c1 == RemoveCells(c0, l[0], l[p], l, p) &&
    t1 == t0[Ptr(i, topOff) := l[p]] &&
    l1 == l0[i := [l[p]] + l[FirstUntaken(c0, l, p + 1)..]]
  }

  /** What a try_rem that succeeds does, by the rank its scan picks. */
  ghost predicate TryRemPost<T>(c0: map<GPtr, Elem<T>>, t0: map<GPtr, GPtr>, l0: seq<seq<GPtr>>, topOff: nat,
                                startTime: Timestamp, c1: map<GPtr, Elem<T>>, t1: map<GPtr, GPtr>, l1: seq<seq<GPtr>>,
                                empty: bool, value: Option<T>)
  {
    AllInCells(c0, l0) &&
    var c := Pick(c0, l0, startTime, 0, TsMin, NoCandidate);
    (c == NoCandidate ==> empty && value == None && c1 == c0 && t1 == t0 && l1 == l0) &&
    (c != NoCandidate ==> !empty && Popped(c0, t0, l0, topOff, c.rank, c1, t1, l1, value))
  }

  /**
   * A pop that finds an element hands out the first untaken value of the
   * rank it picked and leaves that rank the rest, in order; every other
   * rank keeps its values.
   */
  lemma PoppedValues<T>(c0: map<GPtr, Elem<T>>, t0: map<GPtr, GPtr>, l0: seq<seq<GPtr>>, topOff: nat, i: nat,
                        c1: map<GPtr, Elem<T>>, t1: map<GPtr, GPtr>, l1: seq<seq<GPtr>>, value: Option<T>)
    requires Lists(c0, t0, l0, topOff)
    requires Popped(c0, t0, l0, topOff, i, c1, t1, l1, value)
    ensures Lists(c1, t1, l1, topOff) && |l1| == |l0|
    ensures Live(c0, l0[i]) != [] && value == Some(Live(c0, l0[i])[0])
    ensures Live(c1, l1[i]) == Live(c0, l0[i])[1..]
    ensures forall j :: 0 <= j < |l0| && j != i ==> Live(c1, l1[j]) == Live(c0, l0[j])
  {
    RemoveKeeps(c0, t0, l0, topOff, i);
  }

  /**
   * try_rem as written ends with remove(topAddr, youngestAddr, value),
   * where topAddr is the top of the LAST rank scanned, not of the rank of
   * the youngest.  Two ranks: rank 0 holds y0 stamped [5, 6]; rank 1 holds
   * x1 then z1, both stamped [1, 2].  The scan picks y0; remove's CAS on
   * rank 0's top, expecting x1, fails, and its unlinking write, meant for
   * the top of y0's own list, makes x1 link to y0: z1 and its value 30
   * drop out of rank 1's list.  With the top of rank 0, as TryRem passes
   * it, rank 1 keeps both values.
   */
  lemma TryRemAsWrittenLosesElement(cells: map<GPtr, Elem<int>>, tops: map<GPtr, GPtr>, lists: seq<seq<GPtr>>,
                                    startTime: Timestamp)
    requires cells == map[Ptr(0, 16) := Elem(Null, false, Timestamp(5, 6), 10),
                          Ptr(1, 16) := Elem(Ptr(1, 48), false, Timestamp(1, 2), 20),
                          Ptr(1, 48) := Elem(Null, false, Timestamp(1, 2), 30)]
    requires tops == map[Ptr(0, 0) := Ptr(0, 16), Ptr(1, 0) := Ptr(1, 16)]
    requires lists == [[Ptr(0, 16)], [Ptr(1, 16), Ptr(1, 48)]]
    requires startTime == Timestamp(7, 8)
    ensures Lists(cells, tops, lists, 0)
    ensures Pick(cells, lists, startTime, 0, TsMin, NoCandidate) == YoungestOf(0)
    ensures Live(cells, lists[1]) == [20, 30]
    ensures var lastTop := tops[Ptr(1, 0)];
      var c1 := RemoveCells(cells, lastTop, Ptr(0, 16), lists[0], 0);
      var t1 := RemoveTops(tops, Ptr(0, 0), lastTop, Ptr(0, 16));
      lastTop != tops[Ptr(0, 0)] && t1 == tops &&
      IsChain(c1, t1[Ptr(1, 0)], [Ptr(1, 16), Ptr(0, 16)]) && Live(c1, [Ptr(1, 16), Ptr(0, 16)]) == [20]
    ensures var c2 := RemoveCells(cells, tops[Ptr(0, 0)], Ptr(0, 16), lists[0], 0);
      Live(c2, lists[1]) == [20, 30]
  {
    ExampleScan(cells, tops, lists, startTime);
    ExampleAsWritten(cells, tops, lists);
    ExampleCorrected(cells, tops, lists);
  }

  /** The two-rank example before the pop: its lists, and the scan's choice of y0. */
  lemma ExampleScan(cells: map<GPtr, Elem<int>>, tops: map<GPtr, GPtr>, lists: seq<seq<GPtr>>, startTime: Timestamp)
    requires cells == map[Ptr(0, 16) := Elem(Null, false, Timestamp(5, 6), 10),
                          Ptr(1, 16) := Elem(Ptr(1, 48), false, Timestamp(1, 2), 20),
                          Ptr(1, 48) := Elem(Null, false, Timestamp(1, 2), 30)]
    requires tops == map[Ptr(0, 0) := Ptr(0, 16), Ptr(1, 0) := Ptr(1, 16)]
    requires lists == [[Ptr(0, 16)], [Ptr(1, 16), Ptr(1, 48)]]
    requires startTime == Timestamp(7, 8)
    ensures Lists(cells, tops, lists, 0)
    ensures Pick(cells, lists, startTime, 0, TsMin, NoCandidate) == YoungestOf(0)
    ensures Live(cells, lists[1]) == [20, 30]
  {
    var y0, x1, z1 := Ptr(0, 16), Ptr(1, 16), Ptr(1, 48);
    assert FirstUntaken(cells, lists[0], 0) == 0;
    assert FirstUntaken(cells, lists[1], 0) == 0;
    assert Candidate(cells, lists[0]) == y0 && Candidate(cells, lists[1]) == x1;
    assert Pick(cells, lists, startTime, 2, Timestamp(5, 6), YoungestOf(0)) == YoungestOf(0);
    assert Pick(cells, lists, startTime, 1, Timestamp(5, 6), YoungestOf(0)) == YoungestOf(0);
    assert lists[1][1..] == [z1] && [z1][1..] == [];
    assert Live(cells, [z1]) == [30];
  }

  /** The example's remove with the top of rank 1: x1 links to y0, and z1 is lost. */
  lemma ExampleAsWritten(cells: map<GPtr, Elem<int>>, tops: map<GPtr, GPtr>, lists: seq<seq<GPtr>>)
    requires cells == map[Ptr(0, 16) := Elem(Null, false, Timestamp(5, 6), 10),
                          Ptr(1, 16) := Elem(Ptr(1, 48), false, Timestamp(1, 2), 20),
                          Ptr(1, 48) := Elem(Null, false, Timestamp(1, 2), 30)]
    requires tops == map[Ptr(0, 0) := Ptr(0, 16), Ptr(1, 0) := Ptr(1, 16)]
    requires lists == [[Ptr(0, 16)], [Ptr(1, 16), Ptr(1, 48)]]
    ensures var lastTop := tops[Ptr(1, 0)];
      var c1 := RemoveCells(cells, lastTop, Ptr(0, 16), lists[0], 0);
      var t1 := RemoveTops(tops, Ptr(0, 0), lastTop, Ptr(0, 16));
      lastTop != tops[Ptr(0, 0)] && t1 == tops &&
      IsChain(c1, t1[Ptr(1, 0)], [Ptr(1, 16), Ptr(0, 16)]) && Live(c1, [Ptr(1, 16), Ptr(0, 16)]) == [20]
  {
    var y0, x1 := Ptr(0, 16), Ptr(1, 16);
    var c1 := RemoveCells(cells, x1, y0, lists[0], 0);
    assert FirstUntaken(TakeAndLink(cells, x1, y0), lists[0], 1) == 1;
    assert c1[x1] == Elem(y0, false, Timestamp(1, 2), 20);
    assert c1[y0] == Elem(Null, true, Timestamp(5, 6), 10);
    assert [x1, y0][1..] == [y0] && [y0][1..] == [];
    assert Live(c1, [y0]) == [];
  }

  /** The example's remove with the top of rank 0: rank 1 keeps both values. */
  lemma ExampleCorrected(cells: map<GPtr, Elem<int>>, tops: map<GPtr, GPtr>, lists: seq<seq<GPtr>>)
    requires cells == map[Ptr(0, 16) := Elem(Null, false, Timestamp(5, 6), 10),
                          Ptr(1, 16) := Elem(Ptr(1, 48), false, Timestamp(1, 2), 20),
                          Ptr(1, 48) := Elem(Null, false, Timestamp(1, 2), 30)]
    requires tops == map[Ptr(0, 0) := Ptr(0, 16), Ptr(1, 0) := Ptr(1, 16)]
    requires lists == [[Ptr(0, 16)], [Ptr(1, 16), Ptr(1, 48)]]
    ensures var c2 := RemoveCells(cells, tops[Ptr(0, 0)], Ptr(0, 16), lists[0], 0);
      Live(c2, lists[1]) == [20, 30]
  {
    var y0, x1, z1 := Ptr(0, 16), Ptr(1, 16), Ptr(1, 48);
    var c2 := RemoveCells(cells, y0, y0, lists[0], 0);
    assert FirstUntaken(TakeAndLink(cells, y0, y0), lists[0], 1) == 1;
    assert c2[x1] == cells[x1] && c2[z1] == cells[z1];
    assert lists[1][1..] == [z1] && [z1][1..] == [];
    assert Live(c2, [z1]) == [30];
  }

  /** The logical clock of rank `i`. */
  function Clock(i: nat, off: nat): GPtr {
    Ptr(i, off)
  }

  ghost predicate ClocksIn(cells: map<GPtr, nat>, n: nat, off: nat) {
    forall i :: 0 <= i < n ==> Clock(i, off) in cells && cells[Clock(i, off)] <= U64Max
  }

  /** The largest clock of ranks 0 .. n-1, or ULLI_MIN when there are none. */
  ghost function MaxClock(cells: map<GPtr, nat>, n: nat, off: nat): (m: nat)
    requires ClocksIn(cells, n, off)
    ensures m <= U64Max
    ensures forall i :: 0 <= i < n ==> cells[Clock(i, off)] <= m
    ensures m == 0 || exists i :: 0 <= i < n && m == cells[Clock(i, off)]
  {
    if n == 0 then 0
    else
      var m := MaxClock(cells, n - 1, off);
      var c := cells[Clock(n - 1, off)];
      if c > m then c else m
  }

  /** Raising one clock to at least every clock makes it the maximum. */
  lemma {:induction false} MaxClockRaise(cells: map<GPtr, nat>, n: nat, off: nat, j: nat, v: nat)
    requires ClocksIn(cells, n, off) && j < n
    requires MaxClock(cells, n, off) <= v <= U64Max
    ensures ClocksIn(cells[Clock(j, off) := v], n, off)
    ensures MaxClock(cells[Clock(j, off) := v], n, off) == v
  {
    var c := cells[Clock(j, off) := v];
    assert ClocksIn(c, n, off);
    if j < n - 1 {
      MaxClockRaise(cells, n - 1, off, j, v);
    } else {
      var m := MaxClock(c, n - 1, off);
      assert m <= v by {
        if m != 0 {
          var i :| 0 <= i < n - 1 && m == c[Clock(i, off)];
          assert c[Clock(i, off)] == cells[Clock(i, off)];
        }
      }
    }
  }

  /**
   * getNewTS's effect: start is one past the largest clock, stored in the
   * own clock; end is one past the largest clock read afterwards, stored
   * there too.
   */
  ghost predicate Stamped(c0: map<GPtr, nat>, c1: map<GPtr, nat>, own: nat, n: nat, off: nat, ts: Timestamp)
    requires ClocksIn(c0, n, off) && own < n
  {
    var mid := c0[Clock(own, off) := ts.start];
    ts.start <= U64Max && ClocksIn(mid, n, off) &&
    ts.start == Inc64(MaxClock(c0, n, off)) &&
    ts.end == Inc64(MaxClock(mid, n, off)) &&
    c1 == mid[Clock(own, off) := ts.end]
  }

  /**
   * Without another rank's clock moving during the delay, and below the
   * wrap of the uint64_t clocks, a new timestamp is the one-tick interval
   * just past every clock: it is not below itself, and any timestamp whose
   * end some clock has reached is below it.
   */
  lemma NewStamp(c0: map<GPtr, nat>, c1: map<GPtr, nat>, own: nat, n: nat, off: nat, ts: Timestamp, j: nat, prev: Timestamp)
    requires ClocksIn(c0, n, off) && own < n && j < n
    requires Stamped(c0, c1, own, n, off, ts)
    requires MaxClock(c0, n, off) + 2 <= U64Max
    ensures ts.start == MaxClock(c0, n, off) + 1 && ts.end == ts.start + 1
    ensures c1[Clock(own, off)] == ts.end
    ensures !Before(ts, ts)
    ensures prev.end <= c0[Clock(j, off)] ==> Before(prev, ts)
  {
    MaxClockRaise(c0, n, off, own, ts.start);
  }

  /** time: this rank's logical clock. */
  class Time {
    const own: nat            // BCL::rank()
    const nprocs: nat         // BCL::nprocs()
    const clockOff: nat       // clock.ptr, the same on every rank
    const clocks: Heap<nat>   // every rank's clock

    ghost predicate Valid()
      reads this, clocks
    {
      own < nprocs && ClocksIn(clocks.cells, nprocs, clockOff)
    }

    /** time(): the own clock starts at ULLI_MIN. */
    constructor (own: nat, nprocs: nat, clockOff: nat, clocks: Heap<nat>)
      requires own < nprocs && ClocksIn(clocks.cells, nprocs, clockOff)
      modifies clocks
      ensures Valid()
      ensures this.own == own && this.nprocs == nprocs && this.clockOff == clockOff && this.clocks == clocks
      ensures clocks.cells == old(clocks.cells)[Clock(own, clockOff) := 0]
    {
      this.own, this.nprocs, this.clockOff, this.clocks := own, nprocs, clockOff, clocks;
      new;
      clocks.Put(0, Clock(own, clockOff));
    }

    /** One of getNewTS's loops: the largest clock over all ranks, from ULLI_MIN up. */
    method ReadMax() returns (m: nat)
      requires Valid()
      ensures m == MaxClock(clocks.cells, nprocs, clockOff)
    {
      m := 0;
      var i := 0;
      while i < nprocs
        invariant i <= nprocs && m == MaxClock(clocks.cells, i, clockOff)
      {
        var c := clocks.Get(Clock(i, clockOff));
        if c > m {
          m := c;
        }
        i := i + 1;
      }
    }

    /** getNewTS; the delay between the two reads is not modelled. */
    method GetNewTS() returns (ts: Timestamp)
      requires Valid()
      modifies clocks
      ensures Valid()
      ensures Stamped(old(clocks.cells), clocks.cells, own, nprocs, clockOff, ts)
    {
      var start := ReadMax();
      start := Inc64(start);
      clocks.Put(start, Clock(own, clockOff));
      var end := ReadMax();
      end := Inc64(end);
      clocks.Put(end, Clock(own, clockOff));
      ts := Timestamp(start, end);
    }
  }

  /**
   * push's effect on the lists: the own list becomes the new element
   * followed by the old list from its first untaken element, so the own
   * values gain `v` in front and every other rank's stay the same.
   */
  lemma PushKeeps<T>(c0: map<GPtr, Elem<T>>, t0: map<GPtr, GPtr>, l0: seq<seq<GPtr>>, topOff: nat, own: nat,
                     addr: GPtr, v: T, ts: Timestamp)
    requires Lists(c0, t0, l0, topOff) && own < |l0|
    requires addr.Ptr? && addr.rank == own && addr !in l0[own]
    ensures var l := l0[own];
      var k := FirstUntaken(c0, l, 0);
      var c1 := c0[addr := Elem(At(l, k), false, ts, v)];
      var t1 := t0[Ptr(own, topOff) := addr];
      var l1 := l0[own := [addr] + l[k..]];
      Lists(c1, t1, l1, topOff) &&
      Live(c1, l1[own]) == [v] + Live(c0, l) &&
      forall j :: 0 <= j < |l0| && j != own ==> Live(c1, l1[j]) == Live(c0, l0[j])
  {
    var l := l0[own];
    var k := FirstUntaken(c0, l, 0);
    var c1 := c0[addr := Elem(At(l, k), false, ts, v)];
    var t1 := t0[Ptr(own, topOff) := addr];
    var l1 := l0[own := [addr] + l[k..]];
    RemoveKeepsOthers(c0, t0, l0, topOff, own, addr, addr, c1);
    ChainSuffix(c0, t0[Ptr(own, topOff)], l, k);
    var s := l[k..];
    forall m | 0 <= m < |s|
      ensures s[m] in c1 && c1[s[m]] == c0[s[m]]
    {
      assert s[m] == l[k + m];
    }
    ChainFrame(c0, c1, At(l, k), s);
    assert addr !in s by {
      forall m | 0 <= m < |s| ensures s[m] != addr { assert s[m] == l[k + m]; }
    }
    ChainCons(c1, addr, s);
    var ownList := [addr] + s;
    forall m | 0 <= m < |ownList| ensures ownList[m].Ptr? && ownList[m].rank == own {
      if m > 0 {
        assert ownList[m] == l[k + m - 1];
      }
    }
    ListsReplace(c1, t0, l0, topOff, own, addr, ownList);
    assert l1[own] == ownList && ownList[1..] == s;
    assert forall j :: 0 <= j < |l0| && j != own ==> l1[j] == l0[j];
    assert l[0..] == l;
    LiveSkip(c0, l, 0, k);
  }

  class Stack<T(==)> {
    const own: nat                    // BCL::rank()
    const nprocs: nat                 // BCL::nprocs()
    const topOff: nat                 // top.ptr, the same on every rank
    const tops: Heap<GPtr>            // every rank's top cell
    const elems: Heap<Elem<T>>        // every rank's elements
    const tim: Time                   // tim
    ghost var lists: seq<seq<GPtr>>   // every rank's list, from its top

    ghost predicate Valid()
      reads this, tops, elems, tim, tim.clocks
    {
      tim.Valid() && tim.own == own && tim.nprocs == nprocs &&
      own < nprocs && |lists| == nprocs && Lists(elems.cells, tops.cells, lists, topOff)
    }

    /**
     * The constructor: the own top cell starts null and the own clock at 0;
     * the barriers around it mean every other rank has done the same.
     */
    constructor (own: nat, nprocs: nat, topOff: nat, tops: Heap<GPtr>, elems: Heap<Elem<T>>,
                 clockOff: nat, clocks: Heap<nat>)
      requires own < nprocs && ClocksIn(clocks.cells, nprocs, clockOff)
      requires forall i :: 0 <= i < nprocs ==> Ptr(i, topOff) in tops.cells
      requires forall i :: 0 <= i < nprocs && i != own ==> tops.cells[Ptr(i, topOff)] == Null
      modifies tops, clocks
      ensures Valid()
      ensures this.own == own && this.nprocs == nprocs && this.topOff == topOff
      ensures this.tops == tops && this.elems == elems && tim.clocks == clocks && tim.clockOff == clockOff
      ensures tops.cells == old(tops.cells)[Ptr(own, topOff) := Null]
      ensures clocks.cells == old(clocks.cells)[Clock(own, clockOff) := 0]
      ensures forall i :: 0 <= i < nprocs ==> lists[i] == []
    {
      this.own, this.nprocs, this.topOff := own, nprocs, topOff;
      this.tops, this.elems := tops, elems;
      tim := new Time(own, nprocs, clockOff, clocks);
      lists := seq(nprocs, _ => []);
      new;
      tops.Put(Null, Ptr(own, topOff));
    }

    /**
     * push, with `addr` what malloc returned (an element of this rank).
     * Null is the full-stack error and changes nothing.  Otherwise the new
     * element, stamped TS_MAX, becomes the own top; it then links past the
     * taken elements at the head of the old list and gets a new timestamp.
     * The own rank's values gain `v` in front; no other rank's change.
     */
    method Push(v: T, addr: GPtr) returns (ok: bool, ts: Timestamp)
      requires Valid()
      requires addr.Ptr? ==> addr.rank == own && addr !in lists[own]
      modifies this, tops, elems, tim.clocks
      ensures Valid() && ok == addr.Ptr?
      ensures !ok ==> elems.cells == old(elems.cells) && tops.cells == old(tops.cells) &&
                      tim.clocks.cells == old(tim.clocks.cells) && lists == old(lists)
      ensures ok ==>
        var l := old(lists[own]);
        var k := FirstUntaken(old(elems.cells), l, 0);
        elems.cells == old(elems.cells)[addr := Elem(At(l, k), false, ts, v)] &&
        tops.cells == old(tops.cells)[Ptr(own, topOff) := addr] &&
        lists == old(lists)[own := [addr] + l[k..]] &&
        Stamped(old(tim.clocks.cells), tim.clocks.cells, own, nprocs, tim.clockOff, ts)
      ensures ok ==> Live(elems.cells, lists[own]) == [v] + Live(old(elems.cells), old(lists[own]))
      ensures forall i :: 0 <= i < nprocs && i != own ==>
                lists[i] == old(lists[i]) && Live(elems.cells, lists[i]) == Live(old(elems.cells), old(lists[i]))
    {
      var oldTop := tops.Get(Ptr(own, topOff));
      if addr == Null {
        // the source prints that the stack is full
        ok, ts := false, TsMin;
        return;
      }
      ok := true;
      ghost var c0, t0, ls, l := elems.cells, tops.cells, lists, lists[own];
      ghost var k := FirstUntaken(c0, l, 0);
      Link(v, addr, oldTop);
      ghost var t1 := tops.cells;
      assert t1 == t0[Ptr(own, topOff) := addr];
      ts := tim.GetNewTS();
      SetStamp(addr, ts);
      assert elems.cells == c0[addr := Elem(At(l, k), false, ts, v)];
      assert tops.cells == t1 && lists == ls;
      lists := lists[own := [addr] + l[k..]];
      PushKeeps(c0, t0, ls, topOff, own, addr, v, ts);
    }

    /**
     * push up to its timestamp: the new element, stamped TS_MAX, links to
     * the old top `oldTop` and becomes the own top; then it links past the
     * taken elements at the head of the old list.
     */
    method Link(v: T, addr: GPtr, oldTop: GPtr)
      requires Valid() && addr.Ptr? && addr.rank == own && addr !in lists[own]
      requires oldTop == tops.cells[Ptr(own, topOff)]
      modifies tops, elems
      ensures var l := lists[own];
        elems.cells == old(elems.cells)[addr := Elem(At(l, FirstUntaken(old(elems.cells), l, 0)), false, TsMax, v)] &&
        tops.cells == old(tops.cells)[Ptr(own, topOff) := addr]
    {
      ghost var c0, l := elems.cells, lists[own];
      elems.Put(Elem(oldTop, false, TsMax, v), addr);
      tops.Put(addr, Ptr(own, topOff));
      assert IsChain(c0, oldTop, l);
      ChainFrame(c0, elems.cells, oldTop, l);
      var next := SkipTaken(l, 0, oldTop);
      FirstUntakenFrame(c0, elems.cells, l, 0);
      var e := elems.Get(addr);
      elems.Put(e.(next := next), addr);
    }

    /** push's last write: the new element gets its timestamp. */
    method SetStamp(addr: GPtr, ts: Timestamp)
      requires addr in elems.cells
      modifies elems
      ensures elems.cells == old(elems.cells)[addr := old(elems.cells)[addr].(ts := ts)]
    {
      var e := elems.Get(addr);
      elems.Put(e.(ts := ts), addr);
    }

    /**
     * The unlinking walk push and remove share: from `t`, the `k`th element
     * of `l`, past the taken elements, to the first untaken one or null.
     */
    method SkipTaken(ghost l: seq<GPtr>, ghost k: nat, t: GPtr) returns (r: GPtr)
      requires LinkedFrom(elems.cells, l, k) && t == At(l, k)
      ensures r == At(l, FirstUntaken(elems.cells, l, k))
    {
      ghost var q := k;
      r := t;
      while r != Null
        invariant k <= q <= |l| && r == At(l, q)
        invariant forall j :: k <= j < q ==> elems.cells[l[j]].taken
        decreases |l| - q
      {
        var e := elems.Get(r);
        if e.taken {
          r, q := e.next, q + 1;
        } else {
          break;
        }
      }
      FirstUntakenUnique(elems.cells, l, k, q);
    }

    /**
     * get_youngest: walking rank `i`'s list from `topAddr`, just read from
     * its top cell, the first untaken element, or null.
     */
    method GetYoungest(ghost i: nat, topAddr: GPtr) returns (r: GPtr)
      requires Valid() && i < nprocs && topAddr == tops.cells[Ptr(i, topOff)]
      ensures r == Candidate(elems.cells, lists[i])
      ensures r != Null ==> r in lists[i] && !elems.cells[r].taken
      ensures r == Null <==> Live(elems.cells, lists[i]) == []
    {
      ghost var l := lists[i];
      LiveFirst(elems.cells, l);
      ghost var k := 0;
      r := topAddr;
      while r != Null
        invariant k <= |l| && r == At(l, k)
        invariant forall j :: 0 <= j < k ==> elems.cells[l[j]].taken
        decreases |l| - k
      {
        var e := elems.Get(r);
        if !e.taken {
          FirstUntakenUnique(elems.cells, l, 0, k);
          return;
        }
        r, k := e.next, k + 1;
      }
      FirstUntakenUnique(elems.cells, l, 0, k);
    }

    /**
     * remove: `y` sits at `p` in rank `i`'s list below only taken elements,
     * and `topVal` is the top it was found under.  The CAS on `y`'s taken
     * flag fails when another pop took it; otherwise `y` is taken, becomes
     * the top, and links past the taken elements after it.
     */
    method Remove(ghost i: nat, ghost p: nat, topVal: GPtr, y: GPtr) returns (ok: bool, value: Option<T>)
      requires Valid() && i < nprocs && p < |lists[i]| && y == lists[i][p]
      requires forall j :: 0 <= j < p ==> elems.cells[lists[i][j]].taken
      requires topVal == tops.cells[Ptr(i, topOff)]
      modifies this, tops, elems
      ensures Valid()
      ensures ok == !old(elems.cells[y].taken)
      ensures !ok ==> value == None && elems.cells == old(elems.cells) && tops.cells == old(tops.cells) && lists == old(lists)
      ensures ok ==> Popped(old(elems.cells), old(tops.cells), old(lists), topOff, i, elems.cells, tops.cells, lists, value)
      ensures ok ==> Live(old(elems.cells), old(lists[i])) != [] && value == Some(Live(old(elems.cells), old(lists[i]))[0]) &&
                     Live(elems.cells, lists[i]) == Live(old(elems.cells), old(lists[i]))[1..]
      ensures forall j :: 0 <= j < nprocs && j != i ==> Live(elems.cells, lists[j]) == Live(old(elems.cells), old(lists[j]))
    {
      ghost var c0, t0, l := elems.cells, tops.cells, lists[i];
      var e := elems.Get(y);
      if e.taken {
        ok, value := false, None;
        return;
      }
      RemovePrep(c0, t0, lists, topOff, i, p);
      TakeAndLinkWrite(topVal, y);
      ghost var c2 := elems.cells;
      var ye := elems.Get(y);
      var t := SkipTaken(l, p + 1, ye.next);
      ghost var q := FirstUntaken(c2, l, p + 1);
      elems.Put(ye.(next := t), y);
      ye := elems.Get(y);
      ok, value := true, Some(ye.value);
      lists := lists[i := [y] + l[q..]];
      PoppedValues(c0, t0, old(lists), topOff, i, elems.cells, tops.cells, lists, value);
    }

    /**
     * remove's first writes: `y` is taken, the CAS moves the top of `y`'s
     * rank from `topVal` to `y`, and a different `topVal` links to `y`.
     */
    method TakeAndLinkWrite(topVal: GPtr, y: GPtr)
      requires y.Ptr? && y in elems.cells && (topVal != y ==> topVal in elems.cells)
      requires Ptr(y.rank, topOff) in tops.cells && tops.cells[Ptr(y.rank, topOff)] == topVal
      modifies tops, elems
      ensures elems.cells == TakeAndLink(old(elems.cells), topVal, y)
      ensures tops.cells == old(tops.cells)[Ptr(y.rank, topOff) := y]
    {
      var e := elems.Get(y);
      elems.Put(e.(taken := true), y);
      var prev := tops.Cas(Ptr(y.rank, topOff), topVal, y);
      if topVal != y {
        var te := elems.Get(topVal);
        elems.Put(te.(next := y), topVal);
      }
    }

    /**
     * try_rem's scan of the ranks in order: each top, then its candidate;
     * it stops at the first candidate stamped after `startTime`, and
     * otherwise keeps the last candidate stamped after the youngest so far.
     * `top` is the top read together with the candidate chosen.
     */
    method Scan(startTime: Timestamp) returns (c: Choice, top: GPtr, y: GPtr, emptyTops: seq<GPtr>)
      requires Valid()
      ensures c == Pick(elems.cells, lists, startTime, 0, TsMin, NoCandidate)
      ensures c == NoCandidate <==> y == Null
      ensures c != NoCandidate ==>
                c.rank < nprocs && top == tops.cells[Ptr(c.rank, topOff)] && y == Candidate(elems.cells, lists[c.rank])
      ensures c == NoCandidate ==>
                |emptyTops| == nprocs && forall j :: 0 <= j < nprocs ==> emptyTops[j] == tops.cells[Ptr(j, topOff)]
    {
      ghost var cells, ls, tcells := elems.cells, lists, tops.cells;
      var tsMax := TsMin;
      c, top, y, emptyTops := NoCandidate, Null, Null, [];
      var i := 0;
      while i < nprocs
        invariant Valid() && elems.cells == cells && lists == ls && tops.cells == tcells
        invariant i <= nprocs && |emptyTops| == i
        invariant forall j :: 0 <= j < i ==> emptyTops[j] == tcells[Ptr(j, topOff)]
        invariant ScanState(cells, ls, tcells, topOff, startTime, i, tsMax, c, top, y)
        invariant Pick(cells, ls, startTime, 0, TsMin, NoCandidate) == Pick(cells, ls, startTime, i, tsMax, c)
      {
        var topAddr, stop;
        topAddr, stop, c, top, y, tsMax := ScanRank(startTime, i, tsMax, c, top, y);
        // try_rem records the top only of ranks without a candidate
        emptyTops := emptyTops + [topAddr];
        if stop {
          return;
        }
        i := i + 1;
      }
    }

    /**
     * One rank of the scan: an elimination candidate stops it; a younger
     * candidate replaces the youngest so far.
     */
    method ScanRank(startTime: Timestamp, i: nat, tsMax: Timestamp, c: Choice, top: GPtr, y: GPtr)
      returns (topAddr: GPtr, stop: bool, c': Choice, top': GPtr, y': GPtr, tsMax': Timestamp)
      requires Valid() && i < nprocs
      requires ScanState(elems.cells, lists, tops.cells, topOff, startTime, i, tsMax, c, top, y)
      ensures topAddr == tops.cells[Ptr(i, topOff)]
      ensures stop ==>
                c' == Elimination(i) == Pick(elems.cells, lists, startTime, i, tsMax, c) &&
                top' == topAddr && y' == Candidate(elems.cells, lists[i]) != Null
      ensures !stop ==>
                ScanState(elems.cells, lists, tops.cells, topOff, startTime, i + 1, tsMax', c', top', y') &&
                Pick(elems.cells, lists, startTime, i, tsMax, c) == Pick(elems.cells, lists, startTime, i + 1, tsMax', c')
    {
      var temp, ts;
      topAddr, temp, ts := LookAt(i);
      PickRank(elems.cells, lists, startTime, i, tsMax, c, temp, ts);
      stop, c', top', y', tsMax' := false, c, top, y, tsMax;
      if temp != Null {
        if Before(startTime, ts) {
          stop, c', top', y' := true, Elimination(i), topAddr, temp;
        } else if Before(tsMax, ts) {
          c', top', y', tsMax' := YoungestOf(i), topAddr, temp, ts;
        }
      }
    }

    /** One rank of the scan: its top, its candidate and the candidate's timestamp. */
    method LookAt(i: nat) returns (topAddr: GPtr, temp: GPtr, ts: Timestamp)
      requires Valid() && i < nprocs
      ensures topAddr == tops.cells[Ptr(i, topOff)]
      ensures temp == Candidate(elems.cells, lists[i])
      ensures temp != Null ==> ts == Stamp(elems.cells, lists[i])
    {
      topAddr := tops.Get(Ptr(i, topOff));
      temp := GetYoungest(i, topAddr);
      ts := TsMin;
      if temp != Null {
        var tempVal := elems.Get(temp);
        ts := tempVal.ts;
      }
    }

    /**
     * try_rem: the scan's choice is removed with the top read with it.
     * With no candidate at all, every top is re-read: unchanged tops mean
     * EMPTY, and a changed one means failure and a retry.
     */
    method TryRem(startTime: Timestamp) returns (done: bool, empty: bool, value: Option<T>)
      requires Valid()
      modifies this, tops, elems
      ensures Valid() && done
      ensures TryRemPost(old(elems.cells), old(tops.cells), old(lists), topOff, startTime,
                         elems.cells, tops.cells, lists, empty, value)
    {
      var c, top, youngest, emptyTops := Scan(startTime);
      if youngest == Null {
        value := None;
        var same := true;
        var i := 0;
        while i < nprocs
          invariant elems.cells == old(elems.cells) && tops.cells == old(tops.cells) && lists == old(lists)
          invariant i <= nprocs
          invariant same <==> forall j :: 0 <= j < i ==> tops.cells[Ptr(j, topOff)] == emptyTops[j]
        {
          var topAddr := tops.Get(Ptr(i, topOff));
          same := same && topAddr == emptyTops[i];
          i := i + 1;
        }
        done, empty := same, same;
        return;
      }
      done, value := Remove(c.rank, FirstUntaken(elems.cells, lists[c.rank], 0), top, youngest);
      empty := false;
    }

    /**
     * pop: a new timestamp, then try_rem until it succeeds.  The result is
     * NON_EMPTY (true) unless try_rem found every rank empty.
     */
    method Pop() returns (nonEmpty: bool, value: Option<T>, startTime: Timestamp)
      requires Valid()
      modifies this, tops, elems, tim.clocks
      ensures Valid()
      ensures Stamped(old(tim.clocks.cells), tim.clocks.cells, own, nprocs, tim.clockOff, startTime)
      ensures TryRemPost(old(elems.cells), old(tops.cells), old(lists), topOff, startTime,
                         elems.cells, tops.cells, lists, !nonEmpty, value)
    {
      startTime := tim.GetNewTS();
      ghost var c0, t0, l0, k0 := elems.cells, tops.cells, lists, tim.clocks.cells;
      var done, empty := false, false;
      value := None;
      while !done
        invariant Valid() && tim.clocks.cells == k0
        invariant !done ==> elems.cells == c0 && tops.cells == t0 && lists == l0
        invariant done ==> TryRemPost(c0, t0, l0, topOff, startTime, elems.cells, tops.cells, lists, empty, value)
        decreases if done then 0 else 1
      {
        done, empty, value := TryRem(startTime);
      }
      nonEmpty := !empty;
    }
  }
}
