/**
 * Runs of global pointers kept one after another: the per-rank buffers of
 * freed elements, the batches waiting in a queue, the runs a drain gains.
 * What every manager that routes freed elements needs of them is how their
 * contents change when one run is appended or replaced.
 */
module Batching {
  import opened GlobalPtr

  type Batches = seq<seq<GPtr>>

  /** All addresses of a sequence of batches, in order. */
  function Flatten(b: Batches): seq<GPtr> {
    if b == [] then [] else b[0] + Flatten(b[1..])
  }

  lemma {:induction false} FlattenAppend(b: Batches, x: seq<GPtr>)
    ensures Flatten(b + [x]) == Flatten(b) + x
  {
    if b == [] {
      assert [] + [x] == [x];
    } else {
      assert (b + [x])[1..] == b[1..] + [x];
      FlattenAppend(b[1..], x);
    }
  }

  /** Taking one more batch of a sequence appends it. */
  lemma FlattenPrefix(b: Batches, i: nat)
    requires i < |b|
    ensures Flatten(b[..i + 1]) == Flatten(b[..i]) + b[i]
  {
    assert b[..i + 1] == b[..i] + [b[i]];
    FlattenAppend(b[..i], b[i]);
  }

  /** Replacing one batch changes the flattened contents by exactly that batch. */
  lemma {:induction false} FlattenUpdate(b: Batches, r: nat, x: seq<GPtr>)
    requires r < |b|
    ensures multiset(Flatten(b[r := x])) + multiset(b[r]) == multiset(Flatten(b)) + multiset(x)
  {
    var b1 := b[r := x];
    assert Flatten(b) == b[0] + Flatten(b[1..]);
    assert Flatten(b1) == b1[0] + Flatten(b1[1..]);
    if r > 0 {
      assert b1[0] == b[0];
      assert b1[1..] == b[1..][r - 1 := x];
      assert b[1..][r - 1] == b[r];
      FlattenUpdate(b[1..], r - 1, x);
      assert multiset(Flatten(b1)) == multiset(b[0]) + multiset(Flatten(b[1..][r - 1 := x]));
      assert multiset(Flatten(b)) == multiset(b[0]) + multiset(Flatten(b[1..]));
      Shuffle(multiset(b[0]), multiset(Flatten(b[1..][r - 1 := x])), multiset(b[r]),
              multiset(Flatten(b[1..])), multiset(x));
    } else {
      assert b1[1..] == b[1..];
    }
  }

  lemma Shuffle(a: multiset<GPtr>, c: multiset<GPtr>, d: multiset<GPtr>, e: multiset<GPtr>, f: multiset<GPtr>)
    requires c + d == e + f
    ensures (a + c) + d == (a + e) + f
  {
    assert forall y :: ((a + c) + d)[y] == a[y] + (c + d)[y];
  }

  /** What leaves (x) one part and joins another, with y, adds y to the whole. */
  lemma Regroup(a: multiset<GPtr>, x: multiset<GPtr>, b: multiset<GPtr>, e1: multiset<GPtr>, e: multiset<GPtr>, y: multiset<GPtr>)
    requires a + x == b && e1 == e + x + y
    ensures a + e1 == b + e + y
  {
    forall z ensures (a + e1)[z] == (b + e + y)[z] {
      assert (a + x)[z] == b[z];
    }
  }

  lemma Cancel(a: multiset<GPtr>, x: multiset<GPtr>, b: multiset<GPtr>, y: multiset<GPtr>)
    requires a + x == b + (x + y)
    ensures a == b + y
  {
    forall z ensures a[z] == (b + y)[z] {
      assert (a + x)[z] == (b + (x + y))[z];
    }
  }
}
