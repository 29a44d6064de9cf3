/**
 * The unbounded multi-producer single-consumer pool dang5 hands freed
 * elements back through.  Its declaration is not part of this model; what
 * the manager relies on is kept: the pool hosted on a rank collects the
 * headers of every batch any rank puts, and get hands all collected headers
 * to the host, reporting whether there were any.  The pool is a sequence
 * of headers, oldest batch first.
 */
module PoolUbdMpsc {
  import opened GlobalPtr
  import opened Block

  class Pool {
    const host: nat             // the rank whose elements the pool collects
    var items: seq<GPtr>        // headers put and not yet got

    ghost predicate Valid()
      reads this
    {
      forall x :: x in items ==> x.Ptr?
    }

    /** pool_ubd_mpsc(host): an empty pool. */
    constructor (host: nat)
      ensures this.host == host && items == [] && Valid()
    {
      this.host := host;
      items := [];
    }

    /** put: the headers of the batch join the pool behind those already there. */
    method Put(vals: seq<GPtr>)
      requires Elements(vals)
      requires Valid()
      modifies this
      ensures Valid() && items == old(items) + Headers(vals)
    {
      items := items + Headers(vals);
    }

    /** get: true and every collected header when there are any, else false. */
    method Get() returns (ok: bool, slist: seq<GPtr>)
      requires Valid()
      modifies this
      ensures Valid() && items == []
      ensures ok <==> old(items) != []
      ensures slist == old(items) && forall x :: x in slist ==> x.Ptr?
    {
      ok, slist := items != [], items;
      items := [];
    }
  }
}
