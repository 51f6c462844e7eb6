/** Update-id classification (internal/book/sequence.go). */
module Sequencing {
  import opened MarketModel

  datatype Class = Stale | Contiguous | Gapped

  /** How an anchored sequencer at `last` classifies the id range of `d`. */
  function Classify(last: int, d: BookDelta): (c: Class)
    ensures c == Stale <==> d.lastId <= last
    ensures c == Contiguous <==> d.firstId - 1 <= last < d.lastId
    ensures c == Gapped <==> last < d.lastId && last < d.firstId - 1
  {
    if d.lastId <= last then Stale
    else if d.firstId <= last + 1 then Contiguous
    else Gapped
  }

  const MIN_INT64 := -0x8000_0000_0000_0000
  const MAX_INT64 := 0x7fff_ffff_ffff_ffff

  ghost predicate InInt64(x: int) {
    MIN_INT64 <= x <= MAX_INT64
  }

  class Sequencer {
    var last: int
    var synced: bool

    constructor ()
      ensures last == 0 && !synced
    {
      last, synced := 0, false;
    }

    method Reset(id: int)
      modifies this
      ensures last == id && synced
    {
      last, synced := id, true;
    }

    /** Next: classify `d` and advance.  The position only ever moves forward,
    over a contiguous delta; a gap loses the anchor and keeps the position. */
    method Next(d: BookDelta) returns (c: Class)
      modifies this
      ensures c == if old(synced) then Classify(old(last), d) else Gapped
      ensures last == if c == Contiguous then d.lastId else old(last)
      ensures synced == (c != Gapped)
      ensures old(last) <= last
    {
      if !synced {
        return Gapped;
      }
      if d.lastId <= last {
        return Stale;
      }
      // The sum below cannot wrap: a position with a larger id above it is not the maximum.
      assert InInt64(last) && InInt64(d.lastId) ==> InInt64(last + 1);
      if d.firstId <= last + 1 {
        last := d.lastId;
        return Contiguous;
      }
      synced := false;
      return Gapped;
    }

    method Invalidate()
      modifies this
      ensures !synced && last == old(last)
    {
      synced := false;
    }
  }
}
