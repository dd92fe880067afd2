/** The seller's offer ids as a Python list that callers share and mutate. */
module Offers {
  import opened Seqs

  class OfferList {
    var ids: seq<string>

    constructor (initial: seq<string>)
      ensures ids == initial
    {
      ids := initial;
    }

    /** `ids.remove(id)`; Python raises ValueError when id is absent. */
    method Remove(id: string)
      requires id in ids
      modifies this
      ensures ids == RemoveFirst(old(ids), id)
    {
      var k := 0;
      while ids[k] != id
        invariant k <= FirstIndex(ids, id)
        decreases |ids| - k
      {
        k := k + 1;
      }
      ids := ids[..k] + ids[k + 1..];
    }
  }
}
