/**
 * `create_prices`: one price record per inventory row whose code is in the
 * offer id list, in row order, with fixed currency, old price and
 * auto-action fields. The list is only read.
 */
module Prices {
  import opened Decimal
  import opened PriceText
  import opened Records
  import opened Offers

  /** The record a listed row produces. */
  function PriceOf(row: Row): PriceRecord {
    PriceRecord("UNKNOWN", "RUB", row.code, "0", PriceConversion(row.price))
  }

  /** `create_prices(rows, ids)` as a value. */
  function PricesOf(rows: seq<Row>, ids: seq<string>): seq<PriceRecord>
  {
    if rows == [] then []
    else
      var last := rows[|rows| - 1];
      PricesOf(rows[..|rows| - 1], ids) + (if last.code in ids then [PriceOf(last)] else [])
  }

  method CreatePrices(rows: seq<Row>, offers: OfferList) returns (prices: seq<PriceRecord>)
    ensures prices == PricesOf(rows, offers.ids)
  {
    prices := [];
    for i := 0 to |rows|
      invariant prices == PricesOf(rows[..i], offers.ids)
    {
      var watch := rows[i];
      assert rows[..i + 1][..i] == rows[..i];
      if watch.code in offers.ids {
        prices := prices + [PriceOf(watch)];
      }
    }
    assert rows[..|rows|] == rows;
  }

  /** Every record carries the fixed fields, a listed id and a digits-only price. */
  lemma {:induction false} PricesFields(rows: seq<Row>, ids: seq<string>)
    ensures forall p :: p in PricesOf(rows, ids) ==>
              && p.autoAction == "UNKNOWN"
              && p.currency == "RUB"
              && p.oldPrice == "0"
              && p.offerId in ids
              && AllDigits(p.price)
  {
    if rows != [] {
      var init := rows[..|rows| - 1];
      PricesFields(init, ids);
    }
  }

  /** Rows are handled one at a time and in order: the builder distributes over concatenation. */
  lemma {:induction false} PricesConcat(a: seq<Row>, b: seq<Row>, ids: seq<string>)
    ensures PricesOf(a + b, ids) == PricesOf(a, ids) + PricesOf(b, ids)
  {
    if b == [] {
      assert a + b == a;
    } else {
      assert (a + b)[..|a + b| - 1] == a + b[..|b| - 1];
      PricesConcat(a, b[..|b| - 1], ids);
    }
  }

  /** One row gives one record when its code is listed and none otherwise. */
  lemma PricesOfOneRow(row: Row, ids: seq<string>)
    ensures PricesOf([row], ids) == if row.code in ids then [PriceOf(row)] else []
  {
    assert [row][..0] == [];
  }

  /**
   * A listed id gets one record per row that carries it (duplicate rows give
   * duplicate records); an unlisted id gets none.
   */
  lemma {:induction false} PricesCount(rows: seq<Row>, ids: seq<string>, c: string)
    ensures multiset(PriceIds(PricesOf(rows, ids)))[c] == if c in ids then multiset(Codes(rows))[c] else 0
  {
    if rows != [] {
      var init, last := rows[..|rows| - 1], rows[|rows| - 1];
      PricesCount(init, ids, c);
      var prev := PricesOf(init, ids);
      assert Codes(rows) == Codes(init) + [last.code];
      if last.code in ids {
        assert (prev + [PriceOf(last)])[..|prev|] == prev;
        assert PriceIds(prev + [PriceOf(last)]) == PriceIds(prev) + [last.code];
      } else {
        assert PricesOf(rows, ids) == prev + [] == prev;
      }
    }
  }

  /** When every row's code is listed there is exactly one record per row. */
  lemma {:induction false} PricesAllListed(rows: seq<Row>, ids: seq<string>)
    requires forall i :: 0 <= i < |rows| ==> rows[i].code in ids
    ensures |PricesOf(rows, ids)| == |rows|
  {
    if rows != [] {
      PricesAllListed(rows[..|rows| - 1], ids);
    }
  }

  /** When no row's code is listed there are no records at all. */
  lemma {:induction false} PricesNoneListed(rows: seq<Row>, ids: seq<string>)
    requires forall i :: 0 <= i < |rows| ==> rows[i].code !in ids
    ensures PricesOf(rows, ids) == []
  {
    if rows != [] {
      PricesNoneListed(rows[..|rows| - 1], ids);
    }
  }
}
