/** The values that flow between the supplier spreadsheet and the seller API. */
module Records {

  /**
   * One spreadsheet row, with the three cells the builders read ("Код",
   * "Количество", "Цена") already passed through `str`.
   */
  datatype Row = Row(code: string, qty: string, price: string)

  /** `{"offer_id": ..., "stock": ...}` */
  datatype StockRecord = StockRecord(offerId: string, stock: int)

  /** `{"auto_action_enabled", "currency_code", "offer_id", "old_price", "price"}` */
  datatype PriceRecord = PriceRecord(
    autoAction: string, currency: string, offerId: string, oldPrice: string, price: string)

  /** The code column of a run of rows. */
  function Codes(rows: seq<Row>): (cs: seq<string>)
    ensures |cs| == |rows|
  {
    if rows == [] then [] else Codes(rows[..|rows| - 1]) + [rows[|rows| - 1].code]
  }

  /** The offer_id column of a run of stock records. */
  function StockIds(stocks: seq<StockRecord>): (ids: seq<string>)
    ensures |ids| == |stocks|
  {
    if stocks == [] then [] else StockIds(stocks[..|stocks| - 1]) + [stocks[|stocks| - 1].offerId]
  }

  /** The offer_id column of a run of price records. */
  function PriceIds(prices: seq<PriceRecord>): (ids: seq<string>)
    ensures |ids| == |prices|
  {
    if prices == [] then [] else PriceIds(prices[..|prices| - 1]) + [prices[|prices| - 1].offerId]
  }

  lemma {:induction false} CodesAt(rows: seq<Row>, i: nat)
    requires i < |rows|
    ensures Codes(rows)[i] == rows[i].code
  {
    if i < |rows| - 1 {
      CodesAt(rows[..|rows| - 1], i);
    }
  }

  lemma {:induction false} StockIdsConcat(a: seq<StockRecord>, b: seq<StockRecord>)
    ensures StockIds(a + b) == StockIds(a) + StockIds(b)
  {
    if b == [] {
      assert a + b == a;
    } else {
      assert (a + b)[..|a + b| - 1] == a + b[..|b| - 1];
      StockIdsConcat(a, b[..|b| - 1]);
    }
  }
}
