/**
 * The compute path of `main`: build the stock records (which empties the
 * shared offer id list of every matched id), push them in batches of 100,
 * then build the price records from that same list and push them in
 * batches of 900. The marketplace is reduced to the batches it receives.
 */
module Sync {
  import opened Seqs
  import opened Records
  import opened Offers
  import opened Stocks
  import opened Prices
  import opened Batches
  import opened PriceText

  /** Records per `update_stocks` call. */
  const StockBatch: nat := 100
  /** Records per `update_price` call on the path `main` takes. */
  const PriceBatch: nat := 900

  /** The seller API as seen by one run: the batches each endpoint received, in call order. */
  class Marketplace {
    var stockCalls: seq<seq<StockRecord>>
    var priceCalls: seq<seq<PriceRecord>>

    constructor ()
      ensures stockCalls == [] && priceCalls == []
    {
      stockCalls, priceCalls := [], [];
    }

    /** `update_stocks(stocks, ...)`: one POST of one batch. */
    method UpdateStocks(batch: seq<StockRecord>)
      modifies this
      ensures stockCalls == old(stockCalls) + [batch]
      ensures priceCalls == old(priceCalls)
    {
      stockCalls := stockCalls + [batch];
    }

    /** `update_price(prices, ...)`: one POST of one batch. */
    method UpdatePrice(batch: seq<PriceRecord>)
      modifies this
      ensures priceCalls == old(priceCalls) + [batch]
      ensures stockCalls == old(stockCalls)
    {
      priceCalls := priceCalls + [batch];
    }

    /** `for chunk in list(divide(stocks, 100)): update_stocks(chunk, ...)` */
    method UploadStocks(stocks: seq<StockRecord>)
      modifies this
      ensures stockCalls == old(stockCalls) + Divide(stocks, StockBatch)
      ensures priceCalls == old(priceCalls)
    {
      var batches := Divide(stocks, StockBatch);
      for i := 0 to |batches|
        invariant stockCalls == old(stockCalls) + batches[..i]
        invariant priceCalls == old(priceCalls)
      {
        UpdateStocks(batches[i]);
        assert batches[..i + 1] == batches[..i] + [batches[i]];
      }
      assert batches[..|batches|] == batches;
    }

    /** `for chunk in list(divide(prices, 900)): update_price(chunk, ...)` */
    method UploadPrices(prices: seq<PriceRecord>)
      modifies this
      ensures priceCalls == old(priceCalls) + Divide(prices, PriceBatch)
      ensures stockCalls == old(stockCalls)
    {
      var batches := Divide(prices, PriceBatch);
      for i := 0 to |batches|
        invariant priceCalls == old(priceCalls) + batches[..i]
        invariant stockCalls == old(stockCalls)
      {
        UpdatePrice(batches[i]);
        assert batches[..i + 1] == batches[..i] + [batches[i]];
      }
      assert batches[..|batches|] == batches;
    }
  }

  /**
   * `main` between fetching and reporting, as written. A quantity that `int`
   * rejects raises before anything is sent; the handler only reports it.
   * Otherwise the price records are built from the list `create_stocks`
   * has already emptied of every matched id.
   */
  method Run(rows: seq<Row>, offers: OfferList, api: Marketplace)
    modifies offers, api
    ensures StocksOf(rows, old(offers.ids)).None? ==>
      api.stockCalls == old(api.stockCalls) && api.priceCalls == old(api.priceCalls)
    ensures StocksOf(rows, old(offers.ids)).Some? ==>
      && offers.ids == Leftover(rows, old(offers.ids))
      && api.stockCalls == old(api.stockCalls) + Divide(StocksOf(rows, old(offers.ids)).value, StockBatch)
      && api.priceCalls == old(api.priceCalls) + Divide(PricesOf(rows, Leftover(rows, old(offers.ids))), PriceBatch)
  {
    var stocks := CreateStocks(rows, offers);
    if stocks.None? {
      return;
    }
    api.UploadStocks(stocks.value);
    var prices := CreatePrices(rows, offers);
    api.UploadPrices(prices);
  }

  /**
   * The same run with the price records built from the catalog as fetched:
   * the list is copied before `create_stocks` consumes it.
   */
  method RunCorrected(rows: seq<Row>, offers: OfferList, api: Marketplace)
    modifies offers, api
    ensures StocksOf(rows, old(offers.ids)).None? ==>
      api.stockCalls == old(api.stockCalls) && api.priceCalls == old(api.priceCalls)
    ensures StocksOf(rows, old(offers.ids)).Some? ==>
      && offers.ids == Leftover(rows, old(offers.ids))
      && api.stockCalls == old(api.stockCalls) + Divide(StocksOf(rows, old(offers.ids)).value, StockBatch)
      && api.priceCalls == old(api.priceCalls) + Divide(PricesOf(rows, old(offers.ids)), PriceBatch)
  {
    var catalog := new OfferList(offers.ids);
    var stocks := CreateStocks(rows, offers);
    if stocks.None? {
      return;
    }
    api.UploadStocks(stocks.value);
    var prices := CreatePrices(rows, catalog);
    api.UploadPrices(prices);
  }

  /**
   * As written, a catalog that names each offer once never gets a price
   * update: every id a row mentions was removed by `create_stocks`, so no
   * row is still listed when `create_prices` runs.
   */
  lemma MainPricesAlwaysEmpty(rows: seq<Row>, ids: seq<string>)
    requires Distinct(ids)
    ensures PricesOf(rows, Leftover(rows, ids)) == []
  {
    var left := Leftover(rows, ids);
    LeftoverOfDistinct(rows, ids);
    forall i | 0 <= i < |rows| ensures rows[i].code !in left {
      CodesAt(rows, i);
      assert rows[i].code in Codes(rows);
    }
    PricesNoneListed(rows, left);
  }

  /** One listed row with a price: the corrected run prices it, the run as written does not. */
  lemma MainPricesExample(row: Row)
    requires row == Row("A", "5", "5'990.00 руб.")
    ensures PricesOf([row], Leftover([row], ["A"])) == []
    ensures PricesOf([row], ["A"]) == [PriceRecord("UNKNOWN", "RUB", "A", "0", "5990")]
  {
    MainPricesAlwaysEmpty([row], ["A"]);
    PricesOfOneRow(row, ["A"]);
    PriceConversionApostrophe(row.price);
  }

  /**
   * After the corrected run, every catalog id that the spreadsheet lists
   * has been sent once per row carrying it, and no other id was sent.
   */
  lemma CorrectedPricesSent(rows: seq<Row>, ids: seq<string>, c: string)
    ensures multiset(PriceIds(Flatten(Divide(PricesOf(rows, ids), PriceBatch))))[c]
         == if c in ids then multiset(Codes(rows))[c] else 0
  {
    PricesCount(rows, ids, c);
  }

  /**
   * The batch sizes for 1500 records: 15 stock batches of 100, and two
   * price batches of 900 and 600.
   */
  lemma BatchScenario<T>(s: seq<T>)
    requires |s| == 1500
    ensures |Divide(s, StockBatch)| == 15
    ensures |Divide(s, PriceBatch)| == 2
    ensures |Divide(s, PriceBatch)[0]| == 900 && |Divide(s, PriceBatch)[1]| == 600
  {
    DivideCount(s, StockBatch);
    DivideCount(s, PriceBatch);
    DivideChunk(s, PriceBatch, 1);
  }
}
