# Ozon stock and price sync: the record-building layer

`seller.py` keeps an Ozon seller account in step with a watch supplier's
stock file. It fetches the seller's offer ids, downloads the supplier's
spreadsheet, turns the rows into stock records and price records, and posts
them to the seller API in batches. This project models the part between the
parsed spreadsheet rows and the API payloads, and proves what it computes:

- `PriceText`: `price_conversion`. It keeps the text before the first `.`
  and deletes every character that is not an ASCII digit.
- `Batches`: `divide`, the generator that yields `lst[i : i + n]` for `i` in
  `range(0, len(lst), n)`.
- `Stocks`: `create_stocks` and the `not_empty` filter of `upload_stocks`.
  The quantity policy is `">10"` → 100, `"1"` → 0, anything else through
  `int`. The caller's offer id list is changed in place: one `list.remove`
  per matched row.
- `Prices`: `create_prices`, with fixed `"UNKNOWN"`, `"RUB"` and `"0"` fields.
- `Offers`: the offer id list shared by `main`, `create_stocks` and
  `create_prices`, as a class whose `ids` field `Remove` changes.
- `Sync`: the compute path of `main`. Each `update_stocks` / `update_price`
  call appends its batch to a `Marketplace` object.
- `Decimal`, `Seqs`, `Records`, `Wrappers`: digits and the accepted subset of
  `int`, list helpers (`list.remove`, order), the record types, `Option`.

Spreadsheet rows are taken as `Row(code, qty, price)`, three strings (the
code already applies `str` to the cells it compares). A quantity that `int`
rejects is `None`: `create_stocks` then raises `ValueError`, and `main`'s
handler reports it before anything has been uploaded.

Where the doc comments and the code disagree, the model follows the code:

- `divide([], n)` yields no chunk. The doc comment shows `[[]]`, but the
  `range(0, 0, n)` loop never runs.
- `price_conversion("12 345,00 руб.")` is `"1234500"`. The doc comment shows
  `'12345'`, but the comma is deleted like any other non-digit, so the
  kopecks stay in the result.
- Price batches are 900 records, as on `main`'s path. `upload_prices` uses
  1000, but it is not part of this model.

## Model

| member | source | states |
|---|---|---|
| `PriceText.PriceConversion` | seller.py:207-233 | the result has only ASCII digits and no `.` |
| `PriceText.PriceConversionUpToDot` | seller.py:233 | the result is the digits of `s[..k]`, in order, where `k` is the position of the first `.` (or the length when there is none) |
| `PriceText.PriceConversionSplit` | seller.py:233 | nothing after the first `.` affects the result |
| `PriceText.KeepDigitsCounts` | seller.py:233 | the digit filter keeps every digit exactly as often as it occurs and drops every other character |
| `PriceText.KeepDigitsConcat` | seller.py:233 | the digit filter keeps the order of the input |
| `PriceText.PriceConversionIdempotent` | seller.py:207-233 | converting a converted price changes nothing |
| `PriceText.PriceConversionLeadingDot` | seller.py:227-233 | a price that starts with `.` converts to the empty string |
| `PriceText.PriceConversionApostrophe` | seller.py:220-223 | `"5'990.00 руб."` converts to `"5990"` |
| `PriceText.PriceConversionKeepsCommaCents` | seller.py:224-225 | a comma is deleted, not read as a decimal separator: the digits after it stay in the result |
| `PriceText.PriceConversionComma` | seller.py:224-225 | `"12 345,00 руб."` converts to `"1234500"`, not the `'12345'` the doc comment shows |
| `Decimal.ParseFormatInt` | seller.py:183 | `int` reads back every integer `str` writes |
| `Decimal.ParseIntRejectsNonDigit` | seller.py:183 | a character other than a digit or a leading `-` makes `int` fail |
| `Batches.Divide` | seller.py:236-254 | the chunks concatenate back to the list; every chunk holds 1 to `n` elements; every chunk but the last holds exactly `n` |
| `Batches.DivideChunk` | seller.py:253-254 | chunk `k` is the slice `lst[k*n : k*n + n]`, clipped at the end of the list |
| `Batches.DivideCount` | seller.py:253 | there are ceil(len / n) chunks |
| `Batches.DivideEmpty` | seller.py:250-254 | only the empty list yields no chunk |
| `Offers.OfferList.Remove` | seller.py:185 | the list loses exactly the first occurrence of the id |
| `Stocks.QuantityPolicy` | seller.py:177-183 | `">10"` gives 100, a written `"1"` gives 0, any other written integer gives itself |
| `Stocks.CreateStocks` | seller.py:172-189 | the records are the specification `StocksOf`; on success the caller's list holds exactly the leftover ids; on failure some listed row's quantity is rejected and the list holds the ids left before it |
| `Stocks.FailureAborts` | seller.py:183 | one listed row whose quantity `int` rejects makes the whole call fail |
| `Stocks.StocksShape` | seller.py:174-189 | one record per listed id, with the same multiset of ids; the matched rows come first, in row order, with their resolved quantities; then the leftover ids in list order with stock 0 |
| `Stocks.LeftoverAccounting` | seller.py:175-185 | each listed id is either still listed or was taken by exactly one matched row |
| `Stocks.MatchedCount` | seller.py:175-185 | a code is matched min(rows carrying it, times it is listed) times |
| `Stocks.MatchedIffEarlier` | seller.py:175-185 | row i makes a record exactly when fewer earlier rows carry its code than the list holds copies of it: the earliest rows with a code match, and later ones are skipped once line 185 has removed every copy |
| `Stocks.MatchedInRowOrder` | seller.py:175-184 | matched rows keep the spreadsheet order |
| `Stocks.LeftoverOfDistinct` | seller.py:185-188 | when each id is listed once, the leftover ids are exactly the ids no row mentions, in list order |
| `Stocks.CatalogPrefixMatches` | seller.py:175-185 | rows that name the first catalog ids in catalog order all match, and the rest of the catalog is left over |
| `Stocks.CatalogExample` | seller.py:172-189 | rows A `">10"`, B `"1"`, C `"3"` against ids A, B, C, D give stocks 100, 0, 3 and then 0 for D |
| `Stocks.NotEmpty` | seller.py:270 | the kept records all have a non-zero stock and keep their order |
| `Stocks.NotEmptyCount` | seller.py:270 | every record with a non-zero stock is kept as often as it occurs; no other record is kept |
| `Prices.CreatePrices` | seller.py:192-204 | the records are the specification `PricesOf`; the id list is only read |
| `Prices.PricesFields` | seller.py:196-202 | every record has `"UNKNOWN"`, `"RUB"` and old price `"0"`, a listed id and a digits-only price |
| `Prices.PricesCount` | seller.py:194-203 | a listed id gets one record per row carrying it; an unlisted id gets none |
| `Prices.PricesConcat` | seller.py:194-203 | rows are handled one at a time, in order |
| `Prices.PricesOfOneRow` | seller.py:195-203 | one row gives its record when its code is listed, and nothing otherwise |
| `Prices.PricesAllListed` | seller.py:194-203 | when every row is listed there is one record per row |
| `Prices.PricesNoneListed` | seller.py:194-203 | when no row is listed there are no records |
| `Sync.Marketplace.UpdateStocks` | seller.py:111-137 | one stock batch is sent and nothing else changes |
| `Sync.Marketplace.UpdatePrice` | seller.py:82-108 | one price batch is sent and nothing else changes |
| `Sync.Marketplace.UploadStocks` | seller.py:283-284 | the stock records are sent as the chunks of 100, in order |
| `Sync.Marketplace.UploadPrices` | seller.py:287-288 | the price records are sent as the chunks of 900, in order |
| `Sync.Run` | seller.py:278-288 | a rejected quantity sends nothing; otherwise the stocks go out in chunks of 100, the list is left with the leftover ids, and the prices built from that list go out in chunks of 900 |
| `Sync.MainPricesAlwaysEmpty` | seller.py:282-286 | with each id listed once, the prices `main` builds are always empty |
| `Sync.MainPricesExample` | seller.py:282-286 | one listed row priced `"5'990.00 руб."` gets no price record as written, and the record with `"5990"` when the catalog is kept |
| `Sync.RunCorrected` | seller.py:278-288 | as `Run`, but the prices are built from the catalog as fetched |
| `Sync.CorrectedPricesSent` | seller.py:286-288 | after the corrected run every listed id was sent once per row carrying it, and no other id was sent |
| `Sync.BatchScenario` | seller.py:283-287 | 1500 records make 15 stock batches and two price batches of 900 and 600 |

## Findings

| source | as written | input that shows it | evidently intended | confidence | as-written member | corrected member |
|---|---|---|---|---|---|---|
| seller.py:282-286 | `create_prices` receives the list that `create_stocks` has already emptied of every matched id | one row `A` priced `"5'990.00 руб."` and catalog `["A"]`: no price record is built | prices for every catalog id the spreadsheet lists, as `upload_prices` builds them from a freshly fetched list | high, not executed | `Sync.MainPricesAlwaysEmpty` | `Sync.RunCorrected` |

## Left out

- `get_product_list`, `update_price`, `update_stocks`: HTTP calls. The two updates are reduced to appending their batch to `Marketplace`. Their HTTP errors, and the partial uploads an error leaves behind, are not modelled.
- `get_offer_ids`: paginated network loop that stops only when the API's `total` is reached. The offer id list is an input of the model.
- `download_stock`: zip download, extraction, `pandas.read_excel` with 17 header rows, file removal. Rows are inputs, already read as strings; pandas cell types and `str(None)` for a missing cell are not modelled.
- `upload_prices` and `upload_stocks`: network wrappers, including the price batch size of 1000. Only `upload_stocks`'s `not_empty` filter is modelled (`Stocks.NotEmpty`).
- `main`: reading `SELLER_TOKEN` and `CLIENT_ID`, and the messages printed for timeouts, connection errors and other exceptions. `Sync.Run` stops where the exception would be raised.
- `Stocks.Quantity`: Python's `int` also accepts surrounding whitespace, a leading `+` and `_` between digits. The model accepts only an optional `-` followed by ASCII digits and treats every other string as a failure.
- `Stocks.Quantity`: a numeric cell, which `int` would take without going through `str`, is not modelled. Every cell is a string.
- `Batches.Divide`: requires `n > 0`. Python raises `ValueError` for a step of 0 and yields nothing for a negative one. The callers pass 100 and 900.
- `PriceText.PriceConversion`: the `TypeError` and `AttributeError` for non-string input cannot occur, because the price cell is a string here.
