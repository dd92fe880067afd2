/**
 * `create_stocks`: one stock record per inventory row whose code is still in
 * the caller's offer id list (removing that id), then stock 0 for every id
 * left over. The list is the caller's own and is changed in place.
 */
module Stocks {
  import opened Wrappers
  import opened Decimal
  import opened Seqs
  import opened Records
  import opened Offers

  /** The quantity policy: ">10" is 100, "1" is 0, anything else goes through `int`. */
  function Quantity(qty: string): Option<int>
  {
    if qty == ">10" then Some(100) else if qty == "1" then Some(0) else ParseInt(qty)
  }

  /**
   * The policy on every count the spreadsheet can spell: ">10" is 100, a
   * written "1" is 0, and any other integer is taken as written.
   */
  lemma QuantityPolicy(n: int)
    ensures Quantity(">10") == Some(100)
    ensures Quantity(FormatInt(n)) == Some(if n == 1 then 0 else n)
  {
    ParseFormatInt(n);
    assert ParseInt(">10") == None by {
      ParseIntRejectsNonDigit(">10", 0);
    }
    assert ParseInt("1") == Some(1) by {
      assert "1"[..0] == "";
    }
  }

  /** The id list once the first loop has seen `rows`: one removal per matched row. */
  function Leftover(rows: seq<Row>, ids: seq<string>): seq<string>
  {
    if rows == [] then ids
    else
      var before := Leftover(rows[..|rows| - 1], ids);
      var code := rows[|rows| - 1].code;
      if code in before then RemoveFirst(before, code) else before
  }

  /** The rows the first loop turns into records: those whose code is still listed when reached. */
  function MatchedRows(rows: seq<Row>, ids: seq<string>): seq<Row>
  {
    if rows == [] then []
    else
      var init := rows[..|rows| - 1];
      MatchedRows(init, ids) + (if rows[|rows| - 1].code in Leftover(init, ids) then [rows[|rows| - 1]] else [])
  }

  predicate Resolvable(rows: seq<Row>) {
    forall i :: 0 <= i < |rows| ==> Quantity(rows[i].qty).Some?
  }

  /** The stock records of rows whose quantities all resolve, in row order. */
  function Resolved(rows: seq<Row>): (stocks: seq<StockRecord>)
    requires Resolvable(rows)
    ensures |stocks| == |rows|
  {
    if rows == [] then []
    else
      var last := rows[|rows| - 1];
      Resolved(rows[..|rows| - 1]) + [StockRecord(last.code, Quantity(last.qty).value)]
  }

  /** Stock 0 for each id, in list order. */
  function ZeroStocks(ids: seq<string>): (stocks: seq<StockRecord>)
    ensures |stocks| == |ids|
  {
    if ids == [] then [] else ZeroStocks(ids[..|ids| - 1]) + [StockRecord(ids[|ids| - 1], 0)]
  }

  /** `create_stocks(rows, ids)` as a value; None where `int` raises ValueError. */
  function StocksOf(rows: seq<Row>, ids: seq<string>): Option<seq<StockRecord>>
  {
    var matched := MatchedRows(rows, ids);
    if Resolvable(matched) then Some(Resolved(matched) + ZeroStocks(Leftover(rows, ids))) else None
  }

  /** Row i is the first matched row whose quantity `int` rejects. */
  predicate FailsAt(rows: seq<Row>, ids: seq<string>, i: nat)
    requires i < |rows|
  {
    && rows[i].code in Leftover(rows[..i], ids)
    && Quantity(rows[i].qty).None?
    && Resolvable(MatchedRows(rows[..i], ids))
  }

  method CreateStocks(rows: seq<Row>, offers: OfferList) returns (stocks: Option<seq<StockRecord>>)
    modifies offers
    ensures stocks == StocksOf(rows, old(offers.ids))
    ensures stocks.Some? ==> offers.ids == Leftover(rows, old(offers.ids))
    ensures stocks.None? ==>
      exists i :: 0 <= i < |rows| && FailsAt(rows, old(offers.ids), i) && offers.ids == Leftover(rows[..i], old(offers.ids))
  {
    ghost var ids0 := offers.ids;
    var built: seq<StockRecord> := [];
    var i := 0;
    while i < |rows|
      invariant i <= |rows|
      invariant offers.ids == Leftover(rows[..i], ids0)
      invariant Resolvable(MatchedRows(rows[..i], ids0))
      invariant built == Resolved(MatchedRows(rows[..i], ids0))
    {
      var watch := rows[i];
      if watch.code in offers.ids {
        var stock := Quantity(watch.qty);
        if stock.None? {
          assert FailsAt(rows, ids0, i);
          FailureAborts(rows, ids0, i);
          return None;
        }
        MatchStep(rows, ids0, i);
        built := built + [StockRecord(watch.code, stock.value)];
        offers.Remove(watch.code);
      } else {
        SkipStep(rows, ids0, i);
      }
      i := i + 1;
    }
    assert rows[..i] == rows;
    ghost var matched := built;
    for j := 0 to |offers.ids|
      invariant built == matched + ZeroStocks(offers.ids[..j])
    {
      assert offers.ids[..j + 1][..j] == offers.ids[..j];
      built := built + [StockRecord(offers.ids[j], 0)];
    }
    assert offers.ids[..|offers.ids|] == offers.ids;
    return Some(built);
  }

  /** One iteration of the first loop, read off the definitions. */
  lemma LoopStep(rows: seq<Row>, ids: seq<string>, i: nat)
    requires i < |rows|
    ensures var before := Leftover(rows[..i], ids);
            var code := rows[i].code;
            && Leftover(rows[..i + 1], ids) == (if code in before then RemoveFirst(before, code) else before)
            && MatchedRows(rows[..i + 1], ids) == MatchedRows(rows[..i], ids) + (if code in before then [rows[i]] else [])
  {
    assert rows[..i + 1][..i] == rows[..i];
  }

  /** A row whose code is still listed: its id is removed and its record appended. */
  lemma MatchStep(rows: seq<Row>, ids: seq<string>, i: nat)
    requires i < |rows| && rows[i].code in Leftover(rows[..i], ids)
    requires Resolvable(MatchedRows(rows[..i], ids)) && Quantity(rows[i].qty).Some?
    ensures Leftover(rows[..i + 1], ids) == RemoveFirst(Leftover(rows[..i], ids), rows[i].code)
    ensures Resolvable(MatchedRows(rows[..i + 1], ids))
    ensures Resolved(MatchedRows(rows[..i + 1], ids))
         == Resolved(MatchedRows(rows[..i], ids)) + [StockRecord(rows[i].code, Quantity(rows[i].qty).value)]
  {
    LoopStep(rows, ids, i);
    ResolvedSnoc(MatchedRows(rows[..i], ids), rows[i]);
  }

  /** A row whose code is no longer listed changes nothing. */
  lemma SkipStep(rows: seq<Row>, ids: seq<string>, i: nat)
    requires i < |rows| && rows[i].code !in Leftover(rows[..i], ids)
    ensures Leftover(rows[..i + 1], ids) == Leftover(rows[..i], ids)
    ensures MatchedRows(rows[..i + 1], ids) == MatchedRows(rows[..i], ids)
  {
    LoopStep(rows, ids, i);
  }

  lemma ResolvedSnoc(rows: seq<Row>, row: Row)
    requires Resolvable(rows) && Quantity(row.qty).Some?
    ensures Resolvable(rows + [row])
    ensures Resolved(rows + [row]) == Resolved(rows) + [StockRecord(row.code, Quantity(row.qty).value)]
  {
    assert (rows + [row])[..|rows|] == rows;
  }

  /** A matched row that `int` rejects makes the whole call fail. */
  lemma FailureAborts(rows: seq<Row>, ids: seq<string>, i: nat)
    requires i < |rows| && FailsAt(rows, ids, i)
    ensures StocksOf(rows, ids) == None
  {
    LoopStep(rows, ids, i);
    MatchedRowsPrefix(rows, ids, i + 1);
    var m := MatchedRows(rows[..i], ids);
    assert MatchedRows(rows, ids)[|m|] == MatchedRows(rows[..i + 1], ids)[|m|] == rows[i];
  }

  /** The rows matched in a prefix are a prefix of the rows matched overall. */
  lemma {:induction false} MatchedRowsPrefix(rows: seq<Row>, ids: seq<string>, i: nat)
    requires i <= |rows|
    ensures MatchedRows(rows[..i], ids) <= MatchedRows(rows, ids)
    decreases |rows| - i
  {
    if i < |rows| {
      var init := rows[..|rows| - 1];
      MatchedRowsPrefix(init, ids, i);
      assert init[..i] == rows[..i];
    } else {
      assert rows[..i] == rows;
    }
  }

  /** One step of the recursion of Leftover and MatchedRows, with the code columns. */
  lemma Unfold(rows: seq<Row>, ids: seq<string>)
    requires rows != []
    ensures var init, last := rows[..|rows| - 1], rows[|rows| - 1];
            var before := Leftover(init, ids);
            var taken := last.code in before;
            && Leftover(rows, ids) == (if taken then RemoveFirst(before, last.code) else before)
            && MatchedRows(rows, ids) == MatchedRows(init, ids) + (if taken then [last] else [])
            && Codes(MatchedRows(rows, ids)) == Codes(MatchedRows(init, ids)) + (if taken then [last.code] else [])
            && Codes(rows) == Codes(init) + [last.code]
  {
    var init, last := rows[..|rows| - 1], rows[|rows| - 1];
    var m := MatchedRows(init, ids);
    if last.code in Leftover(init, ids) {
      assert (m + [last])[..|m|] == m;
    } else {
      assert m + [] == m;
      assert Codes(m) + [] == Codes(m);
    }
  }

  lemma TakeOne(left: seq<string>, taken: seq<string>, c: string)
    requires c in left
    ensures multiset(RemoveFirst(left, c)) + multiset(taken + [c]) == multiset(left) + multiset(taken)
  {
    assert c in multiset(left);
  }

  /** Every listed id is either still listed or was taken by exactly one matched row. */
  lemma {:induction false} LeftoverAccounting(rows: seq<Row>, ids: seq<string>)
    ensures multiset(Leftover(rows, ids)) + multiset(Codes(MatchedRows(rows, ids))) == multiset(ids)
  {
    if rows != [] {
      var init, last := rows[..|rows| - 1], rows[|rows| - 1];
      Unfold(rows, ids);
      LeftoverAccounting(init, ids);
      var before := Leftover(init, ids);
      if last.code in before {
        TakeOne(before, Codes(MatchedRows(init, ids)), last.code);
      } else {
        assert Codes(MatchedRows(init, ids)) + [] == Codes(MatchedRows(init, ids));
      }
    }
  }

  /**
   * A code c is matched min(#rows with c, #ids equal to c) times: each row
   * with c takes one listed c until none is left, later ones are skipped.
   */
  lemma {:induction false} MatchedCount(rows: seq<Row>, ids: seq<string>, c: string)
    ensures multiset(Codes(MatchedRows(rows, ids)))[c]
         == Min(multiset(Codes(rows))[c], multiset(ids)[c])
  {
    if rows != [] {
      var init, last := rows[..|rows| - 1], rows[|rows| - 1];
      Unfold(rows, ids);
      MatchedCount(init, ids, c);
      LeftoverAccounting(init, ids);
      var before := Leftover(init, ids);
      var mInit := Codes(MatchedRows(init, ids));
      assert multiset(Codes(rows))[c] == multiset(Codes(init))[c] + (if c == last.code then 1 else 0);
      assert multiset(before)[c] + multiset(mInit)[c] == multiset(ids)[c];
      if c == last.code {
        assert last.code in before <==> multiset(before)[c] > 0;
      }
    }
  }

  function Min(a: int, b: int): int {
    if a < b then a else b
  }

  /**
   * Which rows match: row i is turned into a record exactly when fewer
   * earlier rows carry its code than the list holds copies of it. So of
   * several rows with the same code, the earliest ones match and the later
   * ones are skipped once every copy of the id has been removed.
   */
  lemma MatchedIffEarlier(rows: seq<Row>, ids: seq<string>, i: nat)
    requires i < |rows|
    ensures rows[i].code in Leftover(rows[..i], ids)
        <==> multiset(Codes(rows[..i]))[rows[i].code] < multiset(ids)[rows[i].code]
  {
    var c := rows[i].code;
    LeftoverAccounting(rows[..i], ids);
    MatchedCount(rows[..i], ids, c);
    assert c in Leftover(rows[..i], ids) <==> multiset(Leftover(rows[..i], ids))[c] > 0;
  }

  /** Matched rows keep the order of the spreadsheet. */
  lemma {:induction false} MatchedInRowOrder(rows: seq<Row>, ids: seq<string>)
    ensures Subsequence(MatchedRows(rows, ids), rows)
  {
    if rows != [] {
      var init, last := rows[..|rows| - 1], rows[|rows| - 1];
      Unfold(rows, ids);
      MatchedInRowOrder(init, ids);
      var m := MatchedRows(init, ids);
      if last.code in Leftover(init, ids) {
        var a := m + [last];
        assert a[..|a| - 1] == m && a[|a| - 1] == last;
        assert Subsequence(a[..|a| - 1], init);
        assert MatchedRows(rows, ids) == a;
      } else {
        assert MatchedRows(rows, ids) == m;
        assert Subsequence(m, rows[..|rows| - 1]);
      }
    }
  }

  /**
   * The records of a successful call: the matched rows first, in row
   * order, with their resolved quantities; then the leftover ids in list
   * order with stock 0. Every listed id is covered exactly as often as it is
   * listed.
   */
  lemma StocksShape(rows: seq<Row>, ids: seq<string>)
    requires StocksOf(rows, ids).Some?
    ensures var stocks := StocksOf(rows, ids).value;
            var matched := MatchedRows(rows, ids);
            && |stocks| == |ids|
            && multiset(StockIds(stocks)) == multiset(ids)
            && StockIds(stocks[..|matched|]) == Codes(matched)
            && (forall k :: 0 <= k < |matched| ==> stocks[k].stock == Quantity(matched[k].qty).value)
            && StockIds(stocks[|matched|..]) == Leftover(rows, ids)
            && (forall k :: |matched| <= k < |stocks| ==> stocks[k].stock == 0)
  {
    var matched := MatchedRows(rows, ids);
    var left := Leftover(rows, ids);
    var head, tail := Resolved(matched), ZeroStocks(left);
    var stocks := head + tail;
    assert StocksOf(rows, ids).value == stocks;
    ResolvedFacts(matched);
    ZeroStocksFacts(left);
    assert stocks[..|matched|] == head && stocks[|matched|..] == tail;
    assert multiset(StockIds(stocks)) == multiset(ids) by {
      LeftoverAccounting(rows, ids);
      StockIdsConcat(head, tail);
    }
    assert |stocks| == |ids| by {
      assert |multiset(StockIds(stocks))| == |multiset(ids)|;
    }
    forall k | |matched| <= k < |stocks| ensures stocks[k].stock == 0 {
      assert stocks[k] == tail[k - |matched|];
    }
  }

  lemma {:induction false} ResolvedFacts(rows: seq<Row>)
    requires Resolvable(rows)
    ensures StockIds(Resolved(rows)) == Codes(rows)
    ensures forall k :: 0 <= k < |rows| ==> Resolved(rows)[k].stock == Quantity(rows[k].qty).value
  {
    if rows != [] {
      var init := rows[..|rows| - 1];
      assert Resolvable(init) by {
        forall k | 0 <= k < |init| ensures Quantity(init[k].qty).Some? {
          assert init[k] == rows[k];
        }
      }
      ResolvedFacts(init);
      var r := Resolved(rows);
      assert r[..|r| - 1] == Resolved(init);
    }
  }

  lemma {:induction false} ZeroStocksFacts(ids: seq<string>)
    ensures StockIds(ZeroStocks(ids)) == ids
    ensures forall k :: 0 <= k < |ids| ==> ZeroStocks(ids)[k].stock == 0
  {
    if ids != [] {
      ZeroStocksFacts(ids[..|ids| - 1]);
      var z := ZeroStocks(ids);
      assert z[..|z| - 1] == ZeroStocks(ids[..|ids| - 1]);
    }
  }

  /**
   * With a catalog that lists each id once, the leftover ids are exactly the
   * ids the spreadsheet never mentions, in catalog order.
   */
  lemma {:induction false} LeftoverOfDistinct(rows: seq<Row>, ids: seq<string>)
    requires Distinct(ids)
    ensures Leftover(rows, ids) == Unmentioned(ids, Codes(rows))
  {
    if rows == [] {
      UnmentionedNothing(ids, []);
    } else {
      var init, last := rows[..|rows| - 1], rows[|rows| - 1];
      LeftoverOfDistinct(init, ids);
      var before := Unmentioned(ids, Codes(init));
      assert Codes(rows) == Codes(init) + [last.code];
      if last.code in before {
        UnmentionedDistinct(ids, Codes(init));
        RemoveFirstDistinct(before, last.code);
        UnmentionedTwice(ids, Codes(init), [last.code]);
      } else {
        UnmentionedAbsent(ids, Codes(init), last.code);
      }
    }
  }

  /** The `not_empty` filter of upload_stocks: the records whose stock is not 0, in order. */
  function NotEmpty(stocks: seq<StockRecord>): (kept: seq<StockRecord>)
    ensures forall k :: 0 <= k < |kept| ==> kept[k].stock != 0
    ensures Subsequence(kept, stocks)
  {
    if stocks == [] then []
    else
      var init, last := stocks[..|stocks| - 1], stocks[|stocks| - 1];
      var before := NotEmpty(init);
      if last.stock != 0 then
        assert (before + [last])[..|before|] == before;
        before + [last]
      else before
  }

  /** Nothing with a non-zero stock is dropped, and nothing is duplicated. */
  lemma {:induction false} NotEmptyCount(stocks: seq<StockRecord>, x: StockRecord)
    ensures multiset(NotEmpty(stocks))[x] == if x.stock != 0 then multiset(stocks)[x] else 0
  {
    if stocks != [] {
      var init, last := stocks[..|stocks| - 1], stocks[|stocks| - 1];
      NotEmptyCount(init, x);
      assert stocks == init + [last];
    }
  }

  /** Appending one row: the recursion of Leftover and MatchedRows read forwards. */
  lemma Snoc(init: seq<Row>, row: Row, ids: seq<string>)
    ensures var before := Leftover(init, ids);
            && Leftover(init + [row], ids) == (if row.code in before then RemoveFirst(before, row.code) else before)
            && MatchedRows(init + [row], ids) == MatchedRows(init, ids) + (if row.code in before then [row] else [])
  {
    assert (init + [row])[..|init|] == init;
  }

  /** A row whose code heads the remaining list takes that head. */
  lemma TakeHead(init: seq<Row>, row: Row, ids: seq<string>)
    requires Leftover(init, ids) != [] && Leftover(init, ids)[0] == row.code
    ensures Leftover(init + [row], ids) == Leftover(init, ids)[1..]
    ensures MatchedRows(init + [row], ids) == MatchedRows(init, ids) + [row]
  {
    Snoc(init, row, ids);
    RemoveFirstHead(Leftover(init, ids), row.code);
  }

  /** Rows that list the catalog's first ids in catalog order all match, each taking the head. */
  lemma {:induction false} CatalogPrefixMatches(rows: seq<Row>, ids: seq<string>)
    requires |rows| <= |ids|
    requires forall i :: 0 <= i < |rows| ==> rows[i].code == ids[i]
    ensures Leftover(rows, ids) == ids[|rows|..]
    ensures MatchedRows(rows, ids) == rows
  {
    if rows != [] {
      var init, last := rows[..|rows| - 1], rows[|rows| - 1];
      CatalogPrefixMatches(init, ids);
      assert last.code == ids[|init|];
      assert Leftover(init, ids)[0] == last.code;
      TakeHead(init, last, ids);
      assert init + [last] == rows;
      assert ids[|init|..][1..] == ids[|rows|..];
    }
  }

  lemma ExampleQuantities(a: Row, b: Row, c: Row)
    requires a == Row("A", ">10", "") && b == Row("B", "1", "") && c == Row("C", "3", "")
    ensures Resolvable([a, b, c])
    ensures Resolved([a, b, c]) == [StockRecord("A", 100), StockRecord("B", 0), StockRecord("C", 3)]
  {
    assert Quantity(c.qty) == Some(3) by {
      QuantityPolicy(3);
      assert FormatInt(3) == "3";
    }
    ResolvedSnoc([], a);
    assert [] + [a] == [a];
    assert Resolved([a]) == [StockRecord("A", 100)];
    ResolvedSnoc([a], b);
    assert [a] + [b] == [a, b];
    assert Resolved([a, b]) == [StockRecord("A", 100), StockRecord("B", 0)];
    ResolvedSnoc([a, b], c);
    assert [a, b] + [c] == [a, b, c];
  }

  /** Rows A ">10", B "1", C "3" against ids A, B, C, D: stocks 100, 0, 3,
      then 0 for D, which no row mentions. */
  lemma CatalogExample(a: Row, b: Row, c: Row, ids: seq<string>)
    requires a == Row("A", ">10", "") && b == Row("B", "1", "") && c == Row("C", "3", "")
    requires ids == ["A", "B", "C", "D"]
    ensures StocksOf([a, b, c], ids)
         == Some([StockRecord("A", 100), StockRecord("B", 0), StockRecord("C", 3), StockRecord("D", 0)])
  {
    var rows := [a, b, c];
    CatalogPrefixMatches(rows, ids);
    assert Leftover(rows, ids) == ["D"] by {
      assert ids[3..] == ["D"];
    }
    ExampleQuantities(a, b, c);
    assert ZeroStocks(["D"]) == [StockRecord("D", 0)] by {
      assert ["D"][..0] == [];
    }
    assert Resolved(rows) + ZeroStocks(["D"])
        == [StockRecord("A", 100), StockRecord("B", 0), StockRecord("C", 3), StockRecord("D", 0)];
  }
}
