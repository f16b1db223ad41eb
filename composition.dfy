/** `Helper.get_composition_moex` (custom/custom_functions.py): the index
    composition table split into all listings and the current ones. */
module IndexComposition {
  import opened Text
  import opened Errors
  import Records

  /** The first three columns of a row of the ISS composition table:
      ticker, date included and date excluded. */
  datatype Listing = Listing(ticker: string, from: string, till: string)

  /** The `{'from': …, 'to': …}` entry of a ticker. */
  datatype Span = Span(from: string, till: string)

  /** The three-entry dictionary `get_composition_moex` returns. */
  datatype Composition = Composition(fullResult: map<string, Span>, actualResult: map<string, Span>,
                                     tickerNames: seq<string>)

  function Froms(data: seq<Listing>): (keys: seq<string>)
    ensures |keys| == |data| && forall i :: 0 <= i < |data| ==> keys[i] == data[i].from
  {
    seq(|data|, i requires 0 <= i < |data| => data[i].from)
  }

  /** `max(data, key=lambda x: x[1])[2]`: the exclusion date of the listing
      included last (the first of them on a tie). */
  function CurrentTill(data: seq<Listing>): (till: string)
    requires |data| > 0
    ensures exists i :: 0 <= i < |data| && data[i].till == till
                        && (forall j :: 0 <= j < |data| ==> !Less(data[i].from, data[j].from))
                        && (forall j :: 0 <= j < i ==> Less(data[j].from, data[i].from))
  {
    var i := Records.FirstMax(Froms(data));
    data[i].till
  }

  /** `full_result` after the loop: each ticker mapped to its listing, a later
      row overwriting an earlier one. */
  function FullOf(data: seq<Listing>): map<string, Span>
  {
    if data == [] then map[]
    else
      var n := |data| - 1;
      FullOf(data[..n])[data[n].ticker := Span(data[n].from, data[n].till)]
  }

  /** `actual_result` after the loop: the same for the listings whose exclusion
      date is `till`. */
  function ActualOf(data: seq<Listing>, till: string): map<string, Span>
  {
    if data == [] then map[]
    else
      var n := |data| - 1;
      if data[n].till == till then ActualOf(data[..n], till)[data[n].ticker := Span(data[n].from, data[n].till)]
      else ActualOf(data[..n], till)
  }

  /** `ticker_names` after the loop: the tickers of the listings whose exclusion
      date is `till`, in table order. */
  function TickersOf(data: seq<Listing>, till: string): seq<string>
  {
    if data == [] then []
    else
      var n := |data| - 1;
      TickersOf(data[..n], till) + if data[n].till == till then [data[n].ticker] else []
  }

  /** `Helper.get_composition_moex`, or the ValueError of `max` on an empty table. */
  method GetCompositionMoex(data: seq<Listing>) returns (r: Result<Composition>)
    ensures data == [] ==> r == Err(EmptySequence)
    ensures data != [] ==>
              r == Ok(Composition(FullOf(data), ActualOf(data, CurrentTill(data)), TickersOf(data, CurrentTill(data))))
  {
    if data == [] {
      return Err(EmptySequence);
    }
    var fullResult: map<string, Span> := map[];
    var actualResult: map<string, Span> := map[];
    var tickerNames: seq<string> := [];
    var maxDateTo := CurrentTill(data);
    for i := 0 to |data|
      invariant fullResult == FullOf(data[..i])
      invariant actualResult == ActualOf(data[..i], maxDateTo)
      invariant tickerNames == TickersOf(data[..i], maxDateTo)
    {
      assert data[..i + 1][..i] == data[..i];
      var stock := data[i];
      fullResult := fullResult[stock.ticker := Span(stock.from, stock.till)];
      if stock.till == maxDateTo {
        actualResult := actualResult[stock.ticker := Span(stock.from, stock.till)];
        tickerNames := tickerNames + [stock.ticker];
      }
    }
    assert data[..|data|] == data;
    r := Ok(Composition(fullResult, actualResult, tickerNames));
  }

  /** `full_result` holds every ticker of the table, with the span of its last
      listing. */
  lemma {:induction false} FullOfIsLastListing(data: seq<Listing>, t: string)
    ensures t in FullOf(data) <==> exists i :: 0 <= i < |data| && data[i].ticker == t
    ensures t in FullOf(data) ==>
              exists i :: 0 <= i < |data| && data[i].ticker == t && FullOf(data)[t] == Span(data[i].from, data[i].till)
                          && forall j :: i < j < |data| ==> data[j].ticker != t
  {
    if data != [] {
      var n := |data| - 1;
      FullOfIsLastListing(data[..n], t);
      assert forall i :: 0 <= i < n ==> data[..n][i] == data[i];
    }
  }

  /** `actual_result` holds exactly the tickers with a listing that ends on
      `till`, each with the span of its last such listing. */
  lemma {:induction false} ActualOfIsLastCurrentListing(data: seq<Listing>, till: string, t: string)
    ensures t in ActualOf(data, till) <==> exists i :: 0 <= i < |data| && data[i].ticker == t && data[i].till == till
    ensures t in ActualOf(data, till) ==>
              exists i :: 0 <= i < |data| && data[i].ticker == t && data[i].till == till
                          && ActualOf(data, till)[t] == Span(data[i].from, till)
                          && forall j :: i < j < |data| && data[j].ticker == t ==> data[j].till != till
  {
    if data != [] {
      var n := |data| - 1;
      ActualOfIsLastCurrentListing(data[..n], till, t);
      assert forall i :: 0 <= i < n ==> data[..n][i] == data[i];
    }
  }

  /** `ticker_names` has no more entries than the table has rows, and its
      tickers are exactly the keys of `actual_result`. */
  lemma {:induction false} TickersOfAreCurrentListings(data: seq<Listing>, till: string)
    ensures |TickersOf(data, till)| <= |data|
    ensures forall t :: t in TickersOf(data, till) <==> t in ActualOf(data, till)
  {
    if data != [] {
      var n := |data| - 1;
      TickersOfAreCurrentListings(data[..n], till);
    }
  }

  /** `ticker_names` holds one entry per listing whose exclusion date is `till`,
      in table order: the `k`-th entry is the ticker of the `k`-th such row. */
  lemma {:induction false} TickersOfInTableOrder(data: seq<Listing>, till: string) returns (rows: seq<nat>)
    ensures |rows| == |TickersOf(data, till)|
    ensures forall k :: 0 <= k < |rows| ==>
              rows[k] < |data| && data[rows[k]].till == till && TickersOf(data, till)[k] == data[rows[k]].ticker
    ensures forall k, l :: 0 <= k < l < |rows| ==> rows[k] < rows[l]
    ensures forall i :: 0 <= i < |data| && data[i].till == till ==> i in rows
  {
    if data == [] {
      rows := [];
    } else {
      var n := |data| - 1;
      var earlier := TickersOfInTableOrder(data[..n], till);
      assert forall i :: 0 <= i < n ==> data[..n][i] == data[i];
      if data[n].till == till {
        rows := earlier + [n];
      } else {
        rows := earlier;
      }
    }
  }
}
