/** The token price cache of database/database.go: a table keyed by token symbol, modelled as
    a map from symbol to price. Prices are opaque values here; no arithmetic is done on them. */
module PriceCache {
  import opened Schema

  /** The symbol GetArPrice looks up. */
  const ArSymbol: string := "AR"

  /** The symbols a batch mentions. */
  function Symbols(tps: seq<TokenPrice>): set<string> {
    set tp | tp in tps :: tp.symbol
  }

  /** InsertPrices: a batch insert that does nothing on a symbol conflict. Cached prices are
      never overwritten, and within the batch the first price given for a symbol wins. */
  function InsertPrices(table: map<string, real>, tps: seq<TokenPrice>): (r: map<string, real>)
    ensures r.Keys == table.Keys + Symbols(tps)
    ensures forall s :: s in table ==> r[s] == table[s]
    ensures forall i ::
      (0 <= i < |tps| && tps[i].symbol !in table && forall j :: 0 <= j < i ==> tps[j].symbol != tps[i].symbol)
      ==> r[tps[i].symbol] == tps[i].price
    decreases tps
  {
    if tps == [] then table
    else
      var head := tps[0];
      var next := if head.symbol in table then table else table[head.symbol := head.price];
      var r := InsertPrices(next, tps[1..]);
      InsertPricesStep(table, tps, next, r);
      r
  }

  /** The step of InsertPrices: what the rest of the batch gives over `next` is what the whole
      batch gives over `table`. */
  lemma InsertPricesStep(table: map<string, real>, tps: seq<TokenPrice>, next: map<string, real>, r: map<string, real>)
    requires tps != []
    requires next == if tps[0].symbol in table then table else table[tps[0].symbol := tps[0].price]
    requires r.Keys == next.Keys + Symbols(tps[1..])
    requires forall s :: s in next ==> r[s] == next[s]
    requires forall i ::
      (0 <= i < |tps[1..]| && tps[1..][i].symbol !in next && forall j :: 0 <= j < i ==> tps[1..][j].symbol != tps[1..][i].symbol)
      ==> r[tps[1..][i].symbol] == tps[1..][i].price
    ensures r.Keys == table.Keys + Symbols(tps)
    ensures forall s :: s in table ==> r[s] == table[s]
    ensures forall i ::
      (0 <= i < |tps| && tps[i].symbol !in table && forall j :: 0 <= j < i ==> tps[j].symbol != tps[i].symbol)
      ==> r[tps[i].symbol] == tps[i].price
  {
    SymbolsOfFirstAndRest(tps);
    assert r.Keys == table.Keys + Symbols(tps);
    assert forall tp :: tp in tps ==> tp.symbol in Symbols(tps);
    FirstPriceWins(table, tps, next, r);
  }

  lemma SymbolsOfFirstAndRest(tps: seq<TokenPrice>)
    requires tps != []
    ensures Symbols(tps) == {tps[0].symbol} + Symbols(tps[1..])
  {
    forall s | s in Symbols(tps) ensures s in {tps[0].symbol} + Symbols(tps[1..]) {
      var tp :| tp in tps && tp.symbol == s;
      var i :| 0 <= i < |tps| && tps[i] == tp;
      if i > 0 {
        assert tp == tps[1..][i - 1];
      }
    }
  }

  /** The step of the first-writer-wins clause: the batch's first price of a new symbol is
      either the head's, which is inserted now, or a later row's, whose symbol is still new
      after the head. */
  lemma FirstPriceWins(table: map<string, real>, tps: seq<TokenPrice>, next: map<string, real>, r: map<string, real>)
    requires tps != []
    requires next == if tps[0].symbol in table then table else table[tps[0].symbol := tps[0].price]
    requires forall s :: s in next ==> s in r && r[s] == next[s]
    requires forall tp :: tp in tps ==> tp.symbol in r
    requires forall i ::
      (0 <= i < |tps[1..]| && tps[1..][i].symbol !in next && forall j :: 0 <= j < i ==> tps[1..][j].symbol != tps[1..][i].symbol)
      ==> r[tps[1..][i].symbol] == tps[1..][i].price
    ensures forall i ::
      (0 <= i < |tps| && tps[i].symbol !in table && forall j :: 0 <= j < i ==> tps[j].symbol != tps[i].symbol)
      ==> r[tps[i].symbol] == tps[i].price
  {
    forall i | 0 <= i < |tps| && tps[i].symbol !in table && forall j :: 0 <= j < i ==> tps[j].symbol != tps[i].symbol
      ensures r[tps[i].symbol] == tps[i].price
    {
      if i > 0 {
        assert tps[i] == tps[1..][i - 1];
        forall j | 0 <= j < i - 1 ensures tps[1..][j].symbol != tps[1..][i - 1].symbol {
          assert tps[1..][j] == tps[j + 1];
        }
      }
    }
  }

  /** UpdatePrice: the cached price of `symbol`, if it is cached; otherwise nothing changes. */
  function UpdatePrice(table: map<string, real>, symbol: string, newPrice: real): (r: map<string, real>)
    ensures r.Keys == table.Keys
    ensures symbol in table ==> r[symbol] == newPrice
    ensures forall s :: s in table && s != symbol ==> r[s] == table[s]
  {
    if symbol in table then table[symbol := newPrice] else table
  }

  /** GetPrices: every cached price. */
  function GetPrices(table: map<string, real>): (r: set<TokenPrice>)
    ensures forall tp :: tp in r <==> tp.symbol in table && table[tp.symbol] == tp.price
  {
    set s | s in table :: TokenPrice(s, table[s])
  }

  /** GetArPrice: the cached AR price, or None ("record not found") when AR is not cached. */
  function GetArPrice(table: map<string, real>): (r: Option<real>)
    ensures r.None? <==> ArSymbol !in table
    ensures r.Some? ==> TokenPrice(ArSymbol, r.value) in GetPrices(table)
  {
    if ArSymbol in table then Some(table[ArSymbol]) else None
  }

  /** Seeding the cache twice does not move a price: only UpdatePrice does. Once AR is cached,
      a later seed leaves its price alone, and an update sets it. */
  lemma SeedThenUpdate(table: map<string, real>, seed: seq<TokenPrice>, later: seq<TokenPrice>, p: real)
    requires ArSymbol in Symbols(seed)
    ensures GetArPrice(InsertPrices(InsertPrices(table, seed), later)) == GetArPrice(InsertPrices(table, seed))
    ensures GetArPrice(UpdatePrice(InsertPrices(InsertPrices(table, seed), later), ArSymbol, p)) == Some(p)
  {
  }

  /** AR is priced after a seed exactly when it was cached or seeded, and a seed never moves a
      cached AR price. */
  lemma SeedArPrice(table: map<string, real>, tps: seq<TokenPrice>)
    ensures GetArPrice(InsertPrices(table, tps)).None? <==> ArSymbol !in table && ArSymbol !in Symbols(tps)
    ensures ArSymbol in table ==> GetArPrice(InsertPrices(table, tps)) == GetArPrice(table)
  {
  }
}
