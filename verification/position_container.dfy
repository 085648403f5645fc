/** `PositionContainer` (soltrade/datastructures.py:169-186): the open
    positions of one strategy, keyed by token address in insertion
    order. */
module PositionContainer {
  import opened Python
  import OrderedMap
  import opened MarketPosition

  datatype Container = Container(strategyId: string, holdings: OrderedMap.OMap<string, Position>)

  /** `PositionContainer.__init__` (lines 172-174). */
  function NewContainer(strategyId: string): (c: Container)
    ensures c.strategyId == strategyId
    ensures OrderedMap.Valid(c.holdings) && |c.holdings.keys| == 0
  {
    Container(strategyId, OrderedMap.Empty())
  }

  /** `add_position` (lines 176-186). Each field arrives either
      positionally or by keyword; the model receives the field after that
      lookup, `None` when it was given neither way. Any missing field
      raises `ValueError`; otherwise a fresh position is stored under the
      token address, replacing one already held for that token. */
  function AddPosition(c: Container, token: Option<string>, txid: Option<string>,
                       entryPrice: Option<real>, size: Option<real>, time: Option<int>): (r: Result<Container>)
    ensures r.Failure? <==> token.None? || txid.None? || entryPrice.None? || size.None? || time.None?
    ensures r.Failure? ==> r.error == ValueError
    ensures r.Success? ==>
      var h := r.value.holdings;
      var t := token.value;
      && r.value.strategyId == c.strategyId
      && t in h.values
      && h.values[t].token == t
      && h.values[t].avgPrice == entryPrice.value && h.values[t].currentPrice == entryPrice.value
      && h.values[t].highestPrice == entryPrice.value && h.values[t].lastPrice == entryPrice.value
      && h.values[t].size == size.value
      && h.values[t].entries.keys == [txid.value]
      && h.values[t].entries.values == map[txid.value := Entry(entryPrice.value, size.value, time.value)]
      && h.values[t].exits.keys == [] && h.values[t].exits.values == map[]
      && (forall k :: h.values[t].book.Get(k) == [])
      && Valid(h.values[t])
      && (forall u :: u != t ==> (u in h.values <==> u in c.holdings.values))
      && (forall u :: u != t && u in c.holdings.values ==> h.values[u] == c.holdings.values[u])
    ensures r.Success? && OrderedMap.Valid(c.holdings) ==> OrderedMap.Valid(r.value.holdings)
  {
    if token.None? || txid.None? || entryPrice.None? || size.None? || time.None? then
      Failure(ValueError)
    else
      var p := NewPosition(txid.value, token.value, entryPrice.value, size.value, time.value);
      Success(c.(holdings := OrderedMap.Put(c.holdings, token.value, p)))
  }

  /** Adding a position for a token already held keeps the token's place
      in the holdings order; a new token goes last. */
  lemma AddPositionOrder(c: Container, token: string, txid: string, entryPrice: real, size: real, time: int)
    ensures var r := AddPosition(c, Some(token), Some(txid), Some(entryPrice), Some(size), Some(time));
      && r.Success?
      && (token in c.holdings.values ==> r.value.holdings.keys == c.holdings.keys)
      && (token !in c.holdings.values ==> r.value.holdings.keys == c.holdings.keys + [token])
  {
  }
}
