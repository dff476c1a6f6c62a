/** One execution of the CoinClerk script, from the indicator values of the
    last bar onwards: ensure the table exists, default the indicators, decide,
    insert one row and read the ticker's history back.  The price download,
    the indicator computation and the clock are parameters. */
module App {
  import opened Signal
  import opened SignalLog

  /** `close` is the last close price, the three cells the last RSI, MACD and
      MACD signal values, `now` the timestamp stored as `created_at`.  The
      history is an error only when the insert fails (the script stops there). */
  method Run(store: SignalStore, ticker: string, close: real,
             rsi: Cell, macdMain: Cell, macdSignal: Cell, now: int)
    returns (decision: Label, history: Result<seq<Row>>)
    requires store.Valid()
    modifies store
    ensures store.Valid() && store.tableExists
    ensures decision == Evaluate(rsi, macdMain, macdSignal)
    ensures old(store.nextId) > MaxRowId ==>
              history == Err(Full) && store.rows == old(store.rows) && store.nextId == old(store.nextId)
    ensures old(store.nextId) <= MaxRowId ==>
              && store.rows == old(store.rows) + [Row(old(store.nextId), ticker, close,
                                                     SafeFloat(rsi, RsiDefault), SafeFloat(macdMain, MacdDefault),
                                                     decision.Text(), now)]
              && store.nextId == old(store.nextId) + 1
              && history == Ok(RecentFor(store.rows, ticker, HistoryLimit))
    ensures old(store.nextId) <= MaxRowId
            && NewerThanAll(old(store.rows), ticker, now)
            ==> history.Ok? && history.value != [] && history.value[0] == store.rows[|store.rows| - 1]
  {
    store.InitDb();
    var rsiVal := SafeFloat(rsi, RsiDefault);
    var mainVal := SafeFloat(macdMain, MacdDefault);
    var sigVal := SafeFloat(macdSignal, MacdDefault);
    decision := Decide(rsiVal, mainVal, sigVal);
    ghost var before, id := store.rows, store.nextId;
    var saved := store.Append(ticker, close, rsiVal, mainVal, decision.Text(), now);
    if saved.Err? {
      history := Err(saved.error);
      return;
    }
    assert store.nextId == id + 1;
    history := store.History(ticker, HistoryLimit);
    if NewerThanAll(before, ticker, now) {
      NewestAppendedRowFirst(before, store.rows[|store.rows| - 1], HistoryLimit);
    }
  }
}
