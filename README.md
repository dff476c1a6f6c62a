# CoinClerk signal core in Dafny

CoinClerk is a one-page Streamlit app. Each time the page runs, it downloads price bars for a ticker and computes RSI and MACD on them. It turns the indicator values of the last bar into a signal: MUA (buy), BÁN (sell) or GIỮ (hold). It then appends that signal to a SQLite table `signals` and shows the 50 newest signals for the ticker. This project models the two parts of `app.py` that are program logic rather than library calls.

- `Signal.dfy` (module `Signal`) covers the indicator values as the script reads them. A value is a `Cell`: missing column, NaN, or a number. The module holds the `safe_float` defaulting (RSI 50.0, MACD lines 0.0) and the three-way decision rule. The values are reals because the rule only compares them.
- `SignalLog.dfy` (module `SignalLog`) covers the `signals` table.
  - `SignalStore` is a class. Its fields are whether the table exists, the rows in insertion order, and the next AUTOINCREMENT id.
  - `InitDb` is `CREATE TABLE IF NOT EXISTS`.
  - `Append` is the `INSERT`.
  - `History` is the `SELECT`.
  - What the query means is the pure function `RecentFor`: keep the ticker's rows, order them newest `created_at` first, and keep at most `limit` of them.
- `App.dfy` (module `App`) is one run of the script, from the last bar's indicator values onwards. `Run` calls `init_db`, applies the defaults, decides, inserts one row and reads back the history.

Points where the model follows the code closely:
- The history query orders by `created_at` only, with no tie-break by id. So `RecentFor`'s contract says nothing about the order of rows with equal timestamps. The function itself keeps them in table order, and no lemma depends on that. `SignalLog.HistoryUniqueUpToTies` shows that the contract fixes everything else: any result that meets it has the same `created_at` at every position.
- The row stores the MACD main line in `macd`, not the signal line.
- The defaults protect against a missing RSI, or against both MACD lines missing. When pandas_ta computes MACD itself (without TA-Lib), during bars 26 to 33 the MACD line is defined while its signal line is still NaN. The signal line then becomes 0.0, and the rule can still give buy or sell (`Signal.SignalLineWarmupCanDecide`).

## Model

| member | source | states |
|---|---|---|
| `Signal.SafeFloat` | app.py:77-79 | a present, non-NaN value is returned unchanged; a missing or NaN value gives the default |
| `Signal.Decide` | app.py:86-94 | buy exactly when rsi < 30 and MACD main > signal; sell exactly when rsi > 70 and main < signal; hold exactly when neither holds, so exactly one label results |
| `Signal.Evaluate` | app.py:81-94 | with the defaults applied, a missing or NaN RSI always holds, and two missing or NaN MACD lines always hold; buy needs a real RSI below 30, sell a real RSI above 70, and either needs a real MACD value |
| `Signal.Label.Text` | app.py:86-94 | the text stored in the `signal` column for a label has three characters (MUA, BÁN, GIỮ; distinctness is `Signal.TextInjective`) |
| `Signal.TextInjective` | app.py:86-94 | the three stored texts MUA, BÁN, GIỮ are pairwise distinct |
| `Signal.NeutralRsiHolds` | app.py:81-94 | the RSI default 50.0 gives hold whatever the MACD values |
| `Signal.EqualMacdHolds` | app.py:82-94 | equal MACD lines, such as the 0.0/0.0 defaults, give hold whatever the RSI |
| `Signal.DecideMonotoneInRsi` | app.py:86-91 | a buy stays a buy at a lower RSI, and a sell stays a sell at a higher RSI |
| `Signal.DecideMirror` | app.py:86-94 | mirroring RSI about 50 and swapping the MACD lines exchanges buy and sell and keeps hold |
| `Signal.SignalLineWarmupCanDecide` | app.py:82-91 | a NaN signal line with a defined MACD line can still give buy or sell |
| `Signal.DecideExamples` | app.py:86-94 | worked cases, including both thresholds, which are strict |
| `SignalLog.RowsFor` | app.py:110 | `WHERE ticker=?`: every row kept has the ticker, and each row of the ticker is kept as often as it occurs |
| `SignalLog.SortNewestFirst` | app.py:110 | `ORDER BY created_at DESC`: the result is non-increasing in `created_at` and is a permutation of the input |
| `SignalLog.TakeKeepsNewest` | app.py:110 | `LIMIT`: a prefix of a newest-first sequence is no older than any row it drops |
| `SignalLog.RecentFor` | app.py:109-113 | the history holds min(limit, rows of the ticker) rows, all of that ticker, newest first, drawn from the ticker's rows, all of them when the limit allows, and no dropped row is newer than a kept one |
| `SignalLog.HistoryUniqueUpToTies` | app.py:110 | any two results that meet the history contract (same length, newest first, drawn from the ticker's rows, no dropped row newer than a kept one) have the same `created_at` at every position, so only the order among equal timestamps is left open |
| `SignalLog.HistoryHead` | app.py:110 | the first row of a non-empty history is a row of the ticker and no row of the ticker is newer |
| `SignalLog.RowsForAppend` | app.py:110 | filtering by ticker distributes over concatenation of the table |
| `SignalLog.UnknownTickerEmpty` | app.py:109-121 | a ticker with no rows gives an empty history, not an error |
| `SignalLog.OtherTickerUnaffected` | app.py:99-113 | inserting a row for one ticker leaves every other ticker's history unchanged |
| `SignalLog.NewestAppendedRowFirst` | app.py:99-113 | a row newer than every earlier row of its ticker comes back first, unchanged |
| `SignalLog.SignalStore.InitDb` | app.py:15-28 | after the call the table exists, and existing rows and the id counter are unchanged, so repeated calls are idempotent |
| `SignalLog.SignalStore.Append` | app.py:99-105 | fails without a table, and fails when the largest id has been used; otherwise adds exactly one row at the end with the next id and the given values, and leaves earlier rows unchanged; the new id exceeds every existing id |
| `SignalLog.SignalStore.History` | app.py:109-113 | returns `RecentFor` of the current rows, or an error when the table does not exist |
| `App.Run` | app.py:29-113 | the decision is `Evaluate` of the cells; when an id is left, the id counter advances by exactly one and the new row stores the ticker, the close price, the defaulted RSI, the defaulted MACD main line, the decision's text and the timestamp; the history is `RecentFor` with limit 50, and it starts with the new row when that row is the ticker's newest |

## Left out

- Streamlit UI: sidebar, selectboxes, commodity name lookup, upper-casing of a typed ticker, messages, charts, the history table display and its `created_at` formatting. These are presentation only. The chosen ticker is a parameter of `App.Run`.
- `yf.download`, the empty-frame stop and the MultiIndex flattening. These are network I/O and library calls. The close price and the indicator values are parameters of `App.Run`.
- RSI and MACD computation. `pandas_ta` does this, and its code is not part of this model. The indicator values enter as `Cell`s.
- The clock. `dt.datetime.now().isoformat()` becomes the integer parameter `now`. The source stores ISO text and orders it as text. The model assumes that text order matches time order, which fails if the local clock goes backwards (for example at a daylight-saving change).
- Infinite floats: `safe_float` passes infinity through, and reals have no infinity.
- SQLite connections, commits, durability and locking between processes. The table is an in-memory sequence of rows.
- Concurrent runs. Streamlit sessions run the script concurrently, and the history SELECT opens a new connection after the INSERT has committed, so another session's row can land between the two. `App.Run` treats the INSERT and the SELECT as one step with no other writer in between.
- A NaN close price. `float(last.Close)` can be NaN, which SQLite stores as NULL in `price`. The model's `close` is always a real number.
- `Signal.Label.Text`: its contract gives only the length of the stored text and, through `Signal.TextInjective`, that the three texts differ; the exact literals are in its body only.
- `SignalLog.RecentFor`: fixes no order among rows with equal `created_at`, because the SQL leaves that order to the database engine.
