# DLSU ID name scraper: checksum and scan loop

This project models the two pieces of logic of `main.py` in the DLSU ID name
scraper, and proves properties about them.

- **The ID check `is_dlsu_id`.** An ID is accepted only when its decimal text
  has exactly 8 characters and the digits, weighted 8, 7, …, 1 from left to
  right, sum to a multiple of 11.
  - `DlsuId.IsDlsuId` follows the program's own steps on the text.
  - `DlsuId.CheckDlsuId` is the program's accumulating `for` loop, proved equal
    to that function.
  - `DlsuId.ChecksumHolds` restates the rule independently, on the number's
    digits. A lemma proves the two agree on every input.
- **The scan loop in `main`.** The loop walks the range 11900000 … 12600000 in
  ascending order and skips every number that fails the check. For each valid
  ID it asks the dashboard once for the text of the name cell. The text is
  inserted into the `students` table only when it is non-empty and not exactly
  `No data`. Any exception derived from `Exception` that is raised in the
  per-ID `try` body is caught, and the loop goes on. Such exceptions include a
  navigation error, a wait that timed out, and the primary-key violation of a
  duplicate insert. An interrupt (`KeyboardInterrupt`, `SystemExit`) is not
  caught, and neither is an exception raised by the handler itself (see
  "## Left out").
  - `StudentStore.StudentTable` is the table, a `map<int, string>` updated in
    place.
  - `Scraper.ScanRange` is the loop.
  - `Scraper.Scan` is the pure account of the loop. The lemmas about it state
    the properties.

The browser is an oracle `query: nat -> PageResult`. It yields `Text(s)` for
the text of the FIRST `span.cell-value` element in the page, read once that
element has become visible. A later span is never read, and a first span that
stays hidden ends in a timeout. The oracle yields `Failure` when any statement
of the per-ID `try` body before the INSERT raised. That covers navigation,
either wait timing out, reading the text, and the two `print` calls inside the
`try`. If the success message printed just before the INSERT raises, the name
is not stored, and the model reads that ID's answer as `Failure`. Each ID is
queried at most once per scan, and
`QueriedIdsExact` proves these queries come in strictly ascending order. So an
answer that depends on the ID alone loses no generality for one run.

12345678 is not a valid ID, although it looks like a natural first example.
Its weighted sum is 120, which leaves 10 modulo 11 (`RejectsSample`). In
12345670 … 12345680 the one valid ID is 12345679, with sum 121 = 11·11.
`SampleScan` uses it.

## Model

| member | source | states |
|---|---|---|
| `DlsuId.IsDlsuId` | main.py:12-26 | The model's definition of the check on the decimal text, with no contract of its own. `IsDlsuIdIffChecksum` states its meaning and `CheckDlsuId` ties the loop to it. |
| `DlsuId.CheckDlsuId` | main.py:12-26 | The loop's result equals `IsDlsuId(id)` and holds exactly when `ChecksumHolds(id)`. Its invariant says that after i iterations `total` is the weighted sum of the first i digits. |
| `DlsuId.DecimalString` | main.py:18 | `str(id)` of a non-negative number is a non-empty string of digit characters. |
| `DlsuId.DecimalRoundTrip` | main.py:18 | Reading the decimal text back as a number gives the original number. |
| `DlsuId.DecimalLength` | main.py:18-19 | The decimal text has at most k characters exactly when n < 10^k (for k ≥ 1). |
| `DlsuId.EightCharacters` | main.py:18-19 | The text has length 8 exactly for 10000000 ≤ n ≤ 99999999. |
| `DlsuId.WrongLengthRejected` | main.py:18-20 | A number whose decimal text is not 8 characters long is rejected. |
| `DlsuId.DecimalStringDigit` | main.py:24 | Character i of the text is the digit of n at place \|text\|−1−i from the right. |
| `DlsuId.WeightedSumOfEight` | main.py:22-24 | The accumulated total over 8 characters is 8·d0 + 7·d1 + … + 1·d7. |
| `DlsuId.IsDlsuIdIffChecksum` | main.py:12-26 | For every n (both directions): the program's check accepts n iff n has 8 digits d0..d7 with (Σ dᵢ·(8−i)) mod 11 = 0. |
| `DlsuId.RejectsSample` | main.py:22-26 | 12345678 has weighted sum 120 and is rejected. |
| `DlsuId.AcceptsSample` | main.py:22-26 | 12345679 has weighted sum 121 and is accepted. |
| `StudentStore.InsertRow` | main.py:48 | An INSERT into the PRIMARY KEY table adds exactly the key `id`, keeps every existing row's value, and stores `name` only for a new id. |
| `StudentStore.FirstInsertWins` | main.py:75 | A second insert of the same id changes nothing, whatever its name: the first insert wins. |
| `StudentStore.StudentTable.constructor` | main.py:48 | `CREATE TABLE IF NOT EXISTS` opens the table with the rows it already holds. |
| `StudentStore.StudentTable.Insert` | main.py:75 | The insert succeeds iff the id was absent. On success the row is added; on a duplicate the key is violated and the table is unchanged. |
| `Scraper.IsRecordable` | main.py:73 | The model's definition of the name test, with no contract of its own. `RecordableIsExact` states its properties. |
| `Scraper.Step` | main.py:56-79 | The model's definition of one loop body, with no contract of its own. `StepEffect` states its effect. |
| `Scraper.Scan` | main.py:55-79 | The model's definition of the whole loop, with no contract of its own. `ScanClosedForm` and its corollaries state its properties, and `ScanRange` is proved to compute it. |
| `Scraper.QueriedIds` | main.py:55-56 | The model's definition of the IDs the loop queries, with no contract of its own. `QueriedIdsExact` states its properties. |
| `Scraper.ScanRange` | main.py:55-79 | After the loop the table equals `Scan` of the old table and also equals the finds added under IDs not already stored. The IDs queried are exactly `QueriedIds(lo, hi)`. |
| `Scraper.ScanAllIds` | main.py:55 | The program's run over 11900000 … 12600000 inclusive adds the finds of that range to the existing table and queries exactly its valid IDs. |
| `Scraper.RecordableIsExact` | main.py:73 | The comparison itself is exact and case-sensitive: `NO DATA` is stored, `No data` and the empty text are not. |
| `Scraper.StepEffect` | main.py:56-79 | One loop body adds (id, text) exactly when the ID is valid, its page showed a recordable text and the ID is not yet stored; otherwise the table is unchanged. |
| `Scraper.FindsStep` | main.py:55-75 | Extending the range by one ID adds that ID's find, if any, and nothing else. |
| `Scraper.ScanClosedForm` | main.py:55-79 | The table after a scan is `Finds(lo, hi) + rows`, where `Finds` maps each valid ID of [lo, hi) whose page showed a recordable text to that text. The old rows win on every shared key. |
| `Scraper.ScanKeepsExistingRows` | main.py:75-79 | Every row present before the scan is present after it with the same value: nothing is overwritten. |
| `Scraper.ScanAddsOnlyFinds` | main.py:55-75 | Every row the scan adds lies in [lo, hi), passes the check, and holds the recordable text its page showed. |
| `Scraper.ScanRecordsEveryFind` | main.py:55-75 | Every valid in-range ID with a recordable text is in the table afterwards. Its value is the old one if it was stored before, and the page's text otherwise. |
| `Scraper.FailedIdUntouched` | main.py:57-79 | An ID whose query failed, or showed the empty text or `No data`, is in the table afterwards iff it was before, with the same value. |
| `Scraper.FailureIsolated` | main.py:57-79 | Making the query for one ID fail changes the outcome for that ID only. Every other ID ends up exactly as before. |
| `Scraper.RescanIsIdempotent` | main.py:75-79 | Rescanning a range with the same answers leaves the table unchanged. |
| `Scraper.QueriedIdsExact` | main.py:55-56 | The queried IDs are strictly ascending and are exactly the IDs in [lo, hi) that pass the check. |
| `Scraper.QueriedIdsSatisfyChecksum` | main.py:55-56 | In a range of 8-digit numbers, such as 11900000 … 12600000, every queried ID satisfies the arithmetic checksum. |
| `Scraper.SampleScan` | main.py:55-79 | Scanning 12345670 … 12345680 into an empty table queries only 12345679. If that page shows `DELACRUZ, JUAN`, the table ends with exactly that one row. |
| `Scraper.SampleCheck` | main.py:12-26 | Of 12345670 … 12345680, only 12345679 passes the check. |

## Left out

- The Selenium session (headless Firefox, driver install, `WebDriverWait`, the input field, `send_keys`, the fixed URL) is not modelled. It is external browser automation and is replaced by the `query` oracle.
- The timing, the 20-second wait bound, and the kinds of exception are not modelled. They all collapse into `Failure`.
- The SQLite connection, cursor, `commit` and `close` are not modelled, and neither is durability. The table is modelled only as the keyed map with its duplicate-key rejection. A failure of `commit` itself after a successful insert is not modelled.
- The text of the `print` logging is not modelled. A `print` that raises inside the `try` is modelled as a `Failure` answer for that ID, as above.
- Negative arguments to `is_dlsu_id` are not modelled. `str` of a negative number carries a sign, and `int('-')` would raise. The model's domain is `nat`, which covers the whole scanned range.
- `DlsuId.IsDlsuId`: the interpreter's limit on int-to-string conversion is not modelled. With that limit (4300 digits by default), `str(id)` at main.py:18 raises `ValueError` for every id ≥ 10^4300, so `is_dlsu_id` raises where the model returns false. The scanned range is far below that bound.
- `Scraper.ScanRange`: the oracle is a function of the ID, so the model cannot express a page that answers differently for the same ID at different times. Each ID is queried at most once per run, so this matters only across runs, and rescans are modelled with the same answers.
- `Scraper.ScanRange`: covers only runs that complete the range. A run can end early in two ways. First, the `print` in the exception handler (main.py:79) is outside the `try`, so it can raise, for example because standard output is a closed pipe. Second, the handler at main.py:78 catches only `Exception`, so a `KeyboardInterrupt` (Ctrl-C, say during the wait at main.py:71) or a `SystemExit` is not caught. Either one ends the loop and the `with` block and skips `conn.close()`. The table then keeps the rows committed so far, which is a prefix `Scan(rows, lo, k, query)` of the scan, and the rest of the range is never scanned.
