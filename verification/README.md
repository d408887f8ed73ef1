# Transaction summary: validation and aggregation core

A Dafny model of the core of a small transaction-report program
(`transacciones.py`). The program reads a CSV file of transactions with the
columns `id`, `tipo` and `monto`, keeps the rows that validate, and computes
three statistics over them: the final balance (`calcular_balance`), the
largest transaction (`transaccion_mayor`) and the per-type counts
(`contar_transacciones`).

The model is split into five modules:

- `Outcomes` (`outcomes.dfy`): `Option` and `Result`, the failure-carrying values used below.
- `Decimal` (`decimal.dfy`): the two conversions applied to cells, `int(text)`
  (`ParseInt`) and `float(text)` (`ParseNumber`), over a plain decimal
  grammar with exact `real` values, plus the canonical integer spelling
  (`FormatInt`) used as the parser's inverse.
- `Transactions` (`transactions.dfy`): the loader. A row is three cells as
  the CSV dictionary reader hands them over. A cell is `Absent` when the
  column is not in the header, `NoValue` when the line is shorter than the
  header (the reader fills in `None`), or `Value(text)`. `Validate` runs the
  body of the row loop in the source's evaluation order. It returns one of:
  - `Keep(tx)`: the row becomes a record.
  - `Skip(reason)`: a `ValueError` caught by the loop; the row is dropped and the loop goes on.
  - `Abort(error)`: a `KeyError` or `TypeError` that escapes to the outer handler,
    which ends the process.
  
  `Load` folds the verdicts over the rows in order. It returns
  `Failure` on the first aborting row and never returns an empty list in that case.
- `Aggregates` (`aggregates.dfy`): `Balance`, `Counts` and `Largest` over the
  loaded records.
- `Pipeline` (`pipeline.dfy`): how one more input row moves the statistics,
  and whole runs over small example files.

## Model

| member | source | states |
|---|---|---|
| `Decimal.ParseInt` | transacciones.py:14 | text accepted as an integer is non-empty and has no dot; a negative result needs a leading `-`; `float()` accepts the same text with the same value |
| `Decimal.ParseNumber` | transacciones.py:16 | text accepted as a number is non-empty and uses only digits, dots and one leading sign; a negative result needs a leading `-` |
| `Decimal.IntRoundTrip` | transacciones.py:14 | on the modelled `[+-]digits` grammar, every integer written in its canonical decimal form is read back as itself (Python 3.11 and later also refuse more than 4300 digits; see Left out) |
| `Decimal.NumberAcceptsIntegers` | transacciones.py:14-16 | any text `int()` accepts is also accepted by `float()`, with the same value |
| `Decimal.FractionValue` | transacciones.py:16 | `float()` of an unsigned literal `w.f`, where either digit string may be empty but not both, is the whole part plus the fraction digits divided by ten to the number of fraction digits |
| `Decimal.SignedFractionValue` | transacciones.py:16 | `float()` of `-w.f` is minus that positional value and of `+w.f` is the value itself, so negative amounts carry their sign into the balance |
| `Decimal.DigitsValueConcat` | transacciones.py:14-16 | the value of concatenated digit strings is the left value shifted by the right length plus the right value |
| `Transactions.ParseKind` | transacciones.py:17-18 | a `tipo` is recognised exactly when it is "Crédito" or "Débito", and the recognised kind's name is that text |
| `Transactions.KindNameRoundTrip` | transacciones.py:17 | each kind's name is recognised as that kind |
| `Transactions.Validate` | transacciones.py:13-27 | a row is kept iff all three cells are present, `id` parses as an integer, `monto` as a number and `tipo` is one of the two names; a kept record carries exactly the parsed id and amount and the kind that `tipo` names. In evaluation order: a missing `id` column aborts with `KeyError` and a missing `id` value with `TypeError`; an `id` that does not parse is skipped; then a missing `tipo` column aborts with `KeyError`; then a missing `monto` column aborts with `KeyError` and a missing `monto` value with `TypeError`; a `monto` that does not parse is skipped; only after that is a `tipo` that is not one of the names skipped |
| `Transactions.Step` | transacciones.py:19-27 | after a failure every further row leaves the failure as it is; a success extends the records so far as a prefix, by exactly one record when the row is kept and by none otherwise; from a success, the step fails exactly when the row aborts |
| `Transactions.Load` | transacciones.py:11-27 | a successful load returns no more records than there are rows |
| `Transactions.LoadAppend` | transacciones.py:11-27 | one more row appends exactly its record if it is kept, leaves the output unchanged if it is skipped, turns a success into that row's error if it aborts, and cannot undo an earlier failure |
| `Transactions.LoadConcat` | transacciones.py:11-21 | each row's contribution is independent of the other rows: loading `a + b` equals loading `a` and `b` separately and joining the results, with the first failure winning |
| `Transactions.LoadSucceedsIff` | transacciones.py:11-33 | the load succeeds exactly when no row raises an error other than `ValueError` |
| `Transactions.WellFormedRowsLoad` | transacciones.py:14-21 | if every line carries all three columns, row problems are never fatal and the load succeeds |
| `Transactions.LoadFailsAtFirstAbort` | transacciones.py:11-33 | a failed load reports the error of the first aborting row, and all earlier rows were kept or skipped |
| `Transactions.KeptPositions` | transacciones.py:11-27 | the positions of the acceptable rows, strictly increasing, each within the input, and containing a position exactly when that row is acceptable |
| `Transactions.LoadKeepsAcceptableRowsInOrder` | transacciones.py:11-27 | a successful load returns one record per acceptable row, in input order, each being that row's validated record: the image of a subsequence of the input |
| `Transactions.RecordsComeFromRows` | transacciones.py:14-27 | every loaded record comes from an acceptable input row whose `id` and `monto` parse to its values and whose `tipo` names its kind |
| `Aggregates.Total` | transacciones.py:39-40 | the sum of the amounts of one kind is zero when no record has that kind, and non-negative when every amount is |
| `Aggregates.TotalConcat` | transacciones.py:39-40 | the per-kind amount sum of a concatenation is the sum of the parts' sums |
| `Aggregates.Balance` | transacciones.py:37-41 | the balance of no records is 0 |
| `Aggregates.BalanceIsNetFlow` | transacciones.py:39-41 | credit total minus debit total equals the sum over all records of `+amount` for a credit and `-amount` for a debit |
| `Aggregates.BalanceConcat` | transacciones.py:39-41 | the balance of a concatenation is the sum of the balances |
| `Aggregates.Count` | transacciones.py:50-51 | a per-kind count is at most the number of records, and it is zero exactly when no record has that kind |
| `Aggregates.CountsCover` | transacciones.py:50-52 | the credit count plus the debit count is the number of records |
| `Aggregates.Counts` | transacciones.py:48-52 | the two counts sum to the number of records; the credit count is zero iff every record is a debit, and the debit count is zero iff every record is a credit |
| `Aggregates.CountConcat` | transacciones.py:50-51 | the per-kind count of a concatenation is the sum of the parts' counts |
| `Aggregates.LargestPosition` | transacciones.py:45 | on a non-empty sequence the scan stops on a position whose amount is at least every amount and strictly above every earlier amount (first maximum wins), and it is the only such position |
| `Aggregates.Largest` | transacciones.py:43-46 | the returned pair is the id and amount of the first record with the largest amount; no record has a larger amount |
| `Aggregates.LargestAppend` | transacciones.py:45 | appending a record changes the answer only when its amount is strictly larger than the current largest |
| `Pipeline.AcceptedRowUpdatesStatistics` | transacciones.py:11-52 | an acceptable row moves the balance by its signed amount and raises the count of its kind by one |
| `Pipeline.SkippedRowChangesNothing` | transacciones.py:19-21 | a skipped row leaves the balance, the counts and the largest transaction unchanged |
| `Pipeline.KeptAs` | transacciones.py:14-27 | a row whose three cells parse is kept with exactly the parsed values |
| `Pipeline.ExampleRun` | transacciones.py:11-52 | rows (1, Crédito, "100.00"), (2, Débito, "40.00"), (3, Crédito, "-1,bad") load as the first two records. The balance is 60, the largest is (1, 100) and the counts are (1, 1) |
| `Pipeline.ExampleRunWithExtraField` | transacciones.py:11-41 | if the third line is split into four cells, `monto` is "-1", the row is kept with a negative amount, and the balance is 59 |
| `Pipeline.MissingColumnIsFatal` | transacciones.py:13-33 | with `monto` missing from the header, a row with an unparsable id is still only skipped, but the next row with a valid id ends the load with a `KeyError` |
| `Pipeline.ShortLine` | transacciones.py:14-21 | a line cut off before `monto` is only skipped when its `id` is "abc", but ends the load with `TypeError` when its `id` is "7" |

## Behaviour worth knowing

- A missing column is fatal. Looking it up raises `KeyError`, which the row
  handler does not catch (it catches only `ValueError`), so the outer handler
  exits the process. The model returns `Failure(KeyError(column))`. This
  happens only when some row reaches the lookup: a file with no data rows
  loads as an empty list, and a row whose `id` does not parse is skipped before
  `tipo` and `monto` are looked up.
- A short line is fatal when it cuts off `id`, or when it cuts off `monto` on a
  row whose `id` parses. The CSV reader fills the missing fields with `None`,
  and `int(None)` or `float(None)` raises `TypeError`. The model returns
  `Failure(TypeError(column))`. A row whose `id` does not parse is skipped
  before `monto` is read, short or not. A `None` in `tipo` is only "not one of
  the two names", so once `id` and `monto` have parsed that row is skipped.
- The largest transaction needs at least one record. `max` raises on an empty
  list, and both entry points stop before that call when no records were
  loaded, so `Largest` requires a non-empty sequence.
- Ids and amounts may be negative. Neither conversion rejects a leading `-`,
  and no later check looks at the sign.
- A CSV line `3,Crédito,-1,bad` is read as four cells, so `monto` is `-1` and
  the row is kept (`ExampleRunWithExtraField`, balance 59). Only when `-1,bad`
  arrives as a single cell is the row skipped and the balance 60
  (`ExampleRun`).
- Ties for the largest transaction go to the first record. Python's `max`
  replaces its candidate only on a strictly larger key.

## Left out

- Opening the file and the CSV tokenisation of `csv.DictReader`. The model starts from rows already split into cells.
- `print` diagnostics and `sys.exit`. A skipped row carries a `Rejection` reason instead of printing. A fatal error is a `Failure` value instead of ending the process.
- `mostrar_reporte`, the JSON and CSV export, and the command-line entry points (`main.py` and the `__main__` block). These are formatting, file output and process control.
- Decimal.ParseInt: only `[+-]digits` is accepted. Python's `int()` also strips surrounding whitespace, allows `_` between digits and accepts non-ASCII digits, so the model skips some rows Python keeps. In the other direction, Python 3.11 and later (and the security releases of earlier versions) raise `ValueError` on a decimal string of more than 4300 digits, so Python skips rows with such an `id` that the model keeps; the model has no digit limit.
- Decimal.ParseNumber: only `[+-](digits[.digits*] | .digits)` is accepted. Exponents, `inf`, `nan`, surrounding whitespace, `_` separators and non-ASCII decimal digits are not modelled, so the model skips some rows Python keeps.
- Aggregates.Balance: amounts are exact reals. IEEE-754 rounding in `float()` and in the sums is not modelled, and neither is overflow to infinity.
- Aggregates.Largest: amounts are exact reals, so two texts that round to the same double (`0.1` and `0.10000000000000000001`) tie in Python, where `max` keeps the first, but differ in the model, which picks the strictly larger exact value.
