# Portfolio optimiser: result wrapper and CSV upload validator

This project models the two discrete components of the portfolio-optimisation
service, then proves properties about the model:

- `Results` (`results.dfy`) is the Rust-style `Result` wrapper
  (`shared/utils/result.py`). The Python class stores a value and an `_is_ok`
  flag. Both are assigned once and never changed. So the model is an
  immutable datatype `Ok(value) | Err(error)`. The Python factories `Ok` and
  `Err` are its two constructors. The queries `is_ok`, `is_err`, `ok` and
  `err` become member functions. `ok()`/`err()` return an `Option`, whose
  `None` stands for Python's `None`. Unlike Python, the `Option` tags a
  wrapped value, so a wrapped `None` is `Some(None)` here (see
  "## Left out"). `unwrap` and `unwrap_err` raise a `RuntimeError` on the
  wrong case. They return a
  `Call<T> = Returns(value) | Raises(message)`, where the message is modelled
  too. `__repr__` is `Repr`. The `str()` and `repr()` of the wrapped values
  are passed in as function parameters.
- `CsvParser` (`csv_parser.dfy`) is `validate_and_parse_csv`
  (`shared/utils/csv_parser.py`), an ordered chain of guards. They run in this
  order:
  1. empty filename;
  2. a filename not ending in `.csv`, where the error quotes
     `filename.split('.')[-1]`;
  3. the exceptions of decoding and `read_csv`;
  4. an empty table;
  5. non-numeric columns, which the error lists in order;
  6. `dropna()`, then the emptiness check again.

  Decoding and `read_csv` are a reader parameter
  `read: seq<byte> -> ParseOutcome<V>`. The reader's outcome is either
  `Parsed(table)` or one of the caught exceptions: `DecodeFailure`,
  `EmptyData`, `ParserFailure` or `Other(message)`. A table is a sequence of
  columns, each a name plus the `is_numeric_dtype` verdict, and a sequence of
  rows of `Option` cells, where `None` is a missing value. Every error string
  is the source's exact text.
- `PyStrings` (`pystrings.dfy`) models the Python string methods the
  validator uses: `endswith`, `split` with a one-character separator, and
  `join`.
- `Sequences` (`sequences.dfy`) is the order-preserving filter behind the
  list comprehension and `dropna()`. Its specification is an independent
  subsequence predicate plus element counts.

The model follows the code:

- The only accepted extension is `.csv`, and the check is case-sensitive, so
  `data.CSV` is rejected.
- An empty table is one with no rows or with no columns, as pandas defines
  `DataFrame.empty`.

## Model

| member | source | states |
|---|---|---|
| `Results.Result.IsOk` | shared/utils/result.py:15-16 | `is_ok()` is the flag the factory set: it holds exactly for `Ok(value)`; the discriminator laws are `OkLaws`, `ErrLaws` and `IsErr` |
| `Results.Result.IsErr` | shared/utils/result.py:18-19 | `is_err()` is always the negation of `is_ok()` |
| `Results.Result.GetOk` | shared/utils/result.py:21-22 | `ok()` is `Some` exactly for a success, and then holds the wrapped value |
| `Results.Result.GetErr` | shared/utils/result.py:24-25 | `err()` is `Some` exactly for a failure, and then holds the wrapped error |
| `Results.Result.Unwrap` | shared/utils/result.py:27-30 | `unwrap()` returns exactly for a success, and returns what `ok()` reports; on a failure it raises with "Tried to unwrap an Err value: " followed by `str()` of the error |
| `Results.Result.UnwrapErr` | shared/utils/result.py:32-35 | `unwrap_err()` returns exactly for a failure, and returns what `err()` reports; on a success it raises with "Tried to unwrap an Ok value: " followed by `str()` of the value |
| `Results.Result.Repr` | shared/utils/result.py:37-40 | `repr` starts with `Ok(` exactly for a success and with `Err(` exactly for a failure, and ends with `)` |
| `Results.ReprInjective` | shared/utils/result.py:37-40 | if the `repr` of the values and the errors is injective, then two results with the same `repr` are equal |
| `Results.QueriesDetermineResult` | shared/utils/result.py:11-25 | two results on which `ok()` and `err()` agree are the same result, so the stored pair is all there is |
| `Results.UnwrapAgreesWithQueries` | shared/utils/result.py:21-30 | `unwrap()` returns `v` iff `ok()` is `Some(v)`, and it raises iff `err()` is `Some` |
| `Results.UnwrapErrAgreesWithQueries` | shared/utils/result.py:24-35 | `unwrap_err()` returns `e` iff `err()` is `Some(e)`, and it raises iff `ok()` is `Some` |
| `Results.OkLaws` | shared/utils/result.py:42-43 | `Ok(v)` is ok and not err, `ok()` is `v` and `err()` is None |
| `Results.ErrLaws` | shared/utils/result.py:45-46 | `Err(e)` is err and not ok, `err()` is `e` and `ok()` is None |
| `PyStrings.EndsWithIff` | shared/utils/csv_parser.py:16 | `endswith(suffix)` holds iff the text is some prefix followed by `suffix` (case-sensitive) |
| `PyStrings.Split` | shared/utils/csv_parser.py:17 | `split(sep)` yields at least one piece, and no piece contains the separator |
| `PyStrings.JoinSplit` | shared/utils/csv_parser.py:17 | joining the pieces of `split(sep)` with `sep` gives back the original text |
| `PyStrings.LastPiece` | shared/utils/csv_parser.py:17 | `filename.split('.')[-1]` has no `.` and ends the name; it is the whole name iff there is no `.`; otherwise a `.` comes just before it, so it is the text after the last `.` |
| `PyStrings.SplitSingleIff` | shared/utils/csv_parser.py:17 | `split(sep)` yields a single piece exactly when the text has no separator |
| `PyStrings.SplitJoin` | shared/utils/csv_parser.py:17 | splitting the join of separator-free pieces gives back the pieces; with `JoinSplit`, `split('.')` is the unique `.`-free decomposition of the name |
| `PyStrings.JoinContainsParts` | shared/utils/csv_parser.py:29 | every piece occurs in the text `sep.join(pieces)` |
| `CsvParser.UnsupportedTypeMessage` | shared/utils/csv_parser.py:17 | the unsupported-type message starts with the fixed text, ends with `'.`, and quotes exactly the extension between them |
| `CsvParser.NonNumericMessage` | shared/utils/csv_parser.py:28-29 | the non-numeric message starts with the fixed text, ends with `.`, and names every column it is given |
| `CsvParser.UnexpectedMessage` | shared/utils/csv_parser.py:48 | the catch-all message is the fixed text followed by exactly the exception's text |
| `CsvParser.IsEmpty` | shared/utils/csv_parser.py:23 | `DataFrame.empty` holds exactly when the table has no cells, meaning no rows or no columns |
| `CsvParser.AllNumericIff` | shared/utils/csv_parser.py:26-27 | `all(is_numeric_dtype ...)` holds exactly when the list of non-numeric columns is empty |
| `CsvParser.NonNumericColumns` | shared/utils/csv_parser.py:27 | the comprehension yields an in-order subsequence of the columns that contains a column iff it is non-numeric |
| `CsvParser.IsComplete` | shared/utils/csv_parser.py:32 | a row `dropna()` keeps is one in which no cell is missing |
| `Sequences.Filter` | shared/utils/csv_parser.py:27 | a comprehension's filter has every kept element satisfying the condition, takes every element from the input, and is no longer than its input |
| `Sequences.FilterExact` | shared/utils/csv_parser.py:27 | the filter is a subsequence of its input, keeps order and adds nothing; each kept element occurs as often as in the input and no other element occurs |
| `Sequences.FilterEmptyIff` | shared/utils/csv_parser.py:26-27 | the filter is empty iff no element satisfies the condition, so `not all(...)` and a non-empty comprehension agree |
| `Sequences.FilterShrinksIff` | shared/utils/csv_parser.py:31-33 | the filter removes something iff some element fails the condition, and it is the identity when all pass |
| `Sequences.FilterIdempotent` | shared/utils/csv_parser.py:32 | filtering twice is filtering once |
| `CsvParser.DropNa` | shared/utils/csv_parser.py:32 | `dropna()` keeps the columns, leaves only complete rows and adds no rows |
| `CsvParser.DropNaKeepsCompleteRows` | shared/utils/csv_parser.py:31-34 | `dropna()` keeps exactly the complete rows, in their order, with their multiplicities; it preserves well-formedness; it drops rows iff some row has a missing cell; it is idempotent |
| `CsvParser.CheckTable` | shared/utils/csv_parser.py:23-39 | an `Ok` from the table guards is non-empty, all-numeric and has no missing cell, and it is the `dropna()` of the parsed table |
| `CsvParser.CheckOutcome` | shared/utils/csv_parser.py:41-48 | only a parsed table can give `Ok`, and then through the table guards; every exception outcome gives `Err` |
| `CsvParser.ValidateAndParseCsv` | shared/utils/csv_parser.py:7-48 | an `Ok` needs a non-empty `.csv` name and a parsed table, and it holds that table after `dropna()`: non-empty, all-numeric, no missing cell |
| `CsvParser.EmptyFilenameFirst` | shared/utils/csv_parser.py:13-14 | an empty name gives the empty-name `Err` whatever the content and the reader |
| `CsvParser.WrongExtensionRejected` | shared/utils/csv_parser.py:16-17 | a non-empty name without `.csv` gives the unsupported-type `Err` quoting the text after the last `.` |
| `CsvParser.FilenameGuardsIgnoreContent` | shared/utils/csv_parser.py:13-21 | a name that the guards reject gets the same `Err` for every content and every reader, so the name checks come before decoding |
| `CsvParser.ReadFailuresBecomeErr` | shared/utils/csv_parser.py:41-48 | decode, empty-data and parser failures each map to their own `Err` message; any other exception maps to the "unexpected" `Err` carrying its text |
| `CsvParser.EmptyCheckedBeforeNumeric` | shared/utils/csv_parser.py:23-26 | an empty table gives the empty-on-read `Err`, whatever its columns' dtypes |
| `CsvParser.NonNumericRejected` | shared/utils/csv_parser.py:26-29 | a non-empty table with a non-numeric column gives the `Err` that lists exactly the non-numeric columns, as an in-order subsequence with their multiplicities; `Ok` is impossible here |
| `CsvParser.EmptyAfterDropDistinct` | shared/utils/csv_parser.py:36-37 | a non-empty all-numeric table with no complete row gives the after-`dropna` `Err`, which differs from the empty-on-read `Err` |
| `CsvParser.AcceptsExactly` | shared/utils/csv_parser.py:13-39 | the validator accepts iff the name is a non-empty `.csv` name, reading gives a non-empty all-numeric table, and at least one row is complete |

## Left out

- GetOk: in Python `ok()` returns the bare value, so `Ok(None).ok()` is `None` and "`Some` exactly for a success" holds only when the wrapped value is not `None`. The model's `Option` tags the value. No caller wraps `None`: the validator wraps a table or a string.
- GetErr: likewise `Err(None).err()` is `None` in Python, so "`Some` exactly for a failure" holds only when the wrapped error is not `None`.
- QueriesDetermineResult: in Python `Ok(None)` and `Err(None)` agree on `ok()` and `err()` yet differ in `is_ok()`. The lemma holds of the source only when neither side wraps `None`.
- UnwrapAgreesWithQueries: in Python `Err(None).unwrap()` raises although `err()` is `None`. The "raises iff `err()` reports something" half holds of the source only for a wrapped error other than `None`.
- UnwrapErrAgreesWithQueries: in Python `Ok(None).unwrap_err()` raises although `ok()` is `None`. The "raises iff `ok()` reports something" half holds of the source only for a wrapped value other than `None`.
- The portfolio optimiser (`core/services/portfolio_optimizer.py`) is left out. It is floating-point statistics handed to the numerical library's SLSQP solver, a foreign solver.
- UTF-8 decoding, `read_csv` tokenising, the `index_col=0` split and pandas dtype inference are left out. They are library code. The model takes them as the `read` parameter and the per-column `isNumeric` flag. Exceptions raised after reading, such as inside `dropna`, are not modelled; the reader's `Other` outcome covers unexpected exceptions.
- The console warning printed when rows are dropped is I/O and is left out. The condition it is printed under is proved instead, in `Sequences.FilterShrinksIff`.
- The `async` marker on `validate_and_parse_csv` is left out. The function awaits nothing, so the model is an ordinary function.
- The filename is modelled as a string. The web framework can pass `None`; the source treats it like an empty name, and the model does not cover it.
- `Result` immutability and the rule that repeated queries agree hold by construction. Dafny datatype values are immutable and their functions are deterministic, so no separate member states them.
- Python allows `Result(value, is_ok)` to be built directly with a value of either type. The model uses the typed sum, which is what the `Ok`/`Err` factories produce.
- The FastAPI glue is outside the core and is left out: the router, the upload dependency mapping `Err` to HTTP 400, the RFC 7807 error handlers and the app wiring.
- The pydantic schemas are outside the core and are left out. Their bounds are declarative and enforced by the framework.
