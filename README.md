# gnucash-mobile-to-beancount: `transform_csv` in Dafny

This project models `transform_csv` from `convert.py`. That function reads
a transaction export that GnuCash mobile (or GnuCash desktop) wrote as CSV
and writes the same transactions as beancount text.

The CSV reader hands the function its header and a sequence of rows. Each
row maps a column name to its text. Two variables persist across rows: the
last transaction ID seen and the current currency.

- A row whose `Transaction ID` is non-empty and differs from the last one
  opens a transaction. It writes a header line `DATE * "DESCRIPTION"`, and
  the currency becomes the text after the last `:` of its
  `Commodity/Currency`.
- Every row then writes one posting line with three parts:
  - the account, with spaces turned into `-` and commas dropped;
  - the amount, with `(` turned into `-` and `)` dropped, so a
    parenthesised negative number reads as a signed one;
  - the current currency.
- The amount comes from column `Amount Num`. When the header lacks that
  column it comes from `Amount Num.`, the desktop name.

The files:

- `pystr.dfy` (module `PyStr`) models `str.replace` and `str.split`, with
  the one-character arguments the converter passes them.
- `convert.dfy` (module `Convert`) has the data model and the rewrites. It
  gives the loop its specification, as the function `Entries` over the
  per-row step `Next`/`RowLines`. It also has the imperative loop itself,
  `TransformCsv` with its loop body `WriteRow`, proved to write exactly
  `Entries`.
- `grouping.dfy` (module `Grouping`) gives an independent reference
  definition, `Expected`. It says, row by row and in terms of the rows
  before, when a header is written and which currency a posting carries.
  `EntriesMatchExpected` proves the two definitions equal. The line counts
  and the grouping facts are proved from there.

The output file is modelled as the sequence of strings passed to
`output_file.write`, in order.

The loop proof uses four lemmas: `EntriesStep`, `WrittenRow`,
`RowIsReadable` and `RowWrites`. They are steps of the proof of
`TransformCsv` and state nothing beyond its contract, so they have no row
below.

## Model

| member | source | states |
|---|---|---|
| PyStr.Replace | convert.py:54-55 | replacing a character by text that does not contain it leaves no occurrence; a string without it is unchanged |
| PyStr.ReplaceKeepsOut | convert.py:54-55 | replace introduces no character found in neither the string nor the replacement |
| PyStr.ReplaceAppend | convert.py:54-55 | replace works character by character: it distributes over concatenation |
| PyStr.ReplaceByChar | convert.py:54 | replacing by a single character keeps the length and maps every position independently |
| PyStr.Split | convert.py:52 | split yields at least one piece, no piece holds the separator, and joining the pieces with it gives back the string |
| PyStr.SplitLastIsTail | convert.py:52 | the last piece of a split is the suffix after the last separator, or the whole string when there is none |
| Convert.AmountColumn | convert.py:44-47 | the amount column is `Amount Num` exactly when the header has it, and `Amount Num.` otherwise |
| Convert.AccountName | convert.py:54 | a written account holds no space and no comma |
| Convert.AccountNameAppend | convert.py:54 | the account rewrite distributes over concatenation |
| Convert.AccountNameChar | convert.py:54 | per character: a space becomes `-`, a comma disappears, anything else stays |
| Convert.AccountNameUnchanged | convert.py:54 | an account without spaces or commas is written unchanged |
| Convert.AccountNameJoined | convert.py:54 | `a, b c` is written `a-b-c` for words without spaces or commas |
| Convert.AccountNameSample | convert.py:54 | `Cash, US Bank` is written `Cash-US-Bank` |
| Convert.AmountText | convert.py:53-55 | a written amount holds no parenthesis; an amount without parentheses is written unchanged |
| Convert.AmountTextByChar | convert.py:55 | the amount rewrite distributes over concatenation; `(` becomes `-`, `)` disappears, anything else stays |
| Convert.AmountTextNegative | convert.py:53-55 | a parenthesised amount `(d)` is written as `-` followed by the rewritten `d`, for every `d` |
| Convert.AmountTextSample | convert.py:53-55 | `(12.34)` is written `-12.34` |
| Convert.CurrencyIsLastSegment | convert.py:52 | the currency is the part of the commodity id after its last `:` (all of it when there is none) and holds no `:` |
| Convert.CurrencyAfterColon | convert.py:52 | the currency of `p:q` is `q` whenever `q` has no `:`, whatever `p` holds |
| Convert.CurrencySample | convert.py:52 | the currency of `CURRENCY:USD` is `USD` |
| Convert.Render | convert.py:51-56 | every write ends with a newline; a header starts with its date, a posting with a two-space indent |
| Convert.RenderAll | convert.py:51-56 | one write per line, in order, each the rendering of its line |
| Convert.Opens | convert.py:49 | a row with an empty ID, or with the ID already remembered, never opens a transaction; any ID opens one when none is remembered |
| Convert.Next | convert.py:49-52 | the remembered ID becomes the row's ID when that is non-empty and stays otherwise; the state changes only when a transaction opens, and then the currency is the row's commodity currency |
| Convert.WriteRow | convert.py:49-56 | one pass of the loop body writes exactly the row's specified lines and leaves the next state (ID and currency) |
| Convert.TransformCsv | convert.py:39-56 | without a header line the call fails; otherwise it writes exactly the specified entries for all rows, from an empty ID and currency, with the chosen amount column |
| Grouping.AfterSnoc | convert.py:48-52 | the state after one more row is one more step from the state after the others |
| Grouping.EntriesSnoc | convert.py:48-56 | one more row appends that row's lines, in the state the previous rows leave |
| Grouping.AfterIsHistory | convert.py:42-52 | after any rows, the remembered ID is the most recent non-empty ID and the currency is that of the last row that opened a transaction |
| Grouping.OpensIffStarts | convert.py:49-50 | a row writes a header if and only if its ID is non-empty and differs from the most recent non-empty ID before it |
| Grouping.EntriesMatchExpected | convert.py:48-56 | the loop's output equals the row-by-row reference definition |
| Grouping.ExpectedCounts | convert.py:49-56 | the reference output has one header per row that starts a transaction and one posting per row |
| Grouping.LineCount | convert.py:48-56 | the output has exactly one posting per row and one header per started transaction, and the number of writes is their sum |
| Grouping.ContinuesTransaction | convert.py:49 | a row with the same ID as the row before it never writes a header |
| Grouping.EmptyIdKeepsLastId | convert.py:49-50 | a row with an empty ID leaves the remembered ID unchanged |
| Grouping.CurrencyBeforeFirstHeader | convert.py:42-52 | while no row has started a transaction, postings carry the initial currency (empty at the start) |
| Grouping.FirstIdStarts | convert.py:43-50 | from the start of the function, the first row with a non-empty ID always starts a transaction |
| Grouping.SharedIdOneHeader | convert.py:48-56 | two rows with one ID give one header and two postings, both in the first row's currency |
| Grouping.RepeatedIdReopens | convert.py:49-51 | IDs `a`, `b`, `a` give three headers: grouping compares with the most recent ID only |

## Left out

- `main` is left out: it finds the newest export, copies `template.beancount` to the output, and opens and closes files. This is file-system I/O. The output here is only what `transform_csv` writes.
- `start_fava` is left out: it starts a web server through foreign modules.
- `strip_accents` is left out: it is unused, and it relies on Unicode normalisation, which has no counterpart here.
- CSV tokenisation is left out: quoting, escaped quotes, line endings and newlines inside fields. The rows arrive already split, as maps from column name to text.
- Rows with fewer cells than the header are left out. Every row is taken to carry a string for every header column. In the source, the reader fills the missing cells with `None`, and the effect depends on the column:
  - a missing `Date` or `Description` is printed as `None` in the header;
  - a missing account or amount raises `AttributeError` at the `replace` calls;
  - a missing commodity raises `AttributeError` at the `split` call when the row opens a transaction;
  - a missing `Transaction ID` counts as empty, so the row writes no header.
- Cells beyond the header are left out. The reader gathers them under a `None` key, which the function never reads.
- Convert.TransformCsv: a missing column raises `KeyError` in the source. Here this is a precondition, `Readable`, which is exact. The ID, account and amount columns are needed as soon as there is a row. The date, description and commodity columns are needed as soon as some row has a non-empty ID, because the first such row always opens a transaction.
- Grouping.LineCount: it counts `write` calls, one per header or posting. This equals the number of text lines only when no field holds a newline, which a quoted CSV field may.
- Convert.TransformCsv: `output_file` is a value, not an object. Writes are collected as a sequence of strings, and write errors are not modelled.
- Convert.Currency carries no contract of its own. Its meaning is stated by `CurrencyIsLastSegment` and `CurrencyAfterColon`.
