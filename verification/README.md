# DeID anonymiser: a Dafny model of the transform core

DeID anonymises a tabular dataset before it is written back to disk. For every
column the operator opts into, with an interval size:

- a text column has each cell replaced by its SHA-256 digest;
- any other column has each cell `v` replaced by `floor(v / s) * s`, which
  buckets values into width-`s` intervals anchored at zero.

`k_anonymize` applies this column by column, once per entry of the directive
dictionary. It skips names that are not columns of the frame. It never reads
`k`. Loading and saving pick the file format from the lower-cased text after
the last `.` of the path. Only `csv` and `json` are accepted; anything else
raises `ValueError`.

The model has five modules:

- `Results` (`results.dfy`): the two Python exceptions the core raises
  (`KeyError`, `ValueError`) and a `Result` type.
- `Table` (`table.dfy`): a frame as an ordered sequence of named columns. Each
  column is `Numeric(seq<int>)` or `Text(seq<string>)`. The module also defines
  "same shape": same names in the same order, and the same kind and row count
  for each column.
- `Generalization` (`generalization.dfy`): the bucket arithmetic, one column's
  generalisation, and `generalize_column` on a frame.
- `KAnonymity` (`k_anonymity.dfy`): the `k_anonymize` loop as a method. It is
  proved equal to a fold (`ApplyAll`), and the fold is proved equal to a
  column-wise reference definition (`Anonymized`). The reference depends only on
  the dictionary, not on the order it is iterated in.
- `FileFormat` (`file_format.dfy`): the extension dispatch of `load_dataset`
  and `save_dataset`.

The digest is a parameter `hash: string -> string`. Any total function fits,
so the same text always gets the same digest.

Behaviour of the code that the model keeps as it is:

- Text columns that no directive names are left as they are: the loop touches
  only directive columns (DeID.py:51-53), so `Scenario` gives `name` a
  directive of its own.
- There is no invalid-interval error. The code never checks the interval;
  positivity comes only from the form's spinbox range 1..100 (DeID.py:242).
  The model states it as a precondition.
- There is no unsupported-column-type error. Every non-string column takes the
  numeric branch (DeID.py:46-48).
- `generalize_column` raises `KeyError` when the name is not in the schema
  (DeID.py:43). `k_anonymize` guards against this (DeID.py:52), and
  `GeneralizeColumn` models the error.

## Model

| member | source | states |
|---|---|---|
| `Generalization.Bucket` | DeID.py:48 | the bucket `b` of `v` is a multiple of `s` with `b <= v < b + s`; this is floor, not truncation, for negative `v` |
| `Generalization.BucketUnique` | DeID.py:48 | any multiple of `s` within `s` below `v` is the bucket, so the two properties above pin `floor(v / s) * s` down exactly |
| `Generalization.BucketIdempotent` | DeID.py:48 | bucketing a bucketed value with the same interval returns it unchanged |
| `Generalization.BucketConstantOnInterval` | DeID.py:48 | every value of the interval `[b, b + s)` maps to the same representative `b` |
| `Generalization.BucketExamples` | DeID.py:48 | with interval 10: 23 and 29 go to 20, 30 stays 30, -5 goes to -10 |
| `Generalization.GeneralizeCells` | DeID.py:43-48 | one column keeps its kind and row count; each numeric cell becomes a multiple of `s` within `s` below it; each text cell becomes its digest, so equal cells stay equal |
| `Generalization.GeneralizeNumericUnique` | DeID.py:48 | a numeric column generalises to the only column of multiples of `s` that sits cell by cell within `s` below the input |
| `Generalization.GeneralizeNumericIdempotent` | DeID.py:48 | re-applying the same interval to a generalised numeric column is a no-op |
| `Generalization.TextIgnoresInterval` | DeID.py:43-45 | a text column is hashed the same way whatever the interval |
| `Generalization.GeneralizeColumn` | DeID.py:42-48 | fails with `KeyError(name)` exactly when no column has that name; otherwise the shape is kept, the named column is generalised and every other column is untouched |
| `KAnonymity.ToMap` | DeID.py:51 | the directive dictionary built from its items: every item's name is a key, and every value comes from an item with that key |
| `KAnonymity.Anonymized` | DeID.py:50-54 | the column-wise reference result (columns named in the dictionary generalised, others as they were) has the input's shape |
| `KAnonymity.Step` | DeID.py:52-53 | one loop pass keeps the shape, replaces the named column by its generalisation with the directive's interval and leaves every other column untouched; a name that is not a column leaves the frame unchanged |
| `KAnonymity.ApplyAll` | DeID.py:50-54 | the loop run over a list of items keeps the column names, order, kinds and row counts |
| `KAnonymity.KAnonymize` | DeID.py:50-54 | the loop's result is the fold of the items; it has the input's shape; with distinct keys it is the column-wise reference for the dictionary; unique column names and a common row count are kept; it is determined without `k` |
| `KAnonymity.ApplyAllKeepsTable` | DeID.py:50-54 | a frame with unique column names and `n` rows in every column still has both after the loop |
| `KAnonymity.ApplyAllIsColumnwise` | DeID.py:51-53 | for items with distinct names, the sequential loop equals the column-wise reference for their dictionary |
| `KAnonymity.OrderIrrelevant` | DeID.py:51-53 | iterating the same dictionary in any order gives the same frame |
| `KAnonymity.ApplyAllConcat` | DeID.py:51-53 | running the loop over `first + later` equals running it over `first` and then over `later` |
| `KAnonymity.UnknownColumnIgnored` | DeID.py:52 | a directive for a column the frame lacks changes nothing, wherever it stands among the items |
| `KAnonymity.Scenario` | DeID.py:42-54 | `age` (23, 47, 8) with interval 10 becomes (20, 40, 0); `name` ("Alice", "Bob", "Alice") becomes three digests, the first equal to the third |
| `FileFormat.Extension` | DeID.py:24 | the extension has no `.`, ends the path, and is either the whole path or preceded by a `.` |
| `FileFormat.ExtensionUnique` | DeID.py:24 | any suffix with those three properties is the extension |
| `FileFormat.ExtensionAfterLastDot` | DeID.py:24 | the extension of `prefix + "." + ext` is `ext` when `ext` has no `.` |
| `FileFormat.ExtensionNoDot` | DeID.py:24 | a path without any `.` is its own extension |
| `FileFormat.Lower` | DeID.py:24 | lower-casing keeps the length of the path |
| `FileFormat.LowerSpec` | DeID.py:24 | after lower-casing no ASCII capital is left, each capital has become its lower-case partner, and every other character (the `.` included) is kept |
| `FileFormat.ExtensionOfLower` | DeID.py:24 | lower-casing commutes with taking the extension |
| `FileFormat.FileType` | DeID.py:24-30 | accepted exactly when the lower-cased extension is `csv` or `json`; CSV exactly for `csv`; otherwise `ValueError("Unsupported file type")` |
| `FileFormat.FileTypeCaseInsensitive` | DeID.py:24 | a path and its lower-cased form get the same format |
| `FileFormat.FileTypeByExtension` | DeID.py:24-30 | the format depends only on the text after the last `.` |
| `FileFormat.FileTypeExamples` | DeID.py:24-30 | `data.csv` is CSV, `out/Report.JSON` is JSON, `archive.csv.gz` is refused |
| `FileFormat.FileTypeWithoutDot` | DeID.py:24-30 | a path with no `.` is classified by its whole text: `csv` is accepted, `data` is refused |
| `FileFormat.LoadDataset` | DeID.py:24-30 | loading issues a read exactly when the format is accepted (CSV read for `csv`), otherwise raises `ValueError` |
| `FileFormat.SaveDataset` | DeID.py:34-40 | saving issues a write exactly when the format is accepted (CSV write for `csv`), otherwise raises `ValueError` |
| `FileFormat.LoadSaveAgree` | DeID.py:24-40 | loading and saving accept the same paths and choose the same format |

## Left out

- The desktop window, dialogs, theming, progress display, background loading
  thread and timer polling (DeID.py:12-18, 56-357): presentation and UI
  responsiveness only.
- The processing-engine session and the actual reads and writes
  (DeID.py:22, 26, 28, 36, 38): file I/O through a library the model cannot
  see. `LoadDataset` and `SaveDataset` return a description of the read or
  write instead.
- SHA-256 itself: the digest is a parameter. Its 64-hex-digit output form and
  its collision resistance are not modelled and not claimed.
- `Generalization.Bucket`: does not model the cast of the bucket back to the
  column's own type (DeID.py:48). Near the bottom of a fixed-width integer
  type the bucket does not fit: in a 32-bit column, -2147483648 with interval 3
  buckets to -2147483649, which the engine's cast wraps to 2147483647 (or
  rejects in its ANSI mode). There `b <= v` does not hold of the source.
- Floating-point columns, and the round trip through double precision at
  DeID.py:48. Numeric columns hold unbounded integers and are bucketed with
  exact floor division. Precision loss for integers beyond 2^53 is not
  modelled.
- Null cells, and column types other than string and integer (dates, booleans
  and so on), whose treatment in the numeric branch depends on the engine's
  cast rules.
- Interval sizes of zero or below: the source never validates them, so every
  operation requires a positive interval rather than modelling an error path.
- Duplicate column names: the engine refuses an ambiguous schema lookup, while
  `GeneralizeColumn` generalises every column of that name. Frames read from
  CSV headers or JSON records have unique names, so this case does not arise.
  Directive items are assumed to have distinct names where order independence
  is proved, because dictionary keys are unique.
- `FileFormat.Lower`: lower-cases ASCII letters only, while `str.lower`
  handles all of Unicode. The only non-ASCII characters that lower-case to an
  ASCII letter are the Kelvin sign (to `k`) and the dotted capital I (to `i`
  followed by a combining dot). Neither letter occurs in `csv` or `json`, so
  which paths are accepted is unaffected.
