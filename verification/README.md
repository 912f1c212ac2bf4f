# Customer data ingestion: row validation, partition and configuration

This project models in Dafny the ingestion step of a small customer
data-quality pipeline, and proves properties of that model.

- **Schema check.** When the CSV header is read, `load_csv` rejects a file whose header
  lacks any of the required columns `customer_id`, `name`, `age`, `email`, `country`,
  with the error "CSV schema mismatch". Extra columns are allowed.
- **Row validator.** `validate_row` turns one row, a map from column name to cell text,
  into an ordered list of defects:
  - "name is missing" for an empty name;
  - "age is not an integer" when Python's `int()` raises `ValueError` on the age text;
  - "age must be positive" when the age parses to zero or less.
- **Partition loop.** The loop in `main` validates each loaded row and appends it to
  `valid_rows` or to `invalid_rows`. An `invalid_rows` entry holds the row together with
  its defects.
- **Configuration selection.** `get_config` maps an environment name to a `Config` record.
  `"prod"` selects one fixed profile. Every other name, including the default, selects the
  `"dev"` profile.

Files:

- `wrappers.dfy`: `Option` and `Result`.
- `pyint.dfy`: a decimal parser that stands in for Python's `int(text)`. It accepts
  whitespace, an optional sign, 1 to 4300 ASCII digits, then whitespace. Its grammar is
  proved in both directions, and its renderer `Show` is its round-trip partner.
- `load_data.dfy`: the required columns, the schema check, the validator and the partition.
- `settings.dfy`: `Config` and `GetConfig`.

The validator is a method that appends to a local list, as the source does. It is proved
equal to the function `Defects`, and the lemmas describe `Defects`. The partition loop is a
method with loop invariants. It is proved equal to the specification functions `ValidRows`
and `InvalidRows`. Those functions take the validator as a parameter, so their lemmas hold
for any validator; the loop uses `Defects`.

Python's `int()` accepts a sign, so `"-3"` parses to -3 and is reported as
"age must be positive", never as "age is not an integer" (`NonPositiveAgeReported`).
`int()` also refuses a digit run longer than 4300 digits, leading zeros included. That
is CPython's default limit on converting decimal strings, and such an age is reported as
"age is not an integer" (`AgeTooLongReported`).

## Model

| member | source | states |
|---|---|---|
| `PyInt.ParseInt` | src/ingest/load_data.py:28 | `int(text)`: Some(value), or None for `ValueError`. Accepted text, once stripped, is at most a sign plus 4300 digits. `ParseGrammar` and `ParseSound` give the whole grammar. |
| `PyInt.ParseGrammar` | src/ingest/load_data.py:28-32 | Whitespace, an optional sign, a digit run and whitespace parse to the digits' signed value when the run has at most 4300 digits. A longer run is `ValueError`. |
| `PyInt.ParseSound` | src/ingest/load_data.py:28-32 | Conversely, every accepted text is whitespace, an optional sign, 1 to 4300 digits and whitespace, and its value is the digits' signed value. So "1-2", "+-3", "3+", "1 2", "", blank text and "1.5" are `ValueError`. |
| `PyInt.ParseShow` | src/ingest/load_data.py:28 | For every integer n of at most 4300 digits, the text `str(n)` with any whitespace on either side parses back to n. This includes negative n. |
| `PyInt.ParseLeadingZeros` | src/ingest/load_data.py:28 | Leading zeros are accepted under any sign, including an explicit `+`, and do not change the value, while the digit run (zeros counted) stays within 4300. |
| `LoadData.LoadCsv` | src/ingest/load_data.py:15-18 | The load fails with the "CSV schema mismatch" error exactly when some required column is absent from the header. Otherwise it returns the rows unchanged. |
| `LoadData.SchemaIsSubsetTest` | src/ingest/load_data.py:15 | The check is `REQUIRED_COLUMNS <= set(fieldnames)`. A header whose set of field names is a superset of a passing header's set also passes. |
| `LoadData.SchemaMissingColumn` | src/ingest/load_data.py:5-16 | Take any one of the five required columns out of any header, and the load fails. |
| `LoadData.SchemaGivesCheckedFields` | src/ingest/load_data.py:13-18 | Once the header passes, every row that carries the header's columns, as the CSV reader supplies them, has the `name` and `age` fields the validator reads. |
| `LoadData.Defects` | src/ingest/load_data.py:21-34 | There are at most two defects, and each is one of the three messages. The list is empty exactly when the name is non-empty and the age parses to an integer greater than 0. |
| `LoadData.DefectsReported` | src/ingest/load_data.py:22-32 | "name is missing" appears exactly when the name is empty, and then it comes first. "age is not an integer" appears exactly when the age does not parse. "age must be positive" appears exactly when the age parses to a value of 0 or less. The two age defects never appear together. The list has one entry per applicable message: one for an empty name plus one for an age that is not a positive integer, so each message appears at most once. |
| `LoadData.ValidateRow` | src/ingest/load_data.py:21-34 | The list built by the conditional appends is exactly `Defects(row)`. |
| `LoadData.NameAndAgeBothReported` | src/ingest/load_data.py:22-34 | The name check does not suppress the age check. With an empty name and a bad age, both defects are reported, the name defect first. |
| `LoadData.NonPositiveAgeReported` | src/ingest/load_data.py:27-32 | An age written as a signed integer of at most 4300 digits, e.g. "-3" or " 0", is never "not an integer". It is "not positive" exactly when its value is at most 0. |
| `LoadData.AgeTooLongReported` | src/ingest/load_data.py:27-32 | An age whose digit run is longer than 4300 digits is reported as "not an integer" and never as "not positive", whatever its sign or value. |
| `LoadData.WellFormedRowIsValid` | src/ingest/load_data.py:21-34 | A row with a non-empty name and an age written as a positive integer of at most 4300 digits, with optional surrounding whitespace, has no defects. |
| `LoadData.PartitionRows` | src/ingest/load_data.py:41-49 | After the loop, `valid_rows` and `invalid_rows` are the order-keeping partition `ValidRows`/`InvalidRows` of the input under `Defects`, and their lengths add up to the input length. |
| `LoadData.Ingest` | src/ingest/load_data.py:37-49 | `main` up to its printing fails with the schema error exactly when the header check fails. Otherwise it yields the partition of all the rows. |
| `LoadData.PartitionSizes` | src/ingest/load_data.py:44-49 | `len(valid_rows) + len(invalid_rows) == len(rows)`. |
| `LoadData.PartitionIsExact` | src/ingest/load_data.py:44-49 | Each row lands in exactly one list. The valid rows plus the rows of the invalid entries are the input as a multiset. |
| `LoadData.PartitionClassifies` | src/ingest/load_data.py:45-49 | A valid row is an input row with an empty defect list. An invalid entry holds an input row and exactly that row's defect list, which is non-empty. |
| `LoadData.PartitionCovers` | src/ingest/load_data.py:45-49 | Every input row with no defects is in the valid list. Every input row with defects is in the invalid list, paired with its defects. |
| `LoadData.PartitionKeepsOrder` | src/ingest/load_data.py:44-49 | Partitioning a concatenation gives the concatenated partitions, so the input order is kept within each list. |
| `Settings.GetConfig` | src/config/settings.py:11-26 | `"prod"` gives env "prod", log level "WARNING" and invalid rows hidden. Any other name gives env "dev", log level "INFO" and invalid rows shown. The data path is "data/customer.csv" in both cases. |
| `Settings.ConfigIsKnownProfile` | src/config/settings.py:12-26 | The returned env is "prod" or "dev", and `show_invalid_rows == (env != "prod")`. Selecting again by the returned env gives the same profile. |
| `Settings.ConfigTwoProfiles` | src/config/settings.py:12-26 | Two names give equal configs exactly when both or neither are "prod". |
| `Settings.DefaultIsDev` | src/config/settings.py:11-26 | The call without an argument and any unknown name give the "dev" profile. |

## Left out

- ParseInt: accepts only ASCII digits, with no underscores. Python's `int()` also accepts underscores between digits (`"1_000"`) and non-ASCII decimal digits; the model reports those as "age is not an integer". The whitespace `int()` skips (`IsSpace`) is ASCII tab, line feed, vertical tab, form feed, carriage return and space, plus the non-ASCII characters `str.isspace()` accepts; the separators U+001C to U+001F are not skipped, so an age padded with them is "age is not an integer".
- ParseInt: the digit limit is fixed at CPython's default of 4300. Settings that change it (`sys.set_int_max_str_digits`, `PYTHONINTMAXSTRDIGITS`) and older interpreters without the limit are not modelled.
- File handling is not modelled: the file-existence check and its `FileNotFoundError`, opening the file, and CSV tokenising. The header and the rows are inputs.
- An empty file is not modelled. There `fieldnames` is `None` and the subset test raises `TypeError`; the header is always a list here.
- Short rows are not modelled. The CSV reader fills their missing cells with `None`, and every cell is a string here. A short row whose `age` cell is missing makes `int(None)` raise an uncaught `TypeError`. A short row that keeps its `age` cell but lacks `name` does not raise: `not None` is true, so it gets "name is missing" and whatever its age gives. `ValidateRow` requires the `name` and `age` keys, which the reader always supplies once the header passes.
- Printing the counts and the invalid entries in `main`, and its hard-coded data path, are console output only.
- `pathlib.Path` semantics are not modelled: `data_path` is an opaque string.
- The quality metrics, an invalid-row threshold gate, gate severity, exit codes and logging configuration are not modelled: `load_data.py` and `settings.py` do not implement them.
