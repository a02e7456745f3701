# Validator metadata aggregator, in Dafny

`scripts/generate_validators_json.py` collects the validator metadata of a
network. The directory holds one JSON file per validator. `read_validators`
reads each file and builds a dictionary that maps a validator's `secp` key to
its JSON object. If the object's `name` is missing, empty or only white space,
the `secp` value replaces it. A file that cannot be opened or parsed is
skipped with a warning. `write_csv` writes that dictionary as a two-column CSV
(`secp_key,name`): first a header row, then one row per entry.

The model has six modules:

- `Json`: JSON values and a record as a map from field names to values.
- `PyText`: Python's `str.isspace` and `str.strip()` over Unicode scalar values.
  A name strips to `""` exactly when all its characters are white space.
- `PyDict`: the Python dictionary as an insertion-ordered map. Assigning to an
  existing key replaces the value but keeps the key's position, as CPython
  does, so iteration follows the order in which keys were first inserted.
- `Validator`: one validator record, the `secp` and `name` lookups, and the name
  fallback.
- `Aggregate`: `read_validators`. `ReadValidators` is a method whose loop
  follows the source. The specification function `Collect` folds `Step` over
  the file listing, and the lemmas state the aggregator's properties about
  `Collect`.
- `CsvExport`: `write_csv`. `WriteCsv` is a method whose loop follows the
  source. It produces rows as values. The specification function `DataRows`
  gives the rows that follow the header.

`WorkedExample` is a concrete directory of three files whose result under both
operations is proved.

The environment is turned into parameters. The directory listing that
`glob.glob` returns is the sequence `files`, in the same order. Each element is
the result of opening and parsing one file: `Some(record)`, or `None` when
`open` or `json.load` raised `IOError` or `JSONDecodeError`.

## Model

| member | source | states |
|---|---|---|
| Validator.NameIsBlankIffStripEmpty | scripts/generate_validators_json.py:22 | the test `not data.get("name", "").strip()` holds exactly when the name is missing or consists only of Python white space |
| PyText.StripEmptyIffAllSpace | scripts/generate_validators_json.py:22 | `s.strip()` is empty exactly when every character of `s` is white space in the sense of `str.isspace` |
| Validator.WithNameFallback | scripts/generate_validators_json.py:19-23 | the record after the fallback keeps its own `secp` (absent reads as `""`) and has a string `name` that is either non-blank or equal to that `secp` |
| Validator.FallbackChangesOnlyName | scripts/generate_validators_json.py:19-23 | only `name` can change: a blank or missing name becomes `Str(secp)`, a non-blank name is kept verbatim (unstripped), and every other field is unchanged |
| PyText.LStrip | scripts/generate_validators_json.py:22 | `s.lstrip()`: the result is a suffix of `s`, the part removed is all white space, and the result is empty or starts with a non-white-space character |
| PyText.RStrip | scripts/generate_validators_json.py:22 | `s.rstrip()`: the result is a prefix of `s`, the part removed is all white space, and the result is empty or ends with a non-white-space character |
| PyText.Strip | scripts/generate_validators_json.py:22 | `s.strip()`: the result is a contiguous slice of `s` whose removed prefix and removed suffix are all white space, and it is empty or begins and ends with a non-white-space character |
| Aggregate.Step | scripts/generate_validators_json.py:14-30 | one loop iteration: a failed file leaves the table unchanged; a parsed one adds its `secp` to the key set, stores the record, after the fallback, under it and leaves every other entry's value unchanged; an existing key keeps its place in the iteration order and a new key is appended; the table stays a valid dictionary |
| Aggregate.Collect | scripts/generate_validators_json.py:10-32 | the table built by folding the iteration over the listing from `{}` is a valid dictionary, with distinct keys iterated once each |
| Aggregate.ReadValidators | scripts/generate_validators_json.py:8-32 | the loop over the listing returns exactly `Collect(files)`: failures skipped, the fallback applied, each record stored under `data.get("secp", "")` |
| Aggregate.StoredUnderOwnSecp | scripts/generate_validators_json.py:19-26 | every stored record's own `secp` equals its key, and its `name` is a string that is non-blank or equal to the key |
| Aggregate.KeysAreParsedSecps | scripts/generate_validators_json.py:19-26 | the key set is exactly the set of `secp` values of the files that parsed |
| Aggregate.KeysHaveFirstIndex | scripts/generate_validators_json.py:19-26 | a key is in the table exactly when some parsed file carries it, at its first such index |
| Aggregate.LastWriteWins | scripts/generate_validators_json.py:26 | when no later parsed file has the same `secp`, the table holds this file's record, after the fallback, under that `secp` |
| Aggregate.OrderIsFirstSeen | scripts/generate_validators_json.py:13-26 | the dictionary iterates keys in order of first appearance in the listing; a later duplicate overwrites the value but not the position |
| Aggregate.FailureIsSkipped | scripts/generate_validators_json.py:28-30 | a file that fails to open or parse, wherever it stands in the listing, leaves the result unchanged |
| PyDict.Put | scripts/generate_validators_json.py:26 | `d[k] = v`: the key set gains `k`, `k` maps to `v`, other keys are unchanged, a new key is appended to the iteration order and an existing one keeps its place |
| PyDict.LenIsOrderLength | scripts/generate_validators_json.py:47-51 | `len(d)` equals the number of keys iteration visits |
| CsvExport.DataRows | scripts/generate_validators_json.py:49-51 | one data row per entry, in iteration order, holding the key and `validator_data.get("name", secp)` |
| CsvExport.WriteCsv | scripts/generate_validators_json.py:43-53 | the rows written are the header `secp_key,name` followed by `DataRows(validators)`, so there are `len(validators) + 1` rows |
| CsvExport.DataRowKeys | scripts/generate_validators_json.py:49-51 | the key column is the table's iteration order: every key appears in exactly one row and no row has any other key |
| CsvExport.DataRowNamesAreStored | scripts/generate_validators_json.py:50-51 | on a table built by `read_validators`, each row's name is the stored record's `name`, a string that is non-blank or equal to the key |
| WorkedExample.ExampleFallback | scripts/generate_validators_json.py:21-23 | the name "Alice" is kept, and a record without a name gets its `secp` as name |
| WorkedExample.ExampleCollect | scripts/generate_validators_json.py:8-32 | two validators and one unparsable file give a two-entry table in listing order |
| WorkedExample.ExampleCsv | scripts/generate_validators_json.py:43-53 | that table is written as `secp_key,name`, `S1,Alice`, `S2,S2` |

## Left out

- `main`, `write_json` and the `print` messages: they are file paths, output and logging, with no logic of the core.
- `glob.glob`, `open` and `json.load`: the directory listing and the parse results are inputs. The model does not cover JSON text and its decoding, or which errors decoding raises.
- Field order inside a record: a record is a map, so the position at which `data["name"] = secp` inserts a missing `name` (last) is not kept. Only `json.dump` in `write_json`, which is left out, shows that order; the dictionary of records keeps its own insertion order.
- The CSV text: rows are values; the quoting and line endings of Python's `csv.writer` are not modelled.
- Records outside `WellFormed`: a precondition excludes them, for the following reasons.
  - A `name` that is not a string makes `.strip()` raise `AttributeError`, which is not caught.
  - A `secp` that is an array or an object is unhashable. `validators_dict[secp] = data` then raises an uncaught `TypeError`, which ends the run. The model does not cover this abort.
  - A `secp` of `null`, a boolean or a number does not raise. The source stores the record under that non-string key, and a blank name becomes that value. The model leaves these records out by choice. Keys are strings here, and Python's key equality across types (`1`, `1.0` and `True` are the same key) is not modelled.
- Lone surrogates: `json.load` accepts escapes such as `"\ud800"` and produces a string holding an unpaired surrogate. Dafny's `char` holds only Unicode scalar values, so a name or `secp` containing one cannot be represented.
- A top-level JSON value that is not an object: `data.get` raises `AttributeError`, which the `except` clause does not catch. Only objects are modelled.
- Exceptions other than `IOError` and `JSONDecodeError` propagate out of `read_validators`. Such a run is not modelled.
