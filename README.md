# Patient records service — a Dafny model

The service keeps patient health records in one mapping from patient id to
record. It answers five kinds of request: read one patient, list the records
sorted by age, height or BMI, create a patient, list everything, and a fixed
greeting at `/`. This
project models the core of those handlers as Dafny code and proves what they
promise:

- **Patients** (`patients.dfy`). The request body (`Patient`) and its field
  constraints (`Violations`, `ValidPatient`). The two computed fields: `Bmi`
  (weight / height², rounded to hundredths) and `VerdictOf` (the four BMI
  categories). `Dump` builds the stored `Record`, which is every field except
  the id, plus bmi and verdict.
- **Errors** (`errors.dfy`). The outcomes a handler can fail with, each with its
  HTTP status code and detail message: ValidationError 422, NotFound 404,
  AlreadyExists 400, and the two bad-query-parameter errors, both 400.
- **Store** (`store.dfy`). The loaded mapping is a sequence of `(id, record)`
  entries. Their order is the mapping's iteration order, which is insertion
  order. `UniqueIds` is the mapping's key invariant and `ToMap` is its mapping
  view. `ReadPatient` is the lookup of `read_patient`. The class `PatientData`
  holds the mapping that `create_patient` updates in place. Its method
  `CreatePatient` rejects an invalid body or a duplicate id, and otherwise
  appends exactly one entry.
- **Sorting** (`sorting.dfy`). `ParseSortParams` checks `sort_order` first and
  `sort_by` second. `InsertionSort` is an explicit stable insertion sort over a
  sequence, built from `InsertSorted`. `SortPatients` ties the two together.
  Stability is stated without reference to positions: for every key value `v`,
  the records with key `v` appear in the output in the same order as in the
  input (`SameOrderOnTies`). `StableSortIsUnique` shows that being sorted,
  being a permutation and keeping that order determine the output completely.
  So the insertion sort returns exactly what the library's stable `sorted`
  returns, in both directions.

Modelling choices:

- BMI is computed over exact reals. The rounding is written out: the nearest
  number of hundredths, with exact ties going to the even neighbour.
  `VerdictOfRatio` shows what the rounding does to the verdict. Measured on the
  unrounded ratio, each category edge moves down by 0.005: a ratio of 18.495
  already gives Normal.
- The service stores bmi and verdict when it creates a record and never
  recomputes them on a read. So sorting by `bmi` uses the stored field.
- The HTTP errors are values of the `Error` datatype. `Status` gives each its
  status code and `Detail` its message.
- The file holding the mapping is not modelled. Each operation takes the loaded
  entries as a value, and create produces the new entries.
- The code puts no constraint on `name` and `city` (main.py:11-12), so the
  model puts none on them. The only constraints are those on age, gender,
  height and weight.

## Model

| member | source | states |
|---|---|---|
| `Patients.VerdictOf` | main.py:23-33 | the verdict is the category whose bucket holds the bmi: below 18.5 Underweight, [18.5, 25) Normal, [25, 30) Overweight, 30 and over Obese (bucket table `InBucket`, written apart from the if/elif chain) |
| `Patients.VerdictIsTheOnlyBucket` | main.py:26-33 | the verdict is total and exclusive: a bmi lies in the bucket of a category exactly when that category is its verdict |
| `Patients.VerdictEdges` | main.py:26-33 | each edge belongs to the upper bucket (18.5 is Normal, 25 is Overweight, 30 is Obese); any bmi below 18.5 is Underweight, any bmi of 30 or more is Obese |
| `Patients.VerdictMonotone` | main.py:26-33 | a larger bmi never gives a lower category (rank order Underweight < Normal < Overweight < Obese) |
| `Patients.Violations` | main.py:13-16 | each constrained field is reported exactly when it is broken: age not in (0, 120), gender not male/female/other, height not > 0, weight not > 0 |
| `Patients.ValidPatientExactly` | main.py:13-16 | a body passes validation exactly when 0 < age < 120, height > 0, weight > 0 and gender is male, female or other |
| `Patients.RoundHundredths` | main.py:21 | the result is an integer within 1/2 of 100·x, and it is even when 100·x lies exactly halfway between two integers (round to two decimals, ties to even) |
| `Patients.RoundingIsUnique` | main.py:21 | any integer within 1/2 of 100·x that is even on an exact tie is the rounded value, so the two clauses of `RoundHundredths` determine its result |
| `Patients.Bmi` | main.py:18-21 | the bmi is a whole number of hundredths, within 0.005 of weight / height², and an even number of hundredths when the ratio lies exactly halfway (round to two decimals, ties to even) |
| `Patients.VerdictOfRatio` | main.py:20-33 | on the unrounded ratio the categories are delimited by 18.495, 24.995 and 29.995, each edge in the upper category (all four described by if-and-only-if) |
| `Patients.DumpKeepsFields` | main.py:77 | the stored record keeps every submitted field except the id; its bmi is a whole number of hundredths within 0.005 of weight / height² and an even number of hundredths when the ratio lies exactly halfway (so, by `RoundingIsUnique`, exactly the rounded ratio), and its verdict is the category of that bmi |
| `Store.ToMap` | main.py:52-55 | the mapping's keys are exactly the entry ids, and with unique ids every id maps to its own entry's record |
| `Store.ReadPatient` | main.py:50-55 | an id with no entry gives NotFound; otherwise the result is the record stored with that id; the store is an input only, so it is not modified |
| `Store.ReadAgreesWithMap` | main.py:53-55 | on a valid store, reading is lookup in the mapping: NotFound when the id is not a key, the mapped record when it is |
| `Store.ReadAfterAppend` | main.py:74-77 | after an entry is added, reading its id gives its record when the id was new; reading any other id gives the same answer as before |
| `Store.InsertFresh` | main.py:74-77 | adding a fresh id keeps the ids unique, makes the new mapping the old one plus `id ↦ record`, and grows the key count by exactly one |
| `Store.PatientData.CreatePatient` | main.py:71-82 | an invalid body fails with the set of offending fields and an existing id fails with AlreadyExists; both leave the store unchanged. Otherwise the store gains exactly the entry `id ↦ dump` and nothing else changes: the mapping is the old one plus that key, the key count grows by one, reading the id returns the dump, and every other read answers as before. The response carries the confirmation message and the full record |
| `Sorting.ParseSortParams` | main.py:59-63 | the result is Ok exactly when sort_order is asc or desc and sort_by is age, height or bmi, and then the key and direction are the ones named; a sort_order other than asc/desc fails with InvalidSortOrder whatever sort_by is; otherwise a sort_by other than age/height/bmi fails with InvalidSortBy |
| `Errors.Status` | main.py:53-75 | NotFound answers 404; AlreadyExists and both bad-parameter errors answer 400; a validation error answers 422 |
| `Errors.DetailsDistinct` | main.py:54-75 | the four handler errors (404 not found, the two bad sort parameters, 400 already exists) carry pairwise different detail messages, so the message alone identifies the error |
| `Sorting.InsertSorted` | main.py:67 | inserting into a sorted sequence gives a sorted sequence, adds exactly the new record to the multiset, and places it last among records with an equal key |
| `Sorting.InsertionSort` | main.py:67 | the output is sorted by the key (non-decreasing ascending, non-increasing descending), is a permutation of the input, and keeps the input order of records with equal keys |
| `Sorting.SortPatients` | main.py:57-69 | a parameter error is the one `ParseSortParams` gives, which depends on the parameters alone, so no store content affects it; otherwise the result is the stored records sorted by the chosen key in the chosen direction, a permutation of the store's values, with ties in the store's order |
| `Sorting.StableSortIsUnique` | main.py:67 | two sequences that are both sorted by the key, permutations of each other and in the same order on every tie group are equal, so the sort's contract determines its output |

## Left out

- Reading and writing the JSON file (`load_data`, main.py:35-39; the write-back, main.py:79-80): pure I/O. The loaded mapping is a parameter, and the entries after `CreatePatient` are what would be written. Storage and parse failures are not modelled.
- `read_root` and `read_patients` (main.py:41-48): they return a constant or the loaded mapping unchanged, and there is no logic to model.
- Routing, `Path`/`Query` metadata, `JSONResponse` and the status plumbing (main.py:1-7, 82): framework code. This includes the framework filling in `sort_order="asc"` when it is omitted; `SortPatients` takes the value it receives. Errors and the 201 confirmation are values (`Error`, `Created`).
- Request-body parsing and coercion (wrong types, missing fields, strings coerced to numbers): framework code. Only the resulting range and enumeration constraints are modelled, and a validation error carries just the set of offending fields.
- Floating point: the model uses exact reals. It does not capture binary representation error in `weight / height**2`, infinite values (which pass `gt=0`), or NaN.
- Store.PatientData.CreatePatient: does not model `height ** 2` overflowing (a height of about 1.3e154 or more raises OverflowError) or underflowing to 0.0 (a height of about 1e-162 or less makes the division raise ZeroDivisionError). In the source that error is raised inside `model_dump` (main.py:77) through the `bmi` property (main.py:21), so the request fails with a server error and nothing is written. The model computes over exact reals, so for such heights `CreatePatient` returns `Created` and appends an entry.
- Records already in the file are taken as complete, well-typed records. A stored record that lacks the sort key would raise an error in the sort. Values of mixed types would too. Neither case is modelled.
- The lost update between two concurrent creates: the model is single-threaded.
