# Simplet reducer, modelled in Dafny

Simplet turns a typed, tag-wrapped JSON tree, in the style of DynamoDB
attribute values, into plain values. The tags are `S`, `N`, `BOOL`, `NULL`, `M`
and `L`. Its core is three functions in `main.py`:

- `transform_primitive_type` coerces the text payload of a primitive tag.
- `reduce_value` picks the first member of an object whose stripped key is a
  tag and reduces its payload. Under `L` it keeps the scalar results of the
  items in order.
- `reduce_map` reduces every member of an object under its stripped key,
  drops the ones that raise `ValueError`, and returns the entries sorted by
  key.

The project has these modules:

- `Text` (`text.dfy`) models the `str` operations the core calls: `strip`,
  `isdigit`/`isnumeric`, `replace(c, "", 1)`, `int` on digits, and the order
  `sorted` uses.
- `Values` (`values.dfy`) holds the input tree `Json`, the output `Plain`, and
  the `Outcome` of one reduction:
  - `Ok(value)`;
  - `Fail`, the `ValueError` the loops absorb;
  - `Crash`, the `AttributeError` that `.items()` raises on a JSON array
    (main.py:69). No `except ValueError` absorbs it, so it propagates.
- `Primitive` (`primitive.dfy`) holds `transform_primitive_type` and the
  token sets.
- `Dict` (`dict.dfy`) is the insertion-ordered Python dict. It has
  assignment (`Put`) and the sorted copy (`SortByKey`).
- `Reduction` (`reduction.dfy`) holds `reduce_value` and `reduce_map` as
  functions. The loops are folds over prefixes.
- `Reducer` (`reducer.dfy`) holds the same two as methods with `while` loops,
  an early return, a list that grows and a dict that is assigned into. Each
  method is proved equal to its `Reduction` function.
- `Properties` (`properties.dfy`) states what the functions promise over all
  inputs:
  - which member decides an object;
  - which items a list keeps, in which order;
  - which entries a map keeps, under which value;
  - when each one fails or crashes.

Four behaviours of the code that are easy to miss:

- `N` returns an `int` only when the whole stripped text is digits, so
  `"-123"` gives the float `-123.0` (main.py:46). The test at test.py:44
  passes only because `-123 == -123.0` in Python.
- `N` accepts `"5."` and `".5"`. The digit check at main.py:45 removes one
  `.` wherever it is, and `float` reads both texts.
- The `-` that the digit check removes need not be leading. `"1-2"` passes
  the check, `float` then raises, and the result is a `ValueError`.
- A JSON array where a tagged value is expected passes the guard at
  main.py:65. It then raises `AttributeError`, not `ValueError`, and no
  `except` in the core catches that error.

## Model

| member | source | states |
|---|---|---|
| Text.Trim | main.py:35 | `strip` leaves no whitespace at either end and never lengthens the text |
| Text.TrimIsInfix | main.py:35 | `strip` returns the infix left after removing only whitespace on both sides |
| Text.TrimIdempotent | main.py:111 | a key stripped once is unchanged by stripping again |
| Text.RemoveFirstAllIn | main.py:45 | after `replace(c, "", 1)`, only allowed characters remain exactly when the text had allowed characters and at most one `c` |
| Text.DigitsValueShowNat | main.py:46 | `int` on the printed form of a natural number gives the number back |
| Text.DigitsValueLeadingZero | main.py:46 | a leading zero does not change the value `int` reads |
| Text.LexLessIrreflexive | main.py:122 | no key sorts before itself |
| Text.LexLessTransitive | main.py:122 | the string order `sorted` uses is transitive |
| Text.LexLessTotal | main.py:122 | any two different keys are ordered one way or the other |
| Dict.Put | main.py:116 | `result[key] = v` keeps the key order, and appends `key` when it is new |
| Dict.PutUnique | main.py:116 | assignment keeps the dict's keys unique |
| Dict.PutFields | main.py:116 | after `result[key] = v`, the dict holds `key: v` and exactly the other fields it held before |
| Dict.SortByKey | main.py:122 | the sorted copy holds exactly the same entries |
| Dict.SortByKeyAscending | main.py:122 | the sorted copy of a dict has strictly ascending keys |
| Primitive.TransformPrimitiveType | main.py:13-53 | a non-text payload is a `ValueError`; the result is never an uncaught error; a success is a scalar or `None` |
| Primitive.CoerceText | main.py:36-53 | a tag outside `S`, `N`, `BOOL`, `NULL` is a `ValueError`; each rule succeeds with a scalar or `None` |
| Primitive.CoerceNumber | main.py:44-46 | a success of the `N` rule is an `int` or a `float` |
| Primitive.DigitCheck | main.py:45 | the check passes exactly on digits with at most one `.`, at most one `-`, and at least one digit |
| Primitive.ParseFloatAccepts | main.py:46 | `float` reads a text exactly when it is a sign, then digits with at most one `.`, with at least one digit |
| Primitive.NumberAccepts | main.py:45-46 | the `N` rule succeeds exactly on numerals: an optional leading `-`, then digits with at most one `.`, with at least one digit |
| Primitive.NumberOfShowNat | main.py:46 | a printed natural number reads back as that `int` |
| Primitive.NumberLeadingZero | main.py:46 | leading zeros are consumed: `"0123"` reads as `123` |
| Primitive.NegativeWholeIsFloat | main.py:46 | `"-123"` comes back as the float `-123.0`, not as an `int` |
| Primitive.NumberOfPointText | main.py:46 | a text with a `.` reads as the exact decimal it spells, negated under a leading `-` |
| Primitive.TransformSeesTrimmedText | main.py:32-35 | every rule sees only the stripped text: padding with whitespace changes nothing |
| Primitive.StringRule | main.py:37-43 | `S` fails exactly on blank text; a success is the timestamp or exactly the stripped text, and the stripped text exactly when it is no timestamp |
| Primitive.NumberRule | main.py:44-46 | `N` succeeds exactly on numerals; an `int` exactly when the stripped text is all digits, then its decimal value |
| Primitive.BoolRule | main.py:47-49 | `BOOL` is true exactly on the truthy tokens, false exactly on the falsy ones, and fails on any other text |
| Primitive.NullRule | main.py:50-52 | `NULL` is `None` exactly on the truthy tokens; falsy tokens fail |
| Primitive.BoolTokensDisjoint | main.py:7-8 | no token is both truthy and falsy; the `NULL` tokens are the truthy ones |
| Reduction.ReduceValue | main.py:56-93 | a JSON array crashes on `.items()` and any other non-object is a `ValueError`; a success is well formed: lists are non-empty and hold only scalars; dicts are non-empty with non-empty, stripped, ascending keys |
| Reduction.FirstTag | main.py:69-93 | the scan of an object's members gives only well-formed successes |
| Reduction.ByTag | main.py:73-92 | a tagged payload gives only well-formed successes |
| Reduction.ReduceList | main.py:77-92 | a payload that is not a list is a `ValueError`; a success of the `L` branch is a non-empty list of scalars |
| Reduction.Survivors | main.py:81-89 | the list the loop builds holds only scalars |
| Reduction.ReduceMap | main.py:96-122 | an input that is not an object is a `ValueError`; a success of `reduce_map` is a non-empty dict with non-empty, stripped, ascending keys and well-formed values |
| Reduction.Collect | main.py:109-118 | the dict the loop builds has unique, non-empty, stripped keys and well-formed values |
| Reduction.Enter | main.py:111-118 | one pass of the loop body keeps the dict good |
| Reduction.PutGood | main.py:116 | assigning a well-formed value under a non-empty stripped key keeps the dict good |
| Reduction.SortedFieldsGood | main.py:119-122 | the sorted copy of a good, non-empty dict is a well-formed map |
| Reducer.ReduceValue | main.py:56-93 | the loop with its early return computes `Reduction.ReduceValue` |
| Reducer.ByTag | main.py:73-92 | the dispatch on the tag computes `Reduction.ByTag` |
| Reducer.ReduceList | main.py:77-92 | the loop that appends to `ls` computes `Reduction.ReduceList` |
| Reducer.ReduceMap | main.py:96-122 | the loop that assigns into `result`, then the sorted copy, computes `Reduction.ReduceMap` |
| Reducer.Store | main.py:111-118 | one pass of the loop body computes `Reduction.Enter` |
| Reducer.ListCrashes | main.py:83-86 | an item that raises anything but `ValueError` ends the `L` branch with that error |
| Reducer.MapCrashes | main.py:115-118 | a value that raises anything but `ValueError` ends `reduce_map` with that error |
| Properties.FirstTagDecides | main.py:69-76 | an object reduces as its first member whose stripped key is a tag; later members are not looked at |
| Properties.NoTagFails | main.py:93 | an object without a tagged member is a `ValueError` |
| Properties.SurvivorsCrash | main.py:83-86 | the list loop crashes exactly when one of its items crashes |
| Properties.SurvivorsMember | main.py:84-89 | a value is in the list exactly when some item reduced to it and it is a scalar |
| Properties.SurvivorsPrefix | main.py:82-89 | the list keeps the items' order: what earlier items give is a prefix of what later ones give |
| Properties.SurvivorsAreKept | main.py:81-89 | until an item crashes, the loop has collected exactly the scalar results so far, front to back |
| Properties.ListIsKeptValues | main.py:77-92 | a list the `L` branch returns equals the scalar results of its items, in order |
| Properties.ListCrash | main.py:81-92 | the `L` branch crashes exactly when one of its items crashes |
| Properties.ListFail | main.py:78-91 | the `L` branch is a `ValueError` exactly when no item crashes and none reduces to a scalar |
| Properties.ListElements | main.py:81-92 | a returned list holds exactly the scalar results of its items |
| Properties.LastInSkip | main.py:116 | a store under another key, or no store, leaves the last value under a key unchanged |
| Properties.LastInHere | main.py:116 | a store under a key makes it the last value under that key |
| Properties.CollectFields | main.py:109-118 | the dict built so far holds a pair exactly when it is the last pair stored under its key |
| Properties.CollectCrash | main.py:110-118 | the map loop crashes exactly when a member with a non-empty stripped key crashes |
| Properties.CollectEmpty | main.py:109-118 | the dict built so far is empty exactly when no member so far has stored anything |
| Properties.MapCrash | main.py:110-118 | `reduce_map` crashes exactly when a member with a non-empty stripped key crashes |
| Properties.MapFail | main.py:109-120 | on an object, `reduce_map` is a `ValueError` exactly when every member has a key that strips to "" or a value that raises `ValueError` |
| Properties.MapFields | main.py:109-122 | a returned dict has ascending keys and holds a pair exactly when it is the last pair stored under its key |
| Properties.LastInExists | main.py:116 | a key stored at some point has a last stored value |
| Properties.MapKeys | main.py:109-122 | the keys of a returned dict are exactly the non-empty stripped keys of the members whose values reduce |
| Properties.NullKeptInMapDroppedFromList | main.py:87-88 | `None` is kept in a map under its key but dropped from a list, so a list of only `None`s is a `ValueError` |

## Left out

- The `__main__` block (main.py:125-134). It reads a file, runs `json.load`
  and `json.dumps`, prints and times. It is I/O with no decision logic.
- JSON parsing. The model starts from a parsed tree. `json.load` merges
  members with the same raw key. The model takes any member sequence, which
  includes the merged ones.
- `datetime.strptime(...).timestamp()` (main.py:41). It is a date library
  with time-zone arithmetic. Every operation takes it as a parameter `ts`
  that maps a text to epoch seconds or to nothing. The model keeps only what
  the core does with it: a failure returns the stripped text.
- The double that `float` returns. A float is the exact decimal it spells,
  `Decimal(mantissa, scale)`. Rounding to the nearest double is not modelled.
- What `float` reads beyond sign, digits and one `.`: exponents, `inf`,
  `nan` and `_`. No text that passes the digit check at main.py:45 contains
  them.
- Python's limit of 4300 digits on `int` of a string. That limit raises
  `ValueError` on very long digit strings, and the model reads any length.
- Unicode whitespace, digits and numerics. `strip`, `isdigit` and
  `isnumeric` are modelled on ASCII.
- `RecursionError` on very deep trees, and running out of memory.
- Primitive.TransformPrimitiveType: its contract says only that a success is
  a scalar or `None`. What each tag returns is stated in
  Primitive.StringRule, Primitive.NumberRule, Primitive.BoolRule and
  Primitive.NullRule.
