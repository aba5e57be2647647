# Field library of the GEMMES toolkit

The toolkit describes an economic model through a library of *fields*
(parameters, functions and state variables governed by an ODE), grouped
under headings such as `Numerical`, `CORE`, `Salary Negociation`,
`Investment`, `Debt`, `Prices` and `MISC`. Each field is a dictionary of
attributes: `value`, `func`, `ode`, `com` (a comment), `units`, `symbol`.
When the module is imported:

- `CHECK_FIELDS` validates the library. It reports a field name declared in
  several groups. It also reports a field that is not exactly one of these:
  a function, an ODE with an initial value, or a plain value. It warns about
  a missing comment or unit. It raises `Warning` before `ValueError`.
- `from_Library_to_DFIELDS` then flattens the library into the field
  dictionary `_DFIELDS` that the solver reads. Each record gets its type
  from `detectype` and its parsed units from `detectdimension`.
- `detectdimension` parses a units string such as `Units.Humans^{-1}.years^{-1}`
  into a multiplier and one entry per unit with its exponent.

The Dafny project has six modules:

- `Fields` holds the data model. The library is a sequence of named groups.
  Each group is a sequence of named fields. Each field has a map of
  attributes. The entries are in the order the nested loops traverse them.
- `PyText` models the Python built-ins the code relies on: `list.count`,
  `str.split`, `str.find`, slicing with negative bounds, and `str.lower`.
- `Units` covers `detectdimension`, as a method with its loop, and `detectype`.
- `Validation` covers `CHECK_FIELDS`, as methods with their loops.
- `Conversion` covers `from_Library_to_DFIELDS`. It is a method that writes
  into a `DFields` object, the mutable dictionary that is updated in place.
- `DefaultLibrary` is the concrete `_LIBRARY` literal: 7 groups, 34 fields.
  The module proves that the checks run at import time pass on it, and that
  the conversion raises nothing.

Exceptions become values: `Result` for `detectdimension`, `detectype` and the
conversion, and `Verdict` for `CHECK_FIELDS`. Attribute values are kept as
opaque text tokens. Only the presence of keys and the text of unit strings
is inspected.

Behaviour of the code as written, which the model keeps:

- The type filter in `detectype` tests for the misspelt key `'Muliplier'`.
  Since `detectdimension` always writes `'Multiplier'`, the result is never
  `'dimensionless'`.
- The `'Extensive'` branch of `detectype` indexes the dictionary with a list.
  It can only be reached when the only remaining key is a listed unit, which
  cannot happen once `'Multiplier'` is present. So `detectype` answers
  `'Intensive'` or `None`.
- The `MISC` test in `CHECK_FIELDS` builds a message that is never appended
  to either text, so it has no effect.
- `_DFIELDS={}` is a default argument that is shared between calls. The model
  passes the dictionary object explicitly. Records written before an
  exception stay in it, and keys the library does not write are kept.

## Model

| member | source | states |
|---|---|---|
| PyText.Split | models/_def_fields_NEWFORMALISM.py:350 | `str.split` with a one-character separator yields one piece more than there are separators, and no piece holds the separator |
| PyText.JoinSplit | models/_def_fields_NEWFORMALISM.py:350 | joining the split pieces with the separator gives back the original string |
| PyText.SplitJoin | models/_def_fields_NEWFORMALISM.py:363 | splitting a join of separator-free pieces gives back those pieces |
| PyText.Find | models/_def_fields_NEWFORMALISM.py:367-369 | `str.find` returns the first index holding the character, or -1 exactly when it is absent |
| PyText.Lower | models/_def_fields_NEWFORMALISM.py:370 | lower-casing keeps the length, turns every upper-case letter into its lower-case counterpart (code point plus 32), leaves every other character unchanged, and so leaves no upper-case letter |
| PyText.Count | models/_def_fields_NEWFORMALISM.py:242 | `list.count` of an element is never more than the length of the list; its value is pinned down by `CountPositive` (positive iff present), `CountAppend` (additive over concatenation) and `CountDistinct` (0 or 1 in a list without repetition) |
| PyText.PySlice | models/_def_fields_NEWFORMALISM.py:368-370 | definition: `s[start:stop]` with Python's clamping of negative and out-of-range bounds; `SliceShape` states what it yields |
| PyText.SliceShape | models/_def_fields_NEWFORMALISM.py:368-370 | a slice is the run of characters starting at the clamped start, as long as the clamped stop allows, and empty when the stop is not past the start |
| Units.DetectDimension | models/_def_fields_NEWFORMALISM.py:340-375 | the loop produces exactly the dimension dictionary: the multiplier, then every piece written in order; it fails with KeyError, ValueError or AttributeError as the source does |
| Units.DimensionsOf | models/_def_fields_NEWFORMALISM.py:340-375 | definition: the result of detectdimension (KeyError without units, `{'Multiplier': 1}` for None, one or two space-separated tokens absorbed piece by piece, ValueError for more, AttributeError for a non-string); the `Dimensions*` lemmas state its properties |
| Units.PieceKey | models/_def_fields_NEWFORMALISM.py:366-373 | definition: the key one `.`-separated piece writes; `PieceKeyShape` and `PieceKeyMultiplier` state its properties |
| Units.PieceValue | models/_def_fields_NEWFORMALISM.py:366-373 | definition: the value one piece writes, its exponent text or 1; `PieceValueShape` states its properties |
| Units.Absorb | models/_def_fields_NEWFORMALISM.py:364-373 | definition: the piece loop as a fold, each piece writing its key and later writes overwriting earlier ones; `AbsorbKeys`, `AbsorbUntouched`, `AbsorbLastWins` and `AbsorbMultiplier` state its properties |
| Units.PieceValueShape | models/_def_fields_NEWFORMALISM.py:366-368 | a piece ending in `}` writes the text between the first `{` and the final `}`, and that `{` lies before the final `}` |
| Units.PieceKeyShape | models/_def_fields_NEWFORMALISM.py:369-371 | a piece ending in `}` writes under the lower-cased text before the first `^`, or everything but the final `}` when there is no `^` |
| Units.PieceKeyMultiplier | models/_def_fields_NEWFORMALISM.py:366-373 | a piece writes the key `Multiplier` iff it is the verbatim piece `Multiplier`, because lower-casing removes the `M` |
| Units.AbsorbKeys | models/_def_fields_NEWFORMALISM.py:364-373 | after the loop the keys are the starting keys plus one key per piece |
| Units.AbsorbUntouched | models/_def_fields_NEWFORMALISM.py:364-373 | a key that no piece writes keeps its presence and its value |
| Units.AbsorbLastWins | models/_def_fields_NEWFORMALISM.py:364-373 | the last piece writing a key decides that key's value |
| Units.AbsorbMultiplier | models/_def_fields_NEWFORMALISM.py:352-373 | the multiplier survives the loop unless a verbatim `Multiplier` piece resets it to 1 |
| Units.DimensionsHaveMultiplier | models/_def_fields_NEWFORMALISM.py:343-348 | units None give exactly `{'Multiplier': 1}`; every successful parse holds `Multiplier`; missing units raise KeyError |
| Units.DimensionsTokenCount | models/_def_fields_NEWFORMALISM.py:350-360 | a units string fails to parse iff it has two or more spaces, and then raises the bad-unit-formalism ValueError |
| Units.DimensionsKeys | models/_def_fields_NEWFORMALISM.py:350-373 | the keys are `Multiplier` plus one key per `.`-separated piece of the last space-separated token |
| Units.DimensionsMultiplier | models/_def_fields_NEWFORMALISM.py:352-357 | the multiplier is the first of two tokens, or 1 for a single token, unless a verbatim `Multiplier` piece resets it to 1 |
| Units.DimensionsLastWins | models/_def_fields_NEWFORMALISM.py:363-373 | in a parsed units string, the last piece with a given key decides that key's value |
| Units.Classify | models/_def_fields_NEWFORMALISM.py:331-339 | on a parsed dictionary: 'dimensionless' iff no key other than `Muliplier` is left; Intensive iff at least two are left; with exactly one left, the TypeError of `dims[dimlist]` is raised iff that key is one of the listed extensive units, and None is returned otherwise |
| Units.DetectType | models/_def_fields_NEWFORMALISM.py:328-339 | definition: detectype parses the units again and classifies the result, passing on detectdimension's exception; `DetectTypeFacts` and `DetectTypeError` state its properties |
| Units.ClassifyParsed | models/_def_fields_NEWFORMALISM.py:331-339 | on a dictionary holding `Multiplier`, detectype returns Intensive iff at least two keys other than `Muliplier` remain, and None otherwise; it never returns 'dimensionless' and never raises |
| Units.DetectTypeFacts | models/_def_fields_NEWFORMALISM.py:328-339 | detectype fails iff detectdimension fails; it never returns 'dimensionless'; it returns Intensive iff two or more keys remain after the filter; units None give None |
| Units.DetectTypeError | models/_def_fields_NEWFORMALISM.py:328-329 | detectype raises exactly the exception detectdimension raises |
| Validation.CheckField | models/_def_fields_NEWFORMALISM.py:257-273 | the body of the field loop appends at most one consistency error, chosen by the first matching rule, and then the missing-comment and missing-unit warnings |
| Fields.AllFieldNames | models/_def_fields_NEWFORMALISM.py:239-241 | definition: the chained list of the field names of all groups, duplicates kept; `InAllFieldNames` and `CountAllFieldNames` state its properties |
| Fields.Entries | models/_def_fields_NEWFORMALISM.py:249-250 | definition: the fields in the order of the nested group and field loops, each with its group; `CheckGroup`, `CheckFields` and `FromLibraryToDFields` are proved against it |
| Validation.Duplicates | models/_def_fields_NEWFORMALISM.py:239-242 | definition: the set of names counted more than once in the chained list of field names; `DuplicatesAreSharedNames` states what it holds |
| Validation.DuplicateErrors | models/_def_fields_NEWFORMALISM.py:244-246 | definition: the one duplicate error when some name is repeated, else nothing; `DuplicateErrorIff` states its properties |
| Validation.Errors | models/_def_fields_NEWFORMALISM.py:235-265 | definition: the accumulated error messages, the duplicate error followed by the consistency errors in loop order; `CheckFields` is proved against it and `ConsistencyErrorsBound` and `DuplicateErrorIff` state its properties |
| Validation.Warnings | models/_def_fields_NEWFORMALISM.py:235-273 | definition: the accumulated warning messages in loop order; `CheckFields` is proved against it and `MissingInfosEmpty` states its properties |
| Validation.ConsistencyError | models/_def_fields_NEWFORMALISM.py:257-265 | definition: the first of the three consistency rules that fires for one field, if any; `ConsistencyErrorIff` states when it is empty |
| Validation.MissingInfo | models/_def_fields_NEWFORMALISM.py:267-273 | a field draws the no-comment warning, once, iff it lacks `com`, and the no-unit warning, once, iff it lacks `units`, the comment warning first, each naming its field and group, and nothing else |
| Validation.Decide | models/_def_fields_NEWFORMALISM.py:280-283 | a normal return iff there is neither a warning nor an error; Warning, carrying all warnings, iff there is a warning; ValueError only with no warning and some error, carrying all errors |
| Validation.CheckGroup | models/_def_fields_NEWFORMALISM.py:249-277 | the field loop over one group appends exactly the consistency errors and the missing-information warnings of its fields, in field order |
| Validation.CheckFields | models/_def_fields_NEWFORMALISM.py:228-283 | the nested loops produce exactly the verdict: Warning if any warning, else ValueError if any error, else a normal return |
| Validation.InAllFieldNames | models/_def_fields_NEWFORMALISM.py:239-241 | a name is in the chained key list iff some group declares it |
| Validation.CountAllFieldNames | models/_def_fields_NEWFORMALISM.py:239-242 | on a well-formed library, a name is counted at least twice iff two different groups declare it |
| Validation.DuplicatesAreSharedNames | models/_def_fields_NEWFORMALISM.py:242 | the duplicate set is exactly the names declared by more than one group |
| Validation.DuplicateErrorIff | models/_def_fields_NEWFORMALISM.py:244-246 | the duplicate error is recorded, at most once, iff some name is declared by more than one group |
| Validation.ConsistencyErrorIff | models/_def_fields_NEWFORMALISM.py:257-265 | a field draws at most one consistency error, and none iff it is a function without value or ODE, or a value without a function |
| Validation.ConsistencyErrorsBound | models/_def_fields_NEWFORMALISM.py:249-265 | there are at most as many consistency errors as fields, and none iff every field is well defined |
| Validation.MissingInfosEmpty | models/_def_fields_NEWFORMALISM.py:267-273 | there is no warning iff every field has both a comment and units |
| Validation.CheckPassesIff | models/_def_fields_NEWFORMALISM.py:280-283 | on a well-formed library, CHECK_FIELDS returns normally iff no name is shared by two groups and every field is well defined and documented |
| Validation.WarningPrecedence | models/_def_fields_NEWFORMALISM.py:280-283 | a missing comment or unit raises Warning even when errors exist; ValueError implies every field is documented and an error exists |
| Conversion.PutValid | models/_def_fields_NEWFORMALISM.py:296 | writing a record keeps the keys distinct and in insertion order, and adds exactly the written key |
| Conversion.GetOr | models/_def_fields_NEWFORMALISM.py:298-302 | definition: `subject.get(key, default)`; `RecordFields` states the defaulting it gives |
| Conversion.Lookup | models/_def_fields_NEWFORMALISM.py:298-299 | definition: `_DEFAULTFIELDS[key]`, raising KeyError when the key is missing; `RecordError` states when and in which order it raises |
| Conversion.DefaultFields | models/_def_fields_NEWFORMALISM.py:225-226 | definition: `_DEFAULTFIELDS`, an empty comment and empty units; `LibraryConverts` uses it |
| Conversion.Outcome | models/_def_fields_NEWFORMALISM.py:326 | definition: the dictionary is returned, or the exception that stopped the loop is raised; `FromLibraryToDFields` states its result by it |
| Conversion.Put | models/_def_fields_NEWFORMALISM.py:296 | definition: `d[k] = r` on an insertion-ordered dictionary, a new key going last and an existing key keeping its place; `PutValid` states its properties |
| Conversion.KindOf | models/_def_fields_NEWFORMALISM.py:295-318 | definition: the branch choice of the dictionary literal, `func` before `ode` before a plain value, with the KeyError of a missing `value`; `RecordKind` states its properties |
| Conversion.ToRecord | models/_def_fields_NEWFORMALISM.py:295-325 | definition: the dictionary literal of one field in Python's evaluation order; `RecordSucceedsIff`, `RecordError` and `RecordFields` state its properties |
| Conversion.Convert | models/_def_fields_NEWFORMALISM.py:292-326 | definition: the nested loops over the fields in order, writing one record each and stopping at the first exception; the `Convert*` lemmas state its properties |
| Conversion.DFields.constructor | models/_def_fields_NEWFORMALISM.py:285 | the default dictionary starts out empty |
| Conversion.DFields.Store | models/_def_fields_NEWFORMALISM.py:296 | `_DFIELDS[field] = record` replaces the record of an existing key in place, and appends a new key |
| Conversion.FromLibraryToDFields | models/_def_fields_NEWFORMALISM.py:285-326 | the nested loops update the given dictionary in place, record by record; it is returned, or the first exception is raised with the earlier writes kept |
| Conversion.RecordSucceedsIff | models/_def_fields_NEWFORMALISM.py:295-325 | a record is built iff the field has a `func` or a `value`, the defaults hold `com` and `units`, and the units parse |
| Conversion.RecordError | models/_def_fields_NEWFORMALISM.py:295-325 | the exception raised for a field is the first of: the missing `value`, the missing default `com`, the missing default `units`, and the units error |
| Conversion.RecordNeedsUnits | models/_def_fields_NEWFORMALISM.py:300-301 | a field without `units` always raises, whatever the defaults hold |
| Conversion.RecordKind | models/_def_fields_NEWFORMALISM.py:295-318 | `func` takes precedence over `ode`, which takes precedence over a plain value; an ODE's initial condition is the field's `value` |
| Conversion.RecordFields | models/_def_fields_NEWFORMALISM.py:296-324 | comment and units fall back to the defaults, the symbol to the field name; the group is recorded; the dimension is the parsed units and holds `Multiplier`; the type is never 'dimensionless' and is Intensive iff two keys remain |
| Conversion.ConvertStopped | models/_def_fields_NEWFORMALISM.py:292-326 | once an exception is raised, the later fields change nothing |
| Conversion.ConvertKeepsValid | models/_def_fields_NEWFORMALISM.py:292-326 | the dictionary keeps distinct keys, each with its record, and the old key order stays a prefix |
| Conversion.ConvertSucceeds | models/_def_fields_NEWFORMALISM.py:292-326 | nothing is raised iff the record of every field can be built |
| Conversion.ConvertFirstFailure | models/_def_fields_NEWFORMALISM.py:292-326 | when something is raised, it is the exception of the first field whose record cannot be built, every earlier field having succeeded |
| Conversion.ConvertKeys | models/_def_fields_NEWFORMALISM.py:292-326 | after a full run the keys are the old keys plus every field name of the library |
| Conversion.ConvertUntouched | models/_def_fields_NEWFORMALISM.py:285-326 | a key that no field writes keeps its old record, since the shared dictionary is never cleared |
| Conversion.ConvertLastWins | models/_def_fields_NEWFORMALISM.py:292-326 | when a name occurs in several groups, the last occurrence's record is the one kept |
| Conversion.UnitsParseSucceeds | models/_def_fields_NEWFORMALISM.py:344-360 | units that are None, or a string with at most one space, always parse |
| Conversion.CheckedLibraryConverts | models/_def_fields_NEWFORMALISM.py:394-396 | a library that CHECK_FIELDS lets through converts without exception, given default `com` and `units` and units that parse |
| DefaultLibrary.SimpleUnitsParse | models/_def_fields_NEWFORMALISM.py:347-358 | units that are None, or a string without spaces, parse |
| DefaultLibrary.Library | models/_def_fields_NEWFORMALISM.py:18-223 | definition: the `_LIBRARY` literal, seven groups of 34 fields with their attribute keys and unit strings; `LibraryReady`, `LibraryNamesDistinct` and `LibraryWellFormed` state its properties |
| DefaultLibrary.LibraryReady | models/_def_fields_NEWFORMALISM.py:18-223 | every one of the 34 fields is well defined, has a comment and units, and its units contain no space |
| DefaultLibrary.LibraryNamesDistinct | models/_def_fields_NEWFORMALISM.py:18-223 | the chained list of the 34 field names has no repetition |
| DefaultLibrary.LibraryWellFormed | models/_def_fields_NEWFORMALISM.py:18-223 | group names are distinct, and field names are distinct within each group |
| DefaultLibrary.ReadyLibraryPasses | models/_def_fields_NEWFORMALISM.py:228-283 | a library whose field names are all distinct and whose fields each have a comment, units that are None or a string without a space, and one consistent behaviour gets neither a warning nor an error |
| DefaultLibrary.LibraryPasses | models/_def_fields_NEWFORMALISM.py:394 | `CHECK_FIELDS(_LIBRARY)` collects no warning and no error, and so returns normally |
| DefaultLibrary.LibraryConverts | models/_def_fields_NEWFORMALISM.py:396 | converting `_LIBRARY` with the default empty comment and units raises nothing, whatever the dictionary held before |

## Left out

- Message text: errors and warnings are structured records, not strings. The `str(set)` rendering of the duplicate names depends on Python's string hashing, and the exact text is not modelled.
- `print_fields` and the `print(_DFIELDS)` at the start of the conversion are output only, and are not modelled.
- The shared mutable default `_DFIELDS={}` is modelled as a `DFields` object that the caller passes in. Sharing between calls is expressed by passing the same object again.
- Attribute values (lambdas, numbers, `np.exp(-5)`) are opaque tokens. Nothing evaluates them, and floating point is not modelled.
- PyText.Lower: lower-cases only the ASCII letters A to Z, not the full Unicode case mapping of `str.lower`.
- Units.Classify: the TypeError that `dims[dimlist]` raises (indexing a dictionary with a list) is modelled as `UnhashableList`. The `'Extensive'` return is unreachable in the source, because that TypeError is raised first whenever its guard's first test holds, so it has no counterpart in `TypeTag`. The TypeError itself cannot be reached from DetectType, since every parsed dictionary holds `Multiplier` and so leaves at least one key besides the unit.
- The `_LIBRARY` attribute texts (comments, symbols, lambda source) are copied as text. Only their keys and the unit strings take part in the proofs.
- The model importer, the engine and the solver that read `_DFIELDS` are not part of this model.
