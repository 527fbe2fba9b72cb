# airstripmap core in Dafny

A model of the core of airstripmap, a tool that merges two airstrip lists
for Madagascar (the Haja list and the Wingman list) into one sorted list of
airstrips. The model covers three parts:

- **The coordinate parser** (`conversions.py`). It has five textual grammars
  for one coordinate: hybrid 1 `N 41 24 12.2`, hybrid 2 `S 41 24.2028`,
  DMS `41°24'12.2"N`, DMM `41 24.2028` and DD `41.40338`. The same five
  exist for a pair. Each grammar has a converter to decimal degrees. There
  is a first-match dispatch over the grammars, the inverse `dd2dms`, and
  feet to metres.
- **The record merger** (`logic/haja_wingman.py`). It covers the ten-field
  description, the altitude reader, and the `map` step of
  `HajaWingmanLogic`: the key union, the country filter, the four-way
  field choice, the status letter, validation, name normalisation,
  coordinate parsing and the final sort.
- **The airstrip record** (`logic/airstrip.py`). This is its constructor
  defaults and its six comparisons, which look only at the name.

Files:

- `pytext.dfy` (module `PyText`): the Python text built-ins the core calls.
  These are `str.split`, `str.join`, `str.strip`, `str.capitalize` and
  `re.split` on runs of non-word characters.
- `pynumber.dfy` (module `PyNumber`): `float()` and `int()` on text, as a
  character-by-character reader with exact real values.
- `conversions.dfy` (module `Conversions`): the ten recognisers, the
  converters, the part and pair parsers, `parse_coord` and `parse_coords`.
- `airstrip.dfy` (module `Airstrips`): the record, the comparisons over a
  collation key, and the sort.
- `haja_wingman.dfy` (module `HajaWingman`): cells and rows,
  `build_description`, `build_altitude`, name normalisation, status,
  per-key evaluation and the `Map` method.

Each regular expression is written as a recogniser that splits on the
characters the pattern places between its pieces. No piece of a pattern
can contain its own separator, so the two agree.

A parse gives `Parsed(value)`, `NoMatch`, or `Raises(error)`.
`NoMatch` is where the source logs a warning and returns None. `Raises` is
a Python exception.

The model follows the code as written, including these behaviours:

- The DD pattern `^[\d]{1,2}.[\d]+$` leaves its `.` unescaped, so it
  matches any character there. A digit string such as `123` is read as
  123 degrees. A text such as `12 345` passes the pattern and then makes
  `float()` raise ValueError. The source does not return None for it.
- `parse_dms_part` splits on `[^\d\w]+`, which also cuts at the point of
  fractional seconds. For `41°24'12.2"N` the converter receives `12` as the
  seconds and `2` as the direction. The fraction is lost and the result is
  never negated.
- `parse_dd` reads the undefined name `dms`, so every DD pair raises
  NameError.
- Exceptions inside the merge loop end the whole merge. This covers a name
  or coordinate cell that is not text (AttributeError) and a DD coordinate
  that `float()` refuses (ValueError). So does a missing `raw['haja']` or
  `raw['wingman']`, or a missing NaN key at the `set.remove` (KeyError).

In three places the code does something other than what a reader might
expect. The model follows the code:

- When both rows exist, the name comes from the Haja row
  (logic/haja_wingman.py:127), not from the Wingman row.
- Name normalisation does not capitalise after a hyphen: `jean-pierre/ii`
  becomes `Jean-pierre/Ii`.
- The errors listed above abort the merge rather than skipping the record.

## Model

| member | source | states |
|---|---|---|
| PyText.JoinSplit | logic/haja_wingman.py:178-180 | joining the pieces of `s.split(sep)` with `sep` gives `s` back |
| PyText.SplitJoin | logic/haja_wingman.py:178-180 | splitting a join of pieces free of the separator gives the pieces back |
| PyText.SplitKeepsFree | conversions.py:62 | a character absent from the text is absent from every piece of a split |
| PyText.ReSplitStep | conversions.py:57 | `re.split('[^\d\w]+')` cuts at a single non-word character between word runs |
| PyText.StripDropsSuffix | logic/haja_wingman.py:65 | `strip(chars)` removes exactly a trailing run of those characters when both ends of the rest are kept |
| PyText.Capitalize | logic/haja_wingman.py:178 | `capitalize` keeps the length, upper-cases the first character and lower-cases every other one |
| PyNumber.FloatOf | logic/haja_wingman.py:66-69 | models `float()` on text; None where Python raises ValueError. `FloatOfDigits`, `FloatOfPointed` and `FloatOfBroken` state what it reads |
| PyNumber.IntOf | conversions.py:36 | models `int()` on text in base 10; None where Python raises ValueError. `IntOfDigits` states what it reads |
| PyNumber.FloatOfDigits | conversions.py:66-67 | `float` of a digit string is its decimal value |
| PyNumber.IntOfDigits | conversions.py:36 | `int` of a digit string is its decimal value |
| PyNumber.FloatOfPointed | conversions.py:30 | `float("a.b")` is a + b / 10^len(b) |
| PyNumber.FloatOfBroken | conversions.py:66-67 | `float` refuses two digit runs joined by a character that is not a digit, point, underscore or exponent mark |
| Conversions.Dms2dd | conversions.py:29-33 | raises exactly when one of its three numbers is not a float, and then ValueError |
| Conversions.Dmm2dd | conversions.py:35-39 | raises exactly when the degrees are not an int or the minutes not a float, and then ValueError |
| Conversions.Hyb22dd | conversions.py:48-54 | never None; raises exactly when `dmm2dd` would, and then ValueError; otherwise the `dmm2dd` value, negated for S and W |
| Conversions.Trunc | conversions.py:42 | `int()` of a float truncates toward zero |
| Conversions.Dd2dms | conversions.py:41-46 | whole degrees are the truncation; minutes in [0, 60); seconds in [0, 60) |
| Conversions.Dd2dmsRoundTrip | conversions.py:41-46 | the `dms2dd` arithmetic on the `dd2dms` output gives the degrees back: with N when non-negative, with negated degrees and S when negative |
| Conversions.FeetToMeters | conversions.py:149-150 | keeps sign and zero, never grows a non-negative length |
| Conversions.FeetToMetersLinear | conversions.py:149-150 | additive and homogeneous |
| Conversions.DmmValue | conversions.py:35-39 | the DMM value is never negative |
| Conversions.Hyb1Free | conversions.py:22-23 | a hybrid 1 text holds only digits, spaces, the point and the hemisphere letters |
| Conversions.Hyb2Free | conversions.py:25-26 | a hybrid 2 text holds only digits, spaces, the point and the hemisphere letters |
| Conversions.DmmFree | conversions.py:16 | a DMM text holds only digits, the space and the point |
| Conversions.DmsFree | conversions.py:13 | a DMS text holds only digits, the point, the degree sign, the quotes and the hemisphere letters |
| Conversions.FloatOfDecimal | conversions.py:30 | `float` reads a numeral `\d+(\.\d+)?` as the value it denotes |
| Conversions.Hyb1PartValue | conversions.py:69-72 | hybrid 1 `H D M S` gives D + M/60 + S/3600, negated for S and W |
| Conversions.Hyb2PartValue | conversions.py:74-77 | hybrid 2 `H D M` gives D + M/60, negated for S and W |
| Conversions.DmmPartValue | conversions.py:61-64 | DMM `D M` gives D + M/60 |
| Conversions.ReSplitDms | conversions.py:57 | the non-word split of a DMS text starts with its degrees and minutes |
| Conversions.DmsWholeValue | conversions.py:56-59 | DMS with whole seconds gives D + M/60 + S/3600, negated for S and W |
| Conversions.DmsFracValue | conversions.py:56-59 | DMS with seconds W.F gives D + M/60 + W/3600, never negated |
| Conversions.DmsPartValue | conversions.py:56-59 | `parse_dms_part` on every DMS text gives the DMS value |
| Conversions.ParseDmsPart | conversions.py:56-59 | never None; raises only IndexError or ValueError. `DmsPartValue` gives the value |
| Conversions.ParseDmmPart | conversions.py:61-64 | never None; raises only IndexError or ValueError. `DmmPartValue` gives the value |
| Conversions.ParseDdPart | conversions.py:66-67 | never None; the value `float` reads when it reads the text; otherwise ValueError |
| Conversions.ParseHyb1Part | conversions.py:69-72 | never None; raises only IndexError or ValueError. `Hyb1PartValue` gives the value |
| Conversions.ParseHyb2Part | conversions.py:74-77 | never None; raises only IndexError or ValueError. `Hyb2PartValue` gives the value |
| Conversions.ParseDms | conversions.py:79-85 | never None; raises only IndexError or ValueError. `DmsPairParse` gives the values |
| Conversions.ParseDmm | conversions.py:87-93 | never None; raises only IndexError or ValueError. `DmmPairParse` gives the values |
| Conversions.ParseDd | conversions.py:95-101 | models `parse_dd` as written, with no contract of its own: it reads the undefined name `dms` and raises NameError. `ParseCoordsOutcome` and `DigitsPairRaises` state this at the dispatch |
| Conversions.ParseHyb1 | conversions.py:103-109 | never None; raises only IndexError or ValueError. `Hyb1PairParse` gives the values |
| Conversions.ParseHyb2 | conversions.py:111-117 | never None; raises only IndexError or ValueError. `Hyb2PairParse` gives the values |
| Conversions.ParseCoord | conversions.py:119-132 | None exactly when none of the five grammars matches; raises only IndexError or ValueError. `ParseCoordOutcome` narrows this to ValueError in the DD branch |
| Conversions.ParseCoords | conversions.py:134-147 | None exactly when none of the five pair grammars matches; NameError when only the DD pair grammar matches |
| Conversions.DmsShape | conversions.py:13 | models `dms_coord`; `DmsFree` states which characters it admits |
| Conversions.DmsPair | conversions.py:14 | models `dms_coords`: two DMS texts joined by one space |
| Conversions.DmmShape | conversions.py:16 | models `dmm_coord`; `DmmFree` states which characters it admits |
| Conversions.DmmPair | conversions.py:17 | models `dmm_coords`: two DMM texts joined by ", " |
| Conversions.DdShape | conversions.py:19 | models `dd_coord`, with its unescaped `.` accepting any character but a newline |
| Conversions.DdPair | conversions.py:20 | models `dd_coords`: two DD texts joined by ", " |
| Conversions.Hyb1Shape | conversions.py:22-23 | models `hyb1_coord` (at most three degree digits) and each half of `hyb1_coords`; `Hyb1Free` states which characters it admits |
| Conversions.Hyb1Pair | conversions.py:23 | models `hyb1_coords`: two digits of degrees at most in the first half, three in the second |
| Conversions.Hyb2Shape | conversions.py:25-26 | models `hyb2_coord` and each half of `hyb2_coords`, with their digit limits as parameters; `Hyb2Free` states which characters it admits |
| Conversions.Hyb2Pair | conversions.py:26 | models `hyb2_coords` |
| Conversions.ParseCoordHyb1 | conversions.py:119-121 | a hybrid 1 coordinate is parsed to its value |
| Conversions.ParseCoordHyb2 | conversions.py:122-123 | a hybrid 2 coordinate is parsed to its value |
| Conversions.ParseCoordDms | conversions.py:124-125 | a DMS coordinate reaches the DMS branch and gives the DMS value |
| Conversions.ParseCoordDmm | conversions.py:126-127 | a DMM coordinate reaches the DMM branch and gives D + M/60 |
| Conversions.ParseCoordDigits | conversions.py:128-129 | a digit string of three or more digits is accepted by the DD branch and read as an integer |
| Conversions.ParseCoordDdPointed | conversions.py:128-129 | `a.b` with one or two whole digits is read as a + b / 10^len(b) |
| Conversions.ParseCoordSpaced | conversions.py:19 | `a b` with 1–2 digits, a space and 3+ digits matches DD and raises ValueError |
| Conversions.ParseCoordOutcome | conversions.py:119-132 | None exactly when no grammar matches; raises only ValueError, and only in the DD branch |
| Conversions.Hyb1PairParse | conversions.py:103-109 | a hybrid 1 pair gives the values of both halves |
| Conversions.Hyb2PairParse | conversions.py:111-117 | a hybrid 2 pair gives the values of both halves |
| Conversions.DmsPairParse | conversions.py:79-85 | a DMS pair gives both DMS values |
| Conversions.DmmPairParse | conversions.py:87-93 | a DMM pair gives both DMM values |
| Conversions.DigitsPairRaises | conversions.py:95-101 | two digit strings joined by ", " reach `parse_dd` and raise NameError |
| Conversions.ParseCoordsOutcome | conversions.py:134-147 | None exactly when no pair grammar matches; raises exactly when only the DD pair grammar matches, with NameError |
| Airstrips.Create | logic/airstrip.py:11-17 | name and coordinates stored unchanged; description "", altitude 0.0 and status 'b' when omitted |
| Airstrips.Eq | logic/airstrip.py:35-36 | models `__eq__`: the names' collation keys are equal |
| Airstrips.Ne | logic/airstrip.py:38-39 | models `__ne__`; `NeIsNotEq` proves it is the negation of `__eq__` |
| Airstrips.Lt | logic/airstrip.py:41-42 | models `__lt__` as code-point order on the keys |
| Airstrips.Le | logic/airstrip.py:44-45 | models `__le__`; `LeTotal` and `LeTransitive` prove it a total preorder |
| Airstrips.Gt | logic/airstrip.py:47-48 | models `__gt__`; `Converse` proves it is `__lt__` reversed |
| Airstrips.Ge | logic/airstrip.py:50-51 | models `__ge__`; `Converse` proves it is `__le__` reversed |
| Airstrips.EqByNameOnly | logic/airstrip.py:35-36 | airstrips whose names have the same key are equal and compare alike, whatever their other fields |
| Airstrips.NeIsNotEq | logic/airstrip.py:35-39 | `!=` is the negation of `==` |
| Airstrips.StrGtIsSwappedLt | logic/airstrip.py:47-48 | string `>` is string `<` with the operands swapped |
| Airstrips.StrTrichotomy | logic/airstrip.py:41-45 | exactly one of `<`, `==`, `>` holds between two strings |
| Airstrips.StrLtTransitive | logic/airstrip.py:41-42 | string `<` is transitive |
| Airstrips.Converse | logic/airstrip.py:41-51 | `a < b` iff `b > a`, and `a <= b` iff `b >= a` |
| Airstrips.LeTotal | logic/airstrip.py:44-45 | any two airstrips are comparable by `<=`; both ways iff equal; `<` is the negation of the reversed `<=` |
| Airstrips.LeTransitive | logic/airstrip.py:44-45 | `<=` is transitive |
| Airstrips.InsertKeeps | logic/haja_wingman.py:202 | inserting adds exactly the one airstrip |
| Airstrips.InsertSorted | logic/haja_wingman.py:202 | inserting into a sorted list keeps it sorted |
| Airstrips.SortByName | logic/haja_wingman.py:202 | the result is sorted by `<=` and is a permutation of the input |
| HajaWingman.Fill | logic/haja_wingman.py:20-49 | each of the ten fields: "-" unless supplied; non-text Wingman cells give "-"; closed is "Yes" for a closed Haja row, else the Wingman value, else "No" or "-" |
| HajaWingman.BuildDescription | logic/haja_wingman.py:20-61 | models `build_description` as the ten fields of `Fill` joined by ", "; `Fill` and `DescriptionFields` state what it holds |
| HajaWingman.DescriptionFields | logic/haja_wingman.py:50-61 | when no value contains a comma, the description splits back at ", " into the ten labelled fields in fixed order |
| HajaWingman.BuildAltitude | logic/haja_wingman.py:63-74 | models `build_altitude`; `AltitudeWithUnit` and `AltitudeFallback` state what it gives |
| HajaWingman.AltitudeWithUnit | logic/haja_wingman.py:63-74 | digits followed by 'f'/'t' characters read as the number |
| HajaWingman.AltitudeFallback | logic/haja_wingman.py:66-69 | text `float` refuses after stripping gives 0 |
| HajaWingman.NormaliseName | logic/haja_wingman.py:178-180 | models the name normalisation of `map`; the lemmas below state its properties |
| HajaWingman.NormaliseWordSegments | logic/haja_wingman.py:178-179 | capitalising a word and then each '/' segment equals capitalising each segment |
| HajaWingman.NormaliseWordTwice | logic/haja_wingman.py:178-179 | word normalisation is idempotent |
| HajaWingman.NormaliseNameWords | logic/haja_wingman.py:178-180 | the normalised name has the same number of words, each normalised |
| HajaWingman.NormaliseNameTwice | logic/haja_wingman.py:178-180 | name normalisation is idempotent |
| HajaWingman.NormaliseSlashed | logic/haja_wingman.py:179 | a word `a/b` becomes `Capitalize(a)/Capitalize(b)` |
| HajaWingman.HyphenLowers | logic/haja_wingman.py:178 | a hyphen is no segment break: what follows it is lower-cased |
| HajaWingman.Status | logic/haja_wingman.py:132-166 | the status is in {a,b,c,x}; 'x' iff a row says closed; 'a'/'b' iff not closed and the Wingman class is A/B |
| HajaWingman.Select | logic/haja_wingman.py:126-166 | name from Haja when present; coordinates and altitude from Wingman when present; altitude 0 without Wingman |
| HajaWingman.Evaluate | logic/haja_wingman.py:117-199 | models one pass of the loop body of `map`; `CountryFilter`, `Accepted`, `Skipped` and `Failures` state its outcome |
| HajaWingman.CountryFilter | logic/haja_wingman.py:120-124 | a key whose Wingman country is not MG is skipped whatever the Haja row says |
| HajaWingman.Accepted | logic/haja_wingman.py:168-199 | an accepted airstrip passed validation and carries the normalised name, parsed coordinates, metres and status |
| HajaWingman.Skipped | logic/haja_wingman.py:168-188 | a key is skipped exactly when filtered, invalid, or with a coordinate no grammar matches |
| HajaWingman.Failures | logic/haja_wingman.py:178-188 | the loop body raises only AttributeError or ValueError |
| HajaWingman.Map | logic/haja_wingman.py:107-202 | KeyError for a missing table or NaN key; raises iff some key's body raises; otherwise sorted, one airstrip per accepted key and none for skipped keys |

## Left out

- Character classes are ASCII. `\d`, `\w`, `capitalize` and `lower` do
  not cover other Unicode digits, letters or case mappings.
- `$` in the patterns also matches before one final newline. The
  recognisers do not accept that newline.
- Floating point is exact real arithmetic. Rounding to doubles is not
  modelled, so `Dd2dmsRoundTrip` is exact here and only close in Python.
- `float()` of the words `inf`, `infinity` and `nan` is treated as refused.
  This shows only in `build_altitude`, after `strip('ft')`. A cell reading
  `inf` or `+inf` becomes `in` or `+in`, which both refuse. A cell reading
  `nan` gives NaN and then 0.0 in the source, which is also the model's
  value. A word the strip leaves whole, such as `infinity`, `INF` or
  `+Infinity`, gives infinity in the source and 0.0 in the model.
- The text of a number in the description is a parameter `show`, not
  Python's float repr.
- `locale.setlocale` and `locale.strxfrm` are a parameter `coll`. The keys
  are compared by code point, as Python compares strings.
- `Airstrip.__str__` and `__repr__` only format text and are not modelled.
- SortByName: stability, and so the relative order of equal names, is not
  stated.
- Map: when several keys would raise, which error surfaces depends on the
  set's iteration order. The model says only that it is one of theirs.
- The tables are maps with one row per key, which is the readers'
  keep-first de-duplication. A duplicated key would give a frame instead
  of a row in pandas.
- NaN is one cell value, `Missing`. The identity tests `is np.nan` and
  `set.remove(np.nan)` are taken to match every NaN.
- The latitude and longitude of an accepted airstrip are reals, as
  `parse_coord` returns them.
- `HajaWingmanLogic.read` and `write`, the readers, the KML writers,
  `logic/base.py` and `airstripmap.py` are not part of this model. They are
  file I/O, command-line handling and KML serialisation.
- Logging and `print` are left out.
