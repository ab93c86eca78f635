# Row validator of lab_3/lr3.py, in Dafny

`lab_3/lr3.py` checks the rows of a CSV dataset field by field. It has thirteen
`validate_*` functions, each an anchored regular expression (`re.match` of
`^...$`) over one string. `validate_data` binds ten column names to those
validators. `read_and_validate_csv` runs `validate_data` on every row, collects the
results, and records the index of every row with a false entry. The checksum of
those indices is then written out with the variant number.

The model has six modules:

- `Text` (`text.dfy`): digits and digit templates (`Fits`, where `#` stands for any
  ASCII digit), `Split`/`Join` at a separator with their round trip, and the
  value of a digit string.
- `Regex` (`regex.dfy`): a small regular-expression language (`Empty`, `Class`,
  `Cat`, `Alt`, `Plus`) with its matching relation `Matches`. It also has
  `FullMatch`. `FullMatch` is `re.match` with `^` and `$` and no flags. It matches
  the whole string, or the whole string before one final line feed, because
  Python's `$` also matches there.
- `Patterns` (`patterns.dfy`): each of the thirteen regular expressions of the
  source, transcribed term by term into that language.
- `Shapes` (`shapes.dfy`): for each field, a hand-written predicate for the
  strings its pattern matches. Each predicate is stated with lengths, digit
  positions, literal separators and the alternatives. A `...Shape` lemma proves
  that the pattern matches exactly those strings.
- `Validators` (`validators.dfy`): the thirteen validators, defined from the
  shapes. Each `...AgreesWithPattern` lemma proves that the validator is exactly
  `FullMatch` of the transcribed pattern. `validate_height` adds its range test,
  `0.5 <= float(height) <= 3.00`. The model computes it exactly in hundredths,
  which is possible because the pattern admits at most two fraction digits.
- `Rows` (`rows.dfy`): one row and `validate_data`, with the source's own binding.
- `Dataset` (`dataset.dfy`): the loop of `read_and_validate_csv`, as a method with
  loop invariants, proved against the reference function `ErrorIndices`.

The binding in `validate_data` is modelled as written. The `occupation` column is
checked by the identifier validator (`lab_3/lr3.py:86`). The `issn` column is
checked by the ISBN validator (`lab_3/lr3.py:89`). `validate_occupation` and
`validate_issn` exist in the source but nothing calls them. The lemmas
`Rows.ValidOccupationIsReported` and `Rows.ValidIssnIsReported` prove what this
binding does. Every row whose occupation is a valid occupation, or whose issn is a
valid ISSN, is reported as an error.

The date pattern `[0]\d` admits month `00` (`lab_3/lr3.py:75`). The model follows
the code: `Validators.DateExamples` proves that `"2023-00-00"` is accepted. A
description of the date field as months 01-12 would disagree with the code.

## Model

| member | source | states |
|---|---|---|
| Shapes.TelephoneShape | lab_3/lr3.py:10-12 | the telephone pattern matches exactly the strings of the form `+7-(DDD)-DDD-DD-DD`, one ASCII digit per D |
| Shapes.HttpStatusMessageShape | lab_3/lr3.py:25-27 | the status-message pattern matches exactly three digits, a space, and one or more Latin letters or spaces |
| Shapes.StatusWordsShape | lab_3/lr3.py:26 | `[A-Za-z ]+` matches exactly the non-empty strings of Latin letters and spaces |
| Shapes.LatinOrSpaceClass | lab_3/lr3.py:26 | a character is in `[A-Za-z ]` exactly when it is an ASCII letter or a space |
| Shapes.InnShape | lab_3/lr3.py:30-32 | the INN pattern matches exactly the strings of twelve digits |
| Shapes.IdentifierShape | lab_3/lr3.py:35-37 | the identifier pattern matches exactly `DD-DD/DD` |
| Shapes.OctetShape | lab_3/lr3.py:41 | `[0-9]{1,3}` matches exactly one to three digits |
| Shapes.GroupsStep | lab_3/lr3.py:41 | a string matches n+1 dotted groups exactly when it has a `.`, the part before the first `.` is one to three digits, and the rest matches n groups |
| Shapes.OctetGroupsStep | lab_3/lr3.py:41 | splitting at `.`, a string has n groups of one to three digits exactly when its first piece is such a group and the rest has n-1 |
| Shapes.GroupsShapeBase | lab_3/lr3.py:41 | one group matches exactly a string with no `.` of one to three digits |
| Shapes.GroupsShapeStep | lab_3/lr3.py:41 | the matching of n+1 groups and the split into n+1 groups agree, given that they agree after the first `.` |
| Shapes.GroupsShape | lab_3/lr3.py:41 | `([0-9]{1,3}\.){n}[0-9]{1,3}` matches exactly the strings that split at `.` into n+1 groups of one to three digits, for every n |
| Shapes.IpV4Shape | lab_3/lr3.py:40-42 | the address pattern matches exactly the strings that split at `.` into four groups of one to three digits |
| Shapes.OctetGroupsJoin | lab_3/lr3.py:41 | a group without `.` joined by `.` to a rest makes n groups exactly when the group is one to three digits and the rest makes n-1 |
| Shapes.IpV4OfGroups | lab_3/lr3.py:41 | any four groups of one to three digits joined by `.` form an accepted address; no group is bounded by 255 |
| Shapes.GroupsOfIpV4 | lab_3/lr3.py:41 | conversely, every accepted address is its four groups of one to three digits joined back by `.` |
| Text.SplitJoin | lab_3/lr3.py:41 | splitting at `.` the join of pieces that hold no `.` gives back exactly those pieces |
| Shapes.IpV4LongGroup | lab_3/lr3.py:41 | a first group of four or more digits never forms an address, whatever follows the `.` |
| Shapes.FractionShape | lab_3/lr3.py:46 | `(\.\d+)?` matches exactly the empty string or a `.` followed by one or more digits |
| Shapes.ZeroFractionShape | lab_3/lr3.py:46 | `(\.0+)?` matches exactly the empty string or a `.` followed by one or more zeros |
| Shapes.LatitudeUnitsShape | lab_3/lr3.py:46 | a one-digit whole part followed by a fraction |
| Shapes.LatitudeTensShape | lab_3/lr3.py:46 | a whole part of a digit 1-8 and a second digit, followed by a fraction |
| Shapes.LatitudeNinetyShape | lab_3/lr3.py:46 | `90(\.0+)?` matches exactly `90` followed by an all-zero fraction or nothing |
| Shapes.LatitudeMagnitudeShape | lab_3/lr3.py:46 | the unsigned part matches exactly a whole part 0-89 (two digits only with the first 1-8) with any fraction, or 90 with an all-zero fraction |
| Shapes.LatitudeShape | lab_3/lr3.py:45-47 | the latitude pattern matches exactly an optional `-` followed by such a magnitude |
| Shapes.BloodGroupShape | lab_3/lr3.py:51 | the group alternatives match exactly `A`, `B`, `AB` or `O` |
| Shapes.RhesusSignShape | lab_3/lr3.py:51 | the sign class matches exactly one character, `+` or U+2212 MINUS SIGN |
| Shapes.BloodTypeShape | lab_3/lr3.py:50-52 | the blood-type pattern matches exactly a group followed by one sign; ASCII `-` is not a sign |
| Shapes.IsbnShape | lab_3/lr3.py:55-57 | the ISBN pattern matches exactly `D-DDDDD-DDD-D`, with or without a leading `DDD-` |
| Shapes.HexOrHyphenClass | lab_3/lr3.py:61 | a character is in `[a-f0-9\-]` exactly when it is a lower-case hex digit or `-` |
| Shapes.UuidShape | lab_3/lr3.py:60-62 | the UUID pattern matches exactly 36 characters, each a lower-case hex digit or `-`, in any order |
| Shapes.OccupationClass | lab_3/lr3.py:65 | a character is in the occupation class exactly when it is a Latin letter, a Cyrillic letter U+0410-U+044F, `ё`, `Ё`, `-` or a space |
| Shapes.OccupationShape | lab_3/lr3.py:63-66 | the occupation pattern matches exactly the non-empty strings of those characters |
| Shapes.IssnShape | lab_3/lr3.py:68-71 | the ISSN pattern matches exactly `DDDD-DDDD` |
| Shapes.MonthShape | lab_3/lr3.py:75 | the month group matches exactly two digits from `00` to `12` |
| Shapes.DayShape | lab_3/lr3.py:75 | the day group matches exactly two digits from `00` to `31` |
| Shapes.MonthDayShape | lab_3/lr3.py:75 | `MM-DD` matches exactly a month, a `-` and a day |
| Shapes.DateShape | lab_3/lr3.py:74-76 | the date pattern matches exactly ten characters: four digits, `-`, a month 00-12, `-` and a day 00-31; the length of the month is not checked |
| Shapes.ShortFractionShape | lab_3/lr3.py:16 | `(\.\d{1,2})?` matches exactly nothing, or a `.` followed by one or two digits |
| Shapes.HeightUnitsShape | lab_3/lr3.py:16 | a digit followed by a short fraction |
| Shapes.HeightTensShape | lab_3/lr3.py:16 | a digit 1-2, a digit, then a short fraction |
| Shapes.HeightDecimalShape | lab_3/lr3.py:16 | `[1-2]?\d(\.\d{1,2})?` matches exactly a one-digit whole part, or a two-digit one starting with 1 or 2, followed by a short fraction |
| Shapes.HeightThreeShape | lab_3/lr3.py:16 | `3(\.00)?` matches exactly `3` and `3.00` |
| Shapes.HeightShape | lab_3/lr3.py:16 | the height pattern matches exactly the union of those two shapes |
| Validators.Chomped | lab_3/lr3.py:12 | the string before the one final line feed that `$` may stand before, or the string itself when there is none |
| Validators.TelephoneAgreesWithPattern | lab_3/lr3.py:10-12 | validate_telephone is true exactly when `re.match` of the anchored pattern succeeds |
| Validators.HttpStatusMessageAgreesWithPattern | lab_3/lr3.py:25-27 | validate_http_status_message is exactly the anchored match |
| Validators.InnAgreesWithPattern | lab_3/lr3.py:30-32 | validate_inn is exactly the anchored match |
| Validators.IdentifierAgreesWithPattern | lab_3/lr3.py:35-37 | validate_identifier is exactly the anchored match |
| Validators.IpV4AgreesWithPattern | lab_3/lr3.py:40-42 | validate_ip_v4 is exactly the anchored match |
| Validators.LatitudeAgreesWithPattern | lab_3/lr3.py:45-47 | validate_latitude is exactly the anchored match |
| Validators.BloodTypeAgreesWithPattern | lab_3/lr3.py:50-52 | validate_blood_type is exactly the anchored match |
| Validators.IsbnAgreesWithPattern | lab_3/lr3.py:55-57 | validate_isbn is exactly the anchored match |
| Validators.UuidAgreesWithPattern | lab_3/lr3.py:60-62 | validate_uuid is exactly the anchored match |
| Validators.OccupationAgreesWithPattern | lab_3/lr3.py:63-66 | validate_occupation is exactly the anchored match |
| Validators.IssnAgreesWithPattern | lab_3/lr3.py:68-71 | validate_issn is exactly the anchored match |
| Validators.DateAgreesWithPattern | lab_3/lr3.py:74-76 | validate_date is exactly the anchored match |
| Validators.FractionHundredths | lab_3/lr3.py:19 | for a short fraction, the value in hundredths is between 0 and 99, and it is 0 exactly when every fraction digit is `0` |
| Validators.HeightAgreesWithPattern | lab_3/lr3.py:14-22 | validate_height is true exactly when the anchored pattern matches and the value lies between 50 and 300 hundredths |
| Validators.UnitsHundredths | lab_3/lr3.py:16-19 | a one-digit whole part is worth its digit in hundreds plus the fraction |
| Validators.TensHundredths | lab_3/lr3.py:16-19 | a two-digit whole part is worth at least 10.00, above the range |
| Validators.HeightRange | lab_3/lr3.py:17-21 | on a string the pattern admits, the range test holds exactly for whole part 1 or 2 with any short fraction, 0 with a first fraction digit of 5 or more, or `3`, `3.0`, `3.00` |
| Validators.AcceptedHeightIsForm | lab_3/lr3.py:16-20 | every height of that closed form is admitted by the pattern |
| Validators.HeightFormEndsInDigit | lab_3/lr3.py:16 | every string the height pattern admits ends in a digit |
| Validators.HeightInRange | lab_3/lr3.py:16-21 | on a string without a final line feed, the pattern together with the range test is exactly the closed form |
| Validators.NotHeightForm | lab_3/lr3.py:16 | a string ending in a line feed neither fits the height pattern nor has the closed form |
| Validators.HeightAccepted | lab_3/lr3.py:14-22 | validate_height accepts exactly the anchored closed form |
| Validators.TelephoneExamples | lab_3/lr3.py:10-12 | `+7-(123)-456-78-90` is accepted; `+7-123-456-78-90` is rejected |
| Validators.HeightAcceptsExamples | lab_3/lr3.py:14-22 | `1.75` and `3` are accepted |
| Validators.HeightRejectsExamples | lab_3/lr3.py:14-22 | `3.50` (above 3.00), `0.3` (below 0.5) and `29.5` are rejected |
| Validators.IpV4AcceptsDigitGroups | lab_3/lr3.py:40-42 | four groups of one to three digits joined by `.` are accepted, 255 or not |
| Validators.IpV4RejectsLongGroup | lab_3/lr3.py:40-42 | a first group of four or more digits is rejected, with or without a final line feed |
| Validators.IpV4AcceptsLargeGroups | lab_3/lr3.py:40-42 | `999.999.1.1` is accepted |
| Validators.IpV4RejectsFourDigits | lab_3/lr3.py:40-42 | `1000.1.1.1` is rejected |
| Validators.LatitudeExamples | lab_3/lr3.py:45-47 | `90.5` and `91` are rejected |
| Validators.BloodTypeExamples | lab_3/lr3.py:50-52 | `A+` and `AB` with U+2212 are accepted; `A-` with an ASCII hyphen is rejected |
| Validators.DateExamples | lab_3/lr3.py:74-76 | `2023-02-30` and `2023-00-00` are accepted |
| Rows.ValidateData | lab_3/lr3.py:80-93 | the result has exactly the ten keys, and each entry is the bound validator on its column, with `occupation` checked as an identifier and `issn` as an ISBN |
| Rows.RowErrorIffFieldRejected | lab_3/lr3.py:80-93 | a row's result has a false entry exactly when one of the ten bound validators rejects its column |
| Rows.OccupationIsNeverIdentifier | lab_3/lr3.py:35-37 | no string that validate_occupation accepts is accepted by validate_identifier |
| Rows.ValidOccupationIsReported | lab_3/lr3.py:86 | a row whose occupation validate_occupation accepts gets a false `occupation` entry and is reported |
| Rows.IssnIsNeverIsbn | lab_3/lr3.py:55-71 | no string that validate_issn accepts is accepted by validate_isbn |
| Rows.ValidIssnIsReported | lab_3/lr3.py:89 | a row whose issn validate_issn accepts gets a false `issn` entry and is reported |
| Dataset.ErrorIndicesAppend | lab_3/lr3.py:133-137 | one more result adds its position to the error indices exactly when it has a false entry |
| Dataset.ErrorIndicesSpec | lab_3/lr3.py:112-137 | the error indices are strictly ascending, lie within the results, and contain i exactly when result i has a false entry |
| Dataset.ErrorIndicesOfThreeRows | lab_3/lr3.py:112-137 | of three rows where the first is accepted and the other two are rejected, rows 1 and 2 are reported |
| Dataset.ValidateRows | lab_3/lr3.py:112-137 | the loop yields one result per row, in row order, and the positions of the rejected rows |
| Dataset.ReadAndValidateCsv | lab_3/lr3.py:112-143 | `validation_results[i]` is validate_data of row i; `error_rows` is strictly ascending and contains i exactly when that result has a false entry; the record holds the variant and the checksum of `error_rows` |

## Left out

- Reading the CSV: `pd.read_csv` and `df.iterrows()` (`lab_3/lr3.py:110`, `116`)
  are file parsing in a library. The model takes the parsed rows as a `seq<Row>`.
  Row indices are positions, as pandas' default index numbers them.
- `calculate_checksum` (`lab_3/lr3.py:6`, `140`) comes from `checksum.py`, which is
  not part of this model. It is the parameter `checksum`, applied once to the
  final `error_rows`.
- `serialize_result` (`lab_3/lr3.py:98-105`) writes a JSON file. The model
  returns the record it would write (`Dataset.ResultRecord`) and leaves out the
  file I/O.
- The script lines `lab_3/lr3.py:149-152`: a hard-coded path and one call.
- `float(height)`: the range test is computed exactly in hundredths, not in
  floating point. The pattern admits at most two fraction digits, so this is
  exact. `float` strips the line feed that `$` lets through, and the model does
  the same.
- Cells that are not strings, such as pandas' NaN for an empty cell. `re.match`
  raises on those, and `str(height)` would turn a float into text the model does
  not reproduce. Every column is taken to be text.
- Python's `\d` also matches non-ASCII decimal digits. The model reads `\d` as
  ASCII `0`-`9` only.
- The loop is stated for any row validator, not only `validate_data`, so that its proof does not unfold the validators.
  `Dataset.ReadAndValidateCsv` applies it to `Rows.ValidateData`.
