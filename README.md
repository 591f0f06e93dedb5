# Mongo CRUD shell — a verified model of its input logic

`Deprecated-Mongo-CRUD.py` is a menu-driven shell over a MongoDB collection.
The operator picks insert, read, update, delete or exit. The shell then reads
field/value pairs line by line until the sentinel `done` (in any case),
coerces entered values into numbers where they look numeric, and parses
update directives of the form `field=value` and `field+=number`. Finally it
hands at most one request to the collection, with guards that stop empty
inserts, empty updates and unconfirmed writes over the whole collection.
Read-many is the exception: once it has shown documents it also asks the
collection for the number of matches.

This project models that logic. The input is a `seq<string>` of lines and a
position in it. Upon reaching the end of input, the model gives the outcome
`Crashed(EndOfInput)`, as Python's uncaught `EOFError` would. The collection
is a log of `Call` values: the requests, in order, that the shell would hand
to the driver.

Modules:

- `Outcomes` — `Option`, `Crash` and `Read<T>`. A `Read<T>` is either a value
  with the position of the next unread line, or a crash.
- `Text` — the Python `str` operations the shell uses, over ASCII:
  - `isdigit`, `lower`, `strip`
  - `find` / `in`, `split(sep)`, `split(sep, 1)`, `replace('.', '', 1)`
- `Scalars` — the coercion expression, the `+=` operand (`int()` or
  `float()`), and the `int()` parse of the read-many limit.
- `Builders` — the key/value loops and the insert-many document loop:
  - each loop is specified by a function on the input lines (`ScanEntries`,
    `FieldMap`, `QueryRead`, `DocumentsLoop`)
  - each is implemented by a method with a `while` loop proved equal to that
    function (`ReadDocument`, `ReadQuery`, `ReadDocuments`)
- `Updates` — the directive parser and the update-document builder.
  `UpdateLoop` is the specification and `BuildUpdate` the loop.
- `Shell` — the four sub-menus, the main dispatch loop and the request log:
  - specifications: `InsertAction`, `ReadAction`, `UpdateAction`,
    `DeleteAction`, `SessionFrom`
  - methods: `InsertData`, `ReadData`, `UpdateData`, `DeleteData`, `RunSession`
  - the guards, proved as lemmas

What the shell does with values and directives:

- The coercion knows only integers, floats and text. It does not trim
  query values: ` 5` stays the text ` 5`.
- A digit string longer than 4300 digits (the default limit of `int()` in
  current Python releases) makes `int()` raise. The coercion then keeps the
  text, a `+=` operand is rejected, and the read-many limit falls back to 5.
- A non-numeric `+=` operand prints a message and the line is skipped. It is
  not an error.
- A line with two `+=` crashes with an unpack error.
- The token `1.0.2` is kept as text: removing its first point leaves `10.2`,
  which is not all digits.

## Model

| member | source | states |
|---|---|---|
| Scalars.Coerce | Deprecated-Mongo-CRUD.py:95 | The result is an integer exactly when the token is non-empty, all digits and at most 4300 digits long, and that integer is the token's decimal value. A float result carries the digit strings either side of the token's point, with at least one digit between them. Every other token comes back unchanged as text, and the result is never a `float()`-only value. |
| Scalars.IncOperand | Deprecated-Mongo-CRUD.py:193-196 | Defines the `+=` operand: `int()` for at most 4300 digits, `float()` when not all digits, and no number when either raises. Its properties are in `IncOperandAgrees`, `IncOperandSigned` and `IncOperandTooManyDigits`. |
| Scalars.IsFloatLiteral | Deprecated-Mongo-CRUD.py:193 | Defines the strings `float()` accepts once stripped: one optional sign, then `inf`, `infinity` or `nan` in any case, or a number. Properties in `DecimalIsFloatLiteral` and `ExponentIsFloatLiteral`. |
| Scalars.IsFloatNumber | Deprecated-Mongo-CRUD.py:193 | Defines a `float()` number: a mantissa, optionally followed by `e` or `E`, one optional sign and a digitpart. |
| Scalars.IsMantissa | Deprecated-Mongo-CRUD.py:193 | Defines a `float()` mantissa: a digitpart, a digitpart and a point with an optional digitpart after it, or a point and a digitpart. |
| Scalars.IsDigitPart | Deprecated-Mongo-CRUD.py:113 | Defines Python's digitpart grammar, shared by `int()` and `float()`. Its character-level description is proved in `DigitPartIff`. |
| Scalars.ParseInt | Deprecated-Mongo-CRUD.py:113 | Defines base-ten `int()` on a line: skip the white space `int()` skips (space, and tab to carriage return, but not the separators 0x1C to 0x1F that `strip()` removes), one optional sign, a digitpart of at most 4300 digits, or no number. Properties in `ParseSignedDigits`, `ParseLimitText`, `ParseLimitTooManyDigits` and `ParseLimitSeparatorExample`. |
| Scalars.IntStrip | Deprecated-Mongo-CRUD.py:113 | Defines the white space `int()` skips at both ends. Its properties are in `IntTrimLeftShape`, `IntTrimRightShape` and `IntStripUnspaced`. |
| Scalars.IntTrimLeftShape | Deprecated-Mongo-CRUD.py:113 | `int()` skips the longest run of its white space at the front: what it skips is all white space, and what remains is empty or starts with another character. |
| Scalars.IntTrimRightShape | Deprecated-Mongo-CRUD.py:113 | `int()` skips the longest run of its white space at the back: what it skips is all white space, and what remains is empty or ends with another character. |
| Scalars.IntStripUnspaced | Deprecated-Mongo-CRUD.py:113 | Text with none of `int()`'s white space at either end is parsed as it stands. |
| Scalars.ParseUnspacedDigits | Deprecated-Mongo-CRUD.py:113 | Unspaced text made of one optional sign and a plain digit string of at most 4300 digits parses to the digits' value, negated after a `-`. |
| Scalars.ParseSignedDigits | Deprecated-Mongo-CRUD.py:113 | A digit string of at most 4300 digits parses to its value, and with a leading `-` to the negated value. |
| Scalars.ParseLimit | Deprecated-Mongo-CRUD.py:112-116 | Defines the read-many limit: the parsed integer, or 5 when `int()` raises. |
| Scalars.CoerceDecimalIff | Deprecated-Mongo-CRUD.py:95 | The coercion gives a float exactly for tokens of length at least two holding exactly one `.`, with every other character a digit. This is checked against an independent counting definition. |
| Scalars.CoercedDecimalIsToken | Deprecated-Mongo-CRUD.py:95 | A float result comes only from a one-point, otherwise-digit token. |
| Scalars.DecimalTokenIsCoerced | Deprecated-Mongo-CRUD.py:95 | Every one-point, otherwise-digit token with a digit is coerced to a float. |
| Scalars.DecimalTokenPoint | Deprecated-Mongo-CRUD.py:95 | Such a token's first point is its only one. |
| Scalars.CoerceNatText | Deprecated-Mongo-CRUD.py:95 | Typing the decimal text of any natural number of at most 4300 digits gives back that number as an integer. |
| Scalars.CoerceTooManyDigits | Deprecated-Mongo-CRUD.py:95-97 | A digit string of more than 4300 digits makes `int()` raise, and the handler keeps it as text. |
| Scalars.CoerceDecimalText | Deprecated-Mongo-CRUD.py:95 | Typing digits, one point and digits (at least one digit in all) gives back those two digit strings as a float. |
| Scalars.CoerceIntExamples | Deprecated-Mongo-CRUD.py:95 | `42` becomes 42 and `007` becomes 7. |
| Scalars.CoerceDecimalExample | Deprecated-Mongo-CRUD.py:95 | `42.5` becomes the float 42.5. |
| Scalars.CoerceLeadingPointExample | Deprecated-Mongo-CRUD.py:95 | `.5` is a float. |
| Scalars.CoerceTrailingPointExample | Deprecated-Mongo-CRUD.py:95 | `5.` is a float. |
| Scalars.CoerceTextExamples | Deprecated-Mongo-CRUD.py:95 | `-5`, `abc` and ` 5` stay text. |
| Scalars.CoerceTwoPoints | Deprecated-Mongo-CRUD.py:95 | `1.0.2` stays text. |
| Scalars.CoerceNoDigits | Deprecated-Mongo-CRUD.py:95 | `.` and the empty string stay text. |
| Scalars.NotDecimal | Deprecated-Mongo-CRUD.py:95 | A token with any character that is neither a digit nor a point stays text. |
| Scalars.DigitPartIff | Deprecated-Mongo-CRUD.py:113 | The recursive digitpart grammar (a digit, then digits each optionally preceded by one underscore) accepts exactly the strings of digits and underscores with a digit at each end and no two underscores in a row. |
| Scalars.DigitsAreDigitPart | Deprecated-Mongo-CRUD.py:113 | Every non-empty digit string is a digit part that `int()` and `float()` accept. |
| Scalars.DropUnderscores | Deprecated-Mongo-CRUD.py:113 | Removing the underscores removes exactly them: the result holds no underscore and is shorter by their count. A digits-and-underscores string leaves only digits, and a digit string is unchanged. |
| Scalars.DropUnderscoresConcat | Deprecated-Mongo-CRUD.py:113 | Removing underscores works piece by piece, so every other character keeps its order. |
| Scalars.ParseLimitText | Deprecated-Mongo-CRUD.py:112-116 | Typing the decimal text of any integer of at most 4300 digits, negative ones included, makes `int()` return exactly that integer, so the limit is that integer. |
| Scalars.ParseLimitTooManyDigits | Deprecated-Mongo-CRUD.py:112-116 | A limit line of more than 4300 digits makes `int()` raise, and the limit falls back to 5. |
| Scalars.ParseLimitUnderscoreExamples | Deprecated-Mongo-CRUD.py:112-116 | `1_0` gives the limit 10; `1__0` makes `int()` raise and gives 5. |
| Scalars.ParseLimitSpaceExample | Deprecated-Mongo-CRUD.py:112-116 | A tab before `12` and a vertical tab after it are skipped, and the limit is 12. |
| Scalars.ParseLimitSeparatorExample | Deprecated-Mongo-CRUD.py:112-116 | A leading separator 0x1C, which `strip()` would remove, makes `int()` raise, and the limit falls back to 5. |
| Scalars.ParseLimitFallbackExamples | Deprecated-Mongo-CRUD.py:112-116 | An empty line or `ten` makes `int()` raise, and the limit falls back to 5. |
| Scalars.ParseLimitTextExamples | Deprecated-Mongo-CRUD.py:112-116 | `12` gives the limit 12 and `-3` gives -3. |
| Scalars.DecimalIsFloatLiteral | Deprecated-Mongo-CRUD.py:95 | Every token the coercion sends to `float()` is a float literal, so the coercion's `float(v)` never raises. |
| Scalars.DecimalNoExponent | Deprecated-Mongo-CRUD.py:95 | A decimal token has no sign, no upper-case letter and no exponent marker. |
| Scalars.DecimalMantissa | Deprecated-Mongo-CRUD.py:95 | A decimal token is a mantissa in `float()`'s grammar. |
| Scalars.IncOperandAgrees | Deprecated-Mongo-CRUD.py:193 | A `+=` operand that the `=` coercion would make a number is accepted by `+=` as the same number. |
| Scalars.IncOperandNumberExamples | Deprecated-Mongo-CRUD.py:193 | The `+=` operand `5` is the integer 5 and `2.5` is the float 2.5. |
| Scalars.IncOperandSigned | Deprecated-Mongo-CRUD.py:193 | A signed decimal (`-2.5`) is accepted by `+=` through `float()`, while the `=` coercion keeps it as text. |
| Scalars.ExponentIsFloatLiteral | Deprecated-Mongo-CRUD.py:193 | `1e3` is a float literal. |
| Scalars.IncOperandExponentExample | Deprecated-Mongo-CRUD.py:193 | `1e3` is accepted by `+=` as a `float()` value. |
| Scalars.IncOperandTooManyDigits | Deprecated-Mongo-CRUD.py:192-196 | A `+=` operand of more than 4300 digits goes to `int()`, which raises, so the directive is rejected. |
| Scalars.IncOperandRejectExamples | Deprecated-Mongo-CRUD.py:192-196 | `abc` and the empty operand make `float()` raise, so the directive is rejected. |
| Builders.IsDone | Deprecated-Mongo-CRUD.py:37 | Defines the sentinel test `key.lower() == 'done'`, the same at lines 37, 56, 90, 163, 186 and 240. Its use in the loops is in `ScanEntriesShape`, `QueryReadSentinel` and `UpdateLoopShape`. |
| Builders.ScanEntries | Deprecated-Mongo-CRUD.py:88-92 | Defines the key/value pairs a loop reads: a key line, then a value line, until a key line that is `done` in any case; the end of input crashes. A completed scan ends beyond its first line. |
| Builders.FieldMap | Deprecated-Mongo-CRUD.py:40 | Defines the dictionary built by assigning each pair in turn. Properties in `FieldMapKeys`, `FieldMapLastWins` and `FieldMapEmpty`. |
| Builders.DocumentRead | Deprecated-Mongo-CRUD.py:34-40 | Defines the insert document: the dictionary of the scanned pairs, values as entered. A completed read ends beyond its first line. |
| Builders.QueryRead | Deprecated-Mongo-CRUD.py:86-98 | Defines the filter: the dictionary of the scanned pairs with each value coerced. A completed read ends beyond its first line; its meaning is in `QueryReadMeaning`. |
| Builders.DocumentsLoop | Deprecated-Mongo-CRUD.py:50-68 | Defines the insert-many loop: read a document, keep it unless empty, and go on only while the lower-cased answer is `y`. A completed loop ends beyond its first line; its properties are in `DocumentsLoopNonEmpty`. |
| Builders.ScanEntriesShape | Deprecated-Mongo-CRUD.py:88-92 | A completed key/value scan stops at the first key line that is `done` in any case. Pair `i` comes from lines `pos+2i` and `pos+2i+1`, no earlier key is the sentinel, and exactly two lines are read per pair. |
| Builders.ScanEntriesStep | Deprecated-Mongo-CRUD.py:88-92 | A key line that is not the sentinel is paired with the next line, and the rest of the scan follows. |
| Builders.ScanEntriesEnd | Deprecated-Mongo-CRUD.py:88-92 | The scan ends just after a sentinel line, having read two lines per pair. |
| Builders.ScanEntriesPairs | Deprecated-Mongo-CRUD.py:88-92 | Each pair is read from its two lines in order, and its key is not the sentinel. |
| Builders.FieldMapKeys | Deprecated-Mongo-CRUD.py:40 | The dictionary's keys are exactly the entered keys. |
| Builders.FieldMapLastWins | Deprecated-Mongo-CRUD.py:40 | A key maps to the value entered with its last occurrence, so later duplicates overwrite earlier ones. |
| Builders.FieldMapEmpty | Deprecated-Mongo-CRUD.py:34-42 | The dictionary is empty exactly when no pair was entered. |
| Builders.CoerceAll | Deprecated-Mongo-CRUD.py:93-98 | Coercing a dictionary keeps its keys and coerces each value. |
| Builders.QueryReadMeaning | Deprecated-Mongo-CRUD.py:86-98 | The filter loop stops at the first `done` key: it ends two lines per pair after its start, just after a sentinel, and no earlier key line was `done`. The filter's keys are exactly the entered keys, and each key holds the coercion of its last entered value. |
| Builders.QueryReadSentinel | Deprecated-Mongo-CRUD.py:88-91 | The filter loop ends where the scan of pairs ends: its last line read is the sentinel, and no key line before it was `done`. |
| Builders.QueryReadValue | Deprecated-Mongo-CRUD.py:93-98 | The filter is the coercion of the dictionary of the entered pairs. |
| Builders.CoercedFieldMap | Deprecated-Mongo-CRUD.py:93-98 | The coerced dictionary has the entered keys, each holding the coercion of its last value. |
| Builders.ReadDocument | Deprecated-Mongo-CRUD.py:34-40 | The insert loop, run on the input lines, reads exactly the `DocumentRead` result: the raw entered values, last value per key, and the position after `done`. It crashes exactly when the input ends first. |
| Builders.CoerceAllUpdate | Deprecated-Mongo-CRUD.py:95-98 | Coercing at each assignment gives the same filter as coercing the finished dictionary. |
| Builders.ReadQuery | Deprecated-Mongo-CRUD.py:86-98 | The filter loop, run on the input lines, yields exactly `QueryRead`, about which `QueryReadMeaning` is proved. |
| Builders.DocumentsLoopNonEmpty | Deprecated-Mongo-CRUD.py:50-68 | Insert-many never collects an empty document, and keeps the documents it already had, in order, in front. |
| Builders.DocumentsLoopStep | Deprecated-Mongo-CRUD.py:61-68 | After each document: keep it unless empty, then continue only when the lower-cased answer is `y`. |
| Builders.ReadDocuments | Deprecated-Mongo-CRUD.py:50-68 | The insert-many loop yields exactly `DocumentsLoop` from an empty list. |
| Updates.ParseDirective | Deprecated-Mongo-CRUD.py:189-212 | Defines what one directive line asks for: `+=` tested first and split on every `+=`; `=` split at its first `=`; anything else rejected. Its properties are in `IncrementDirective`, `AssignDirective` and `DirectiveKinds`. |
| Updates.Apply | Deprecated-Mongo-CRUD.py:197-210 | Defines the effect of one directive on the update document. Its properties are in `ApplyFrame`, `ApplyWellFormed` and `ApplyEmpty`. |
| Updates.IncrementDirective | Deprecated-Mongo-CRUD.py:189-199 | Any line containing `+=` (and so also `=`) is an increment. It is the unpack error exactly when a second `+=` follows the first. Otherwise the field is the stripped text before `+=`, and the operand the stripped text after it; a non-numeric operand gives the rejected `BadNumber`. |
| Updates.AssignDirective | Deprecated-Mongo-CRUD.py:200-205 | A line with `=` but no `+=` is cut at its first `=`: the line is field, `=`, value. The field part holds no `=`, and the directive sets the stripped field to the coerced stripped value. |
| Updates.DirectiveKinds | Deprecated-Mongo-CRUD.py:189-212 | A line is rejected as unrecognised exactly when it has no `=`, and an assignment never comes from a line holding `+=`. |
| Updates.AssignExample | Deprecated-Mongo-CRUD.py:201 | `a=b=c` sets field `a` to the text `b=c`. |
| Updates.AssignExampleCut | Deprecated-Mongo-CRUD.py:200-201 | `a=b=c` has no `+=`, and its first `=` is at position 1. |
| Updates.IncrementExample | Deprecated-Mongo-CRUD.py:189-199 | `score+=5` increments `score` by the integer 5. |
| Updates.IncrementExampleCut | Deprecated-Mongo-CRUD.py:189-190 | In `score+=5`, `+=` is at position 5 and does not occur again. |
| Updates.UnrecognizedExample | Deprecated-Mongo-CRUD.py:211-212 | `score` is rejected. |
| Updates.UnrecognizedExampleCut | Deprecated-Mongo-CRUD.py:189-200 | `score` contains neither `+=` nor `=`. |
| Updates.TwoIncrementsExample | Deprecated-Mongo-CRUD.py:190 | `x+=1+=2` is the unpack error. |
| Updates.ApplyFrame | Deprecated-Mongo-CRUD.py:197-210 | A rejected directive leaves the update document exactly as it was. An increment changes only `$inc[field]`, and an assignment only `$set[field]`. Every other operator and every other field keeps its value. |
| Updates.ApplyWellFormed | Deprecated-Mongo-CRUD.py:197-210 | Applying any directive keeps the update document's top-level keys within {`$inc`, `$set`}, with each group non-empty. |
| Updates.UpdateLoop | Deprecated-Mongo-CRUD.py:184-187 | A completed directive loop ends after the line it stopped at. |
| Updates.UpdateLine | Deprecated-Mongo-CRUD.py:189-212 | A completed loop from a directive line ends beyond that line. |
| Updates.UpdateLoopStep | Deprecated-Mongo-CRUD.py:186-212 | A non-sentinel line is parsed. A second `+=` stops the loop with the unpack error; any other directive is applied and the loop goes on. |
| Updates.UpdateLoopShape | Deprecated-Mongo-CRUD.py:184-190 | The loop stops at the first `done` line, and none of the lines before it had a second `+=`. |
| Updates.UpdateLoopWellFormed | Deprecated-Mongo-CRUD.py:197-212 | The finished update document is well formed. |
| Updates.ApplyEmpty | Deprecated-Mongo-CRUD.py:197-212 | After a directive, the document is empty exactly when it was empty and the directive was rejected. |
| Updates.UpdateLoopEmpty | Deprecated-Mongo-CRUD.py:184-214 | The finished document is empty exactly when it started empty and every directive line was rejected. |
| Updates.Record | Deprecated-Mongo-CRUD.py:197-210 | Storing one directive fetches the operator's group, or a fresh one, and sets the field in it. |
| Updates.BuildUpdate | Deprecated-Mongo-CRUD.py:179-212 | The directive loop, run on the input lines, yields exactly `UpdateLoop` from an empty document, and its result is well formed. |
| Shell.Confirms | Deprecated-Mongo-CRUD.py:135-136 | Defines a confirmation: the answer, lower-cased, is `y`. The same test appears at lines 174-175 and 251-252. |
| Shell.Guarded | Deprecated-Mongo-CRUD.py:42-74 | Defines what the write guards promise of a request: no empty document or document list is inserted, and no update goes out without a non-empty, well-formed update document (lines 214-216). Proved in `InsertGuard`, `UpdateGuard` and `SessionGuarded`. |
| Shell.Dispatch | Deprecated-Mongo-CRUD.py:268-281 | Defines the main menu's choice: `1` to `5` pick insert, read, update, delete or exit, and any other line is invalid. |
| Shell.SessionFrom | Deprecated-Mongo-CRUD.py:266-281 | Defines the main loop from a line on: exit appends `Close` and stops; an invalid choice is skipped; a sub-menu's request is appended, and a crash ends the run. Its properties are in `SessionLog` and `SessionGuarded`. |
| Shell.InsertAction | Deprecated-Mongo-CRUD.py:25-74 | A completed insert menu ends beyond its option line. |
| Shell.ReadAction | Deprecated-Mongo-CRUD.py:76-148 | A completed read menu ends beyond its option line. |
| Shell.UpdateAction | Deprecated-Mongo-CRUD.py:150-225 | A completed update menu ends beyond its option line. |
| Shell.DeleteAction | Deprecated-Mongo-CRUD.py:227-262 | A completed delete menu ends beyond its option line. |
| Shell.InsertGuard | Deprecated-Mongo-CRUD.py:42-74 | An insert goes out only with a non-empty document, or a non-empty list of non-empty documents. Insert-one stores the raw entered values, last value per key. |
| Shell.InsertOneEmpty | Deprecated-Mongo-CRUD.py:42-46 | When the first field line is `done`, insert-one issues nothing. |
| Shell.ReadGuard | Deprecated-Mongo-CRUD.py:110-137 | Read-many's limit is the `int()` parse of the limit line, or 5 when that fails. Read-all goes out only after a `y`, and with option 3 a request goes out exactly when the answer is `y`. |
| Shell.UpdateGuard | Deprecated-Mongo-CRUD.py:172-225 | An update request is UpdateOne or UpdateMany with a non-empty, well-formed update document. With an empty query, the first query line was `done` and the next line confirmed with `y`. |
| Shell.UpdateSendsWellFormed | Deprecated-Mongo-CRUD.py:214-225 | An update request carries a non-empty, well-formed update document. |
| Shell.UpdateConfirmed | Deprecated-Mongo-CRUD.py:172-176 | An update with an empty query was confirmed with `y` on the line after the empty query. |
| Shell.EmptyQueryShape | Deprecated-Mongo-CRUD.py:86-98 | The query is empty exactly when its first key line is `done`, and then it consumed that line only. |
| Shell.UpdateRefused | Deprecated-Mongo-CRUD.py:172-176 | With an empty query and any answer other than `y`, update issues nothing. |
| Shell.DeleteGuard | Deprecated-Mongo-CRUD.py:249-262 | A delete request with an empty query was confirmed with `y`. |
| Shell.DeleteRefused | Deprecated-Mongo-CRUD.py:249-253 | With an empty query and any answer other than `y`, delete issues nothing. |
| Shell.ReadManyFollowUp | Deprecated-Mongo-CRUD.py:126-131 | After read-many, the count request is made exactly when some document was shown. The "Showing count of total" notice appears exactly when 0 < count < total, and only after the count request. |
| Shell.MenuAction | Deprecated-Mongo-CRUD.py:268-275 | A completed sub-menu ends beyond its option line. |
| Shell.MenuActionGuarded | Deprecated-Mongo-CRUD.py:268-275 | Every request a sub-menu issues keeps the write guards, and none is `Close`. |
| Shell.SessionPrefix | Deprecated-Mongo-CRUD.py:266-281 | Requests already issued stay in the log, in order. |
| Shell.SessionLog | Deprecated-Mongo-CRUD.py:266-281 | From any guarded log: a session ending by Exit has `Close` as its last request, after only guarded, non-`Close` requests. Any other ending leaves a log of only guarded, non-`Close` requests. |
| Shell.SessionGuarded | Deprecated-Mongo-CRUD.py:264-281 | A whole run issues only guarded requests, and `Close` only as its last request. The run ended by Exit exactly when its last request is `Close`. |
| Shell.ExtendGuarded | Deprecated-Mongo-CRUD.py:266-281 | Appending a guarded, non-`Close` request keeps the log guarded. |
| Shell.InsertData | Deprecated-Mongo-CRUD.py:25-74 | The insert menu, run on the input lines, issues exactly `InsertAction`, about which `InsertGuard` is proved. |
| Shell.ReadData | Deprecated-Mongo-CRUD.py:76-148 | The read menu issues exactly `ReadAction`, about which `ReadGuard` is proved. |
| Shell.UpdateData | Deprecated-Mongo-CRUD.py:150-225 | The update menu issues exactly `UpdateAction`, about which `UpdateGuard` and `UpdateRefused` are proved. |
| Shell.DeleteData | Deprecated-Mongo-CRUD.py:227-262 | The delete menu issues exactly `DeleteAction`, about which `DeleteGuard` and `DeleteRefused` are proved. |
| Shell.RunSession | Deprecated-Mongo-CRUD.py:264-281 | The main loop yields exactly `SessionFrom` from the first line and an empty log, about which `SessionGuarded` is proved. |
| Text.IsDigits | Deprecated-Mongo-CRUD.py:95 | Defines `str.isdigit()` over ASCII: non-empty and digits only, as tested at lines 95, 167, 193, 205 and 244. |
| Text.DigitsValue | Deprecated-Mongo-CRUD.py:95 | Defines `int()` on a plain digit string, most significant digit first, leading zeros allowed. Its round trip is in `NatToDigitsValue`. |
| Text.NatToDigits | Deprecated-Mongo-CRUD.py:95 | The decimal text of a natural number is a non-empty string of digits. |
| Text.NatToDigitsValue | Deprecated-Mongo-CRUD.py:95 | The decimal text of a natural number reads back as that number. |
| Text.Lower | Deprecated-Mongo-CRUD.py:37 | `str.lower()` keeps the length. |
| Text.LowerUnchanged | Deprecated-Mongo-CRUD.py:37 | `str.lower()` leaves a string with no upper-case letter unchanged. |
| Text.TrimLeftShape | Deprecated-Mongo-CRUD.py:191 | The left trim of `strip()` removes a run of white space and leaves a string that is empty or starts with a non-space. |
| Text.TrimRightShape | Deprecated-Mongo-CRUD.py:191 | The right trim of `strip()` removes a run of white space and leaves a string that is empty or ends with a non-space. |
| Text.StripUnspaced | Deprecated-Mongo-CRUD.py:191 | `strip()` leaves a string that starts and ends with a non-space unchanged. |
| Text.Strip | Deprecated-Mongo-CRUD.py:191 | Defines `str.strip()` over ASCII white space. Its properties are in `TrimLeftShape`, `TrimRightShape` and `StripUnspaced`. |
| Text.Find | Deprecated-Mongo-CRUD.py:189 | Defines `str.find` and the `in` test. Its properties are in `FindFirst`, `FoundAt` and `AbsentNotFound`. |
| Text.RemoveFirst | Deprecated-Mongo-CRUD.py:95 | Defines `replace('.', '', 1)`: the string without its first occurrence of the character. It is used in `Coerce` and characterised by `CoerceDecimalIff`. |
| Text.FindFrom | Deprecated-Mongo-CRUD.py:189 | A found position lies inside the string. |
| Text.FindFromSpec | Deprecated-Mongo-CRUD.py:189 | The search returns the first occurrence of the pattern at or after its start, and nothing only when there is none. |
| Text.FindFirst | Deprecated-Mongo-CRUD.py:189 | `find` returns the first occurrence, and none only when the pattern does not occur. |
| Text.FoundAt | Deprecated-Mongo-CRUD.py:189 | An occurrence with none before it is what `find` returns. |
| Text.AbsentNotFound | Deprecated-Mongo-CRUD.py:189 | A pattern that occurs nowhere is not found. |
| Text.OccursInPrefix | Deprecated-Mongo-CRUD.py:189 | An occurrence within a prefix is an occurrence in the whole string. |
| Text.Split | Deprecated-Mongo-CRUD.py:190 | `split` always gives at least one piece. |
| Text.SplitJoin | Deprecated-Mongo-CRUD.py:190 | Joining the pieces of `split(sep)` with `sep` gives back the string. |
| Text.SplitStep | Deprecated-Mongo-CRUD.py:190 | `split` cuts at the first separator and goes on after it. |
| Text.CutAround | Deprecated-Mongo-CRUD.py:190 | The string is the text before the first separator, the separator, and the rest. |
| Text.JoinCons | Deprecated-Mongo-CRUD.py:190 | Joining a piece in front of the other pieces puts one separator between them. |
| Text.SplitPiecesClean | Deprecated-Mongo-CRUD.py:190 | No piece of `split(sep)` contains the separator. |
| Text.FirstPieceClean | Deprecated-Mongo-CRUD.py:201 | The text before the first separator does not contain it. |
| Text.SplitOnce | Deprecated-Mongo-CRUD.py:201 | `split(sep, 1)` gives two pieces when the separator occurs, and the whole string alone when it does not. |
| Text.SplitOnceJoin | Deprecated-Mongo-CRUD.py:201 | `split(sep, 1)` gives the text before the first separator and everything after it, and the first piece holds no separator. |
| Text.CountCharConcat | Deprecated-Mongo-CRUD.py:95 | Character counts add up over concatenation. |
| Text.CountCharZero | Deprecated-Mongo-CRUD.py:95 | A character counts zero times exactly when it does not occur. |
| Text.OccursAtChar | Deprecated-Mongo-CRUD.py:200 | A one-character pattern occurs exactly where that character stands. |
| Text.OccursAtPair | Deprecated-Mongo-CRUD.py:189 | A two-character pattern occurs exactly where those two characters stand in order. |

## Left out

- The MongoDB driver: connecting, the requests themselves and their replies.
  Each request is a `Call` value in the log. The read menus' display of
  returned documents and the update/delete result counts are not modelled.
- Shell.SessionFrom: every driver call is taken to return. In the shell an
  exception from a call is not caught and ends the run. Examples are an
  unreachable server, or a write the store refuses, such as the empty field
  name that `=5` sets. The model goes on with the next menu choice.
- Shell.ReadManyFollowUp: the number of documents shown and the total reported
  by `count_documents` are store replies. They are parameters, and the
  follow-up request is not part of the session log.
- Prompts and messages printed by the shell, including the menu text. Input
  lines are a sequence.
- Scalars.Coerce: a float is kept as the two digit strings around its point,
  not as an IEEE double. Rounding, range and the value of `float()` results
  are not modelled.
- Scalars.IncOperand: operands that only `float()` accepts (signs, exponents,
  `inf`, `nan`, underscores) are kept as the entered text.
- `isdigit`, `lower` and `strip` are modelled over ASCII only:
  - Unicode decimal digits such as `３` or `٣` are not modelled. They pass
    `isdigit`, and `int()` and `float()` accept them, so Python stores a
    number where the model keeps text. Characters such as `²` pass `isdigit`
    but make `int()` raise. The model already treats them as text, as the
    shell ends up doing.
  - Nor are Unicode case mappings.
  - Nor is Unicode white space beyond ASCII, which `strip()` removes and
    `int()` skips.
- The order of keys in the shell's dictionaries; the model uses maps.
- The integer width of stored values (BSON 64-bit integers), and what the
  store does with a negative or zero `limit`: the model passes the parsed
  integer on unchanged.
- Scalars.ParseInt: the `int()` digit limit is fixed at 4300, the
  interpreter's default. `Scalars.Coerce` and `Scalars.IncOperand` use the
  same limit. The limit can be changed by `PYTHONINTMAXSTRDIGITS` or
  `sys.set_int_max_str_digits`, and older releases have no limit at
  all (before 3.11, 3.10.7 and 3.9.14). Neither those settings nor those
  releases are modelled.
- The unused `ObjectId` import.
