# etimetool date/time entry, modelled in Dafny

etimetool is a small full-screen dialog for setting the clock. It shows two
lines, a date (`20YY - MM - DD`) and a time (`HH : MM`). The user moves a
cursor over the five fields and changes the selected field in one of two ways:
- with Up/Down, which wrap around the field's limits;
- by typing two keypad digits. The first digit is held in a "half mode" until
  the second one arrives. The second digit either stores the two-digit value
  and moves the cursor on, or rolls the field back to its saved value.

Return hands the five values to the clock and quits. Escape quits without
setting anything.

The model covers the entry state machine and the text renderer:

- `fields.dfy` (module `Fields`): the five field positions and their limits.
  It holds the circular cursor (`cursor_fwd`, `cursor_back`), wrap-around
  `increment`/`decrement` as functions, the two-digit acceptance rule and
  `prepare`'s year floor.
- `keys.dfy` (module `Keys`): key names grouped into the classes the handler
  tells apart. Keypad digits are `KP_0`..`KP_9`; Return and KP_Return confirm;
  Up/Prior increase; Down/Next decrease; then Left, Right, Escape and every
  other name.
- `format.dfy` (module `Format`): printf's `%d` and `%02d`, with a parser that
  reads the text back.
- `textbuf.dfy` (module `TextBuf`): the 1024-character `buf` and its budget
  `limit`, as a class over a `char` array. `_append` is modelled as written:
  the budget is lowered before the copy, and `strncat` gets the lowered budget.
- `machine.dfy` (module `Machine`): the specification.
  - the state (`values`, `cursor`, `half`, `half_mode`, `rollback`) as a value;
  - `Step`, what one key does;
  - the state invariant;
  - the two rendered lines, both as they should read and as `draw`'s
    sequence of appends leaves them in the buffer;
  - the lemmas relating all of these.
- `etimetool.dfy` (module `EtimeTool`): class `DateTimeEntry`, which holds the
  process-wide variables. `values` is an `array<int>`, and the other variables
  are fields. Each C routine is a method that updates them in place. Each
  method is proved against `Machine`:
  - `HandleKey` leaves `Model()` equal to `Step(old(Model()), Classify(name)).next`;
  - `Draw` returns exactly `DateLine` and `TimeLine`.

A commit is recorded, not performed: `save_and_exit` appends the five values
to `commits`, and `ecore_main_loop_quit` sets `quitRequested`. `prepare` takes
the broken-down local time (`tm_year`, `tm_mon`, `tm_mday`, `tm_hour`,
`tm_min`) as parameters. `draw` returns the two strings it would hand to the
display. The state holds C `int`s: the class invariant keeps every number
within 32-bit range. Under that bound no field's text is longer than 31
characters, so none of `draw`'s appends is ever cut short (`DrawnDateIsExact`,
`DrawnTimeIsExact`). Whatever the values, `draw` never writes past its buffer
(`DrawnLinesFit`).

## Model

| member | source | states |
|---|---|---|
| Fields.NextField | src/etimetool.c:126-132 | cursor_fwd is the successor modulo 5: Minute wraps to Year |
| Fields.PrevField | src/etimetool.c:134-140 | cursor_back is the predecessor modulo 5: Year wraps to Minute |
| Fields.CursorMovesAreInverse | src/etimetool.c:126-140 | cursor_fwd and cursor_back undo each other, and each always moves the cursor |
| Fields.ForwardNIsModular | src/etimetool.c:126-132 | n presses of Right move the cursor to (c + n) mod 5 |
| Fields.BackNIsModular | src/etimetool.c:134-140 | n presses of Left move the cursor to (c - n) mod 5 |
| Fields.FivePressesAreIdentity | src/etimetool.c:126-140 | five presses of either arrow bring the cursor back to where it started |
| Fields.Incremented | src/etimetool.c:172-177 | increment keeps a field that is within its limits within them |
| Fields.Decremented | src/etimetool.c:179-184 | decrement keeps a field that is within its limits within them |
| Fields.IncrementDecrementInverse | src/etimetool.c:172-184 | within the limits, increment and decrement undo each other; increment wraps to the lower limit exactly at the upper limit, and decrement wraps to the upper limit exactly at the lower limit |
| Fields.StepsAreModular | src/etimetool.c:172-184 | increment and decrement are +1 and -1 modulo the field's span, counted from its lower limit |
| Fields.IncrementNIsModular | src/etimetool.c:172-177 | n increments add n modulo the span |
| Fields.DecrementNIsModular | src/etimetool.c:179-184 | n decrements subtract n modulo the span |
| Fields.FullCycleIsIdentity | src/etimetool.c:172-184 | as many Up (or Down) presses as the field has values return it to its starting value |
| Fields.Acceptable | src/etimetool.c:225-226 | the negation of the handler's rejection test; a two-digit value is accepted iff it is within the field's limits and, for Year, at least 9 |
| Fields.SeedYear | src/etimetool.c:197-199 | prepare's year floor: a tm_year below 109 (a year before 2009) gives 0; any other gives tm_year + 1900 - 2000, with no clamp above; the result is never 1..8 |
| Keys.IsKeypadDigit | src/etimetool.c:216 | the `KP_` prefix test, the digit test and the end-of-name test together accept exactly the ten names KP_0 .. KP_9 |
| Keys.DigitCode | src/etimetool.c:218 | the code `k[3] - '0'` of a keypad digit is in 0..9 and the name is `KP_` followed by that digit |
| Keys.Classify | src/etimetool.c:216-218 | a name is a digit iff it is `KP_` plus one decimal digit, and the code is that digit; each other class holds exactly the names the handler compares against (lines 248-267) |
| Keys.ClassifyKeyName | src/etimetool.c:216-267 | every key class is reached by some name |
| Format.Decimal | src/etimetool.c:116-118 | the digits of n: at least one, all decimal, one digit exactly below 10 |
| Format.FormatInt | src/etimetool.c:116 | `%d` prints at least one character, each a sign or a digit, and one digit for 0..9 |
| Format.FormatPadded2 | src/etimetool.c:118 | `%02d` prints at least two characters, and exactly two digits for 0..99 |
| Format.FormatRoundTrip | src/etimetool.c:115-118 | reading back `%d` or `%02d` output gives the printed value |
| TextBuf.AppendedText | src/etimetool.c:99-105 | `_append` leaves the text unchanged when the lowered budget is not positive, and appends the whole piece when the lowered budget is at least its length |
| TextBuf.AppendAddsPrefix | src/etimetool.c:99-105 | `_append` only ever adds a prefix of the piece |
| TextBuf.AppendStaysInBuffer | src/etimetool.c:99-105 | one `_append` keeps the buffer's bound: if the text is shorter than the buffer and the budget does not overstate the room left, both still hold afterwards, so text and NUL always fit |
| TextBuf.AppendCutsFittingPiece | src/etimetool.c:102-104 | because the budget is lowered before `strncat`, a piece that would fit can be cut short: 1014 characters in the buffer and budget 10 turn "abcdef" into "abcd" |
| TextBuf.TextBuffer.constructor | src/etimetool.c:91-92 | an empty buffer with the full budget of 1024 |
| TextBuf.TextBuffer.Reset | src/etimetool.c:145-146 | `limit = 1024; buf[0] = '\0'` empties the text and restores the budget |
| TextBuf.TextBuffer.Append | src/etimetool.c:99-105 | the budget drops by the piece's length and the text becomes `AppendedText` of the old text; the buffer stays NUL-terminated within its bounds |
| Machine.Inv | src/etimetool.c:87-97 | the state invariant the handler keeps: every field within its limits and, in half mode, the field holds its saved value, 0 <= half <= 9 and half*10 fits; it implies every field is in 0..99 |
| Machine.RolledBack | src/etimetool.c:165-170 | reset_input ends half mode and puts the saved value back into the selected field; no other field, the cursor, half and rollback change; under the invariant in half mode the values are already the saved ones |
| Machine.Committed | src/etimetool.c:204-205 | the five values passed to set_clock, in the order year, month, day, hour, minute |
| Machine.Step | src/etimetool.c:209-269 | the handler's reaction to a key class; it keeps five fields (its behaviour is stated by the lemmas below) |
| Machine.Seed | src/etimetool.c:186-200 | prepare sets month to tm_mon + 1 and takes day, hour and minute unchanged; Year is 0 when tm_year is below 109, and tm_year + 1900 - 2000 otherwise |
| Machine.SeedInRange | src/etimetool.c:193-199 | a local time in 2000..2099 within localtime's ranges seeds every field within its limits |
| Machine.SeedYearExamples | src/etimetool.c:197-199 | a 2005 clock seeds Year 0 and a 2015 clock Year 15; a 2100 clock gives 100, above the limit, because there is no clamp |
| Machine.ZeroStateBreaksInvariant | src/etimetool.c:87-97 | the static all-zero initial state breaks the invariant (Month and Day 0 are below their limits), so `prepare` must run before the first key |
| Machine.SeededStateKeepsInvariant | src/etimetool.c:186-200 | any state outside half mode whose values were seeded from a local time from 2000 to 2099 satisfies the invariant |
| Machine.StepKeepsInvariant | src/etimetool.c:209-269 | every key keeps the invariant: all fields within their limits, and in half mode the field holds its saved value, 0 <= half <= 9 and half*10 <= the field's upper limit |
| Machine.FirstDigit | src/etimetool.c:237-241 | outside half mode, a digit with code*10 above the upper limit changes nothing and does not redraw; otherwise it saves the value, enters half mode with that digit, and leaves values and cursor unchanged |
| Machine.SecondDigit | src/etimetool.c:221-234 | in half mode, an acceptable half*10+code is stored and the cursor advances; otherwise the field keeps its value and the cursor stays; half mode ends either way |
| Machine.DigitPair | src/etimetool.c:221-241 | two digits from a settled state either store d1*10+d2 and advance the cursor, or leave values and cursor as they were |
| Machine.NonDigitAbandonsHalfEntry | src/etimetool.c:248-256 | in half mode any non-digit key only ends half mode and restores the saved value: Return commits nothing, the arrows do nothing, and only Escape asks to quit |
| Machine.ConfirmCommits | src/etimetool.c:258-259 | Return outside half mode commits the five current values once, asks to quit, and changes no state |
| Machine.EscapeCancels | src/etimetool.c:248-249 | Escape outside half mode asks to quit, commits nothing, changes nothing and redraws |
| Machine.CommitAndQuitSources | src/etimetool.c:248-268 | a commit happens iff Return arrives outside half mode; a quit is requested iff that happens or the key is Escape; every non-digit key redraws |
| Machine.UnknownKeyRedraws | src/etimetool.c:258-268 | an unknown key outside half mode changes nothing and still redraws |
| Machine.UpDownKeys | src/etimetool.c:260-263 | Up and Down change only the selected field, by +1 or -1 modulo its span; cursor, half mode, half and rollback stay; both redraw |
| Machine.LeftRightKeys | src/etimetool.c:264-268 | Left and Right change only the cursor, by -1 or +1 modulo 5, and redraw |
| Machine.StepKeepsInt32 | src/etimetool.c:209-269 | every key keeps all the state's numbers within C int range |
| Machine.ValueText | src/etimetool.c:115-118 | definition: `%d ` of the pending digit for the selected field in half mode, `%02d` of the value otherwise |
| Machine.ValueTextReadsBack | src/etimetool.c:115-118 | what a field shows reads back as the pending digit (before its trailing space) in half mode, and as the field's value otherwise |
| Machine.DateLine | src/etimetool.c:145-152 | definition of the intended date line: Year, " - ", Month, " - ", Day, " ", each field decorated |
| Machine.TimeLine | src/etimetool.c:155-160 | definition of the intended time line: Hour, " : ", Minute, " " |
| Machine.Decorated | src/etimetool.c:111-121 | definition: "20" before the Year's text, and the `<cursor>` marker around the selected field's text |
| Machine.FieldText | src/etimetool.c:108-122 | definition: the text `_append_value` means to add for a field of a state: its value text, decorated |
| Machine.ValueFill | src/etimetool.c:108-122 | definition of `_append_value` as written: buffer text and budget after its appends, each one through `_append` |
| Machine.MarkedFill | src/etimetool.c:113-121 | definition of the marker and value appends as written: `<cursor>`, the value, `</cursor>` (or the value alone), each through `_append` |
| Machine.PieceFill | src/etimetool.c:147-152 | definition: `_append_value` of a value text, then `_append` of the separator after it |
| Machine.FieldPiece | src/etimetool.c:147-152 | definition: `PieceFill` for field i of a state, with that field's value text |
| Machine.DrawnDate | src/etimetool.c:145-152 | definition of the date line as written: the buffer after the Year, Month and Day pieces from an empty buffer with budget 1024 |
| Machine.DrawnTime | src/etimetool.c:155-160 | definition of the time line as written: the buffer after the Hour and Minute pieces from an empty buffer with budget 1024 |
| Machine.YearTextStartsWithCentury | src/etimetool.c:111-112 | the Year field's text starts with "20", before any marker |
| Machine.DateLineLayout | src/etimetool.c:145-152 | the date line starts with "20" and ends in a space |
| Machine.TimeLineLayout | src/etimetool.c:155-160 | the time line ends in a space |
| Machine.MarkedFillExact | src/etimetool.c:113-121 | with room to spare, the value (and its marker) is appended exactly |
| Machine.ValueFillExact | src/etimetool.c:107-122 | with a budget of at least twice the field's text, `_append_value` adds exactly "20" (Year only), the marker and the value |
| Machine.MarkedFillFits | src/etimetool.c:113-121 | the marker and value appends keep the buffer's bound |
| Machine.PieceFillFits | src/etimetool.c:107-122 | `_append_value` and the separator after it keep the buffer's bound, whatever the field's text |
| Machine.DrawnLinesFit | src/etimetool.c:142-163 | for every state, whatever its values, both lines draw builds stay within the 1024-character buffer |
| Machine.IntTextIsShort | src/etimetool.c:115-118 | a C int prints in at most 11 characters with `%d` and with `%02d`, so the 16-byte `s` never truncates |
| Machine.ValueTextIsShort | src/etimetool.c:110-121 | a field's value text is at most 12 characters, and its decorated text at most 31 |
| Machine.PieceFillExact | src/etimetool.c:147-152 | with room for both, a field's text and the separator after it are appended whole |
| Machine.FieldPieceExact | src/etimetool.c:147-160 | from a budget of at least 68, a field and its separator are appended whole and use at most 34 of the budget |
| Machine.DrawnDateIsExact | src/etimetool.c:145-152 | the date line draw builds is exactly Year " - " Month " - " Day " ", each field decorated: nothing is ever cut short |
| Machine.DrawnTimeIsExact | src/etimetool.c:155-160 | the time line draw builds is exactly Hour " : " Minute " " |
| Machine.SettledFieldShowsTwoDigits | src/etimetool.c:118 | a field not being entered shows as two digits that read back as its value |
| Machine.PaddedExamples | src/etimetool.c:118 | `%02d` prints 15 as "15", 3 as "03" and 7 as "07" |
| Machine.DateLineExample | src/etimetool.c:145-152 | Year 15, Month 3, Day 7 with the cursor on Month render as "2015 - <cursor>03</cursor> - 07 " |
| Machine.HalfModeShowsPendingDigit | src/etimetool.c:111-121 | in half mode the selected field shows the pending digit and a space inside the marker, with "20" before the marker for Year |
| EtimeTool.DateTimeEntry.constructor | src/etimetool.c:87-97 | all values zero, cursor on Year, no half mode, nothing committed, an empty buffer |
| EtimeTool.DateTimeEntry.CursorFwd | src/etimetool.c:126-132 | the cursor becomes NextField of the old cursor; the class invariant is kept |
| EtimeTool.DateTimeEntry.CursorBack | src/etimetool.c:134-140 | the cursor becomes PrevField of the old cursor; the class invariant is kept |
| EtimeTool.DateTimeEntry.Increment | src/etimetool.c:172-177 | only values[cursor] changes, to Incremented of its old value; the class invariant is kept |
| EtimeTool.DateTimeEntry.Decrement | src/etimetool.c:179-184 | only values[cursor] changes, to Decremented of its old value; the class invariant is kept |
| EtimeTool.DateTimeEntry.ResetInput | src/etimetool.c:165-170 | the state becomes RolledBack of the old state: half mode off, the saved value restored; the class invariant is kept |
| EtimeTool.DateTimeEntry.Prepare | src/etimetool.c:186-200 | the values become Seed of the local-time fields; outside half mode, a local time in localtime's ranges from 2000 to 2099 leaves the state satisfying the invariant |
| EtimeTool.DateTimeEntry.SaveAndExit | src/etimetool.c:202-207 | exactly one commit of the current five values is recorded and quit is requested; the class invariant is kept |
| EtimeTool.DateTimeEntry.AppendValue | src/etimetool.c:107-122 | buffer text and budget become ValueFill of the old ones: "20" for Year, then the marker (when selected) around `%d ` of half or `%02d` of the value |
| EtimeTool.DateTimeEntry.AppendMarked | src/etimetool.c:113-121 | the value is appended, wrapped in `<cursor>`/`</cursor>` when the field is selected |
| EtimeTool.DateTimeEntry.AppendFieldThen | src/etimetool.c:147-152 | one `_append_value` followed by `_append` of the separator, as FieldPiece states |
| EtimeTool.DateTimeEntry.DrawDate | src/etimetool.c:145-152 | the emptied buffer ends up holding DrawnDate of the state |
| EtimeTool.DateTimeEntry.DrawTime | src/etimetool.c:155-160 | the emptied buffer ends up holding DrawnTime of the state |
| EtimeTool.DateTimeEntry.Draw | src/etimetool.c:142-163 | the two strings are exactly DateLine and TimeLine of the state |
| EtimeTool.DateTimeEntry.HandleKey | src/etimetool.c:209-269 | the new state is Step's; quit and commits change exactly as Step says; the handler redraws iff Step does, with the two rendered lines; the invariant is preserved |
| EtimeTool.DateTimeEntry.HandleDigit | src/etimetool.c:216-246 | keypad digits follow Step, never quit or commit, and redraw unless the first digit is refused |
| EtimeTool.DateTimeEntry.HandleCommand | src/etimetool.c:248-268 | Escape's quit request, the rollback in half mode, or the dispatch, then a redraw, all as Step says |
| EtimeTool.DateTimeEntry.Dispatch | src/etimetool.c:258-267 | outside half mode, the if-else chain on the key name performs Step's change; only Return commits and quits |

## Left out

- `set_clock` and `rtc_open` (src/etimetool.c:28-85) set the system and RTC clocks through the OS. The model records the five values `save_and_exit` passes, in `commits`. The `if(rtc)` check and the conversion into `struct tm` are left out with them.
- `time` and `localtime` in `prepare` read the clock. Their broken-down fields are parameters of `Prepare`.
- Toolkit wiring is left out: `run`, `main`, the resize, close and exit handlers, `exit_all` and the `gettext` texts. `ecore_main_loop_quit` is recorded as `quitRequested`.
- `edje_object_part_text_set`: `Draw` returns the two strings instead of handing them to the display.
- The `printf` diagnostics in `draw` and in the key handler are left out.
- EtimeTool.DateTimeEntry.Increment: `values[cursor]++` on `INT_MAX` is undefined behaviour in C. The model adds one without bound. This cannot arise while the state invariant holds.
- EtimeTool.DateTimeEntry.Decrement: likewise for `values[cursor]--` on `INT_MIN`.
- EtimeTool.DateTimeEntry.Prepare: the class keeps every number within C `int` range, so it requires the `tm` fields, and `tm_mon + 1`, to be within that range.
- EtimeTool.DateTimeEntry.HandleKey: requires a key name without NUL characters. C reads a name only up to its first NUL, so for NUL-free names its `strcmp`/`strncmp` tests and the whole-string comparisons here give the same classes; embedded NULs are not modelled.
- The `snprintf` into the 16-byte `s` is not a separate step. A C int prints in at most 11 characters (`Machine.IntTextIsShort`), so it never truncates.
- There is no day-in-month or leap-year validation, as in the source: day 31 is accepted in every month.
