# Task list table, modelled in Dafny

`Main.java` is a Swing to-do list. Its one piece of logic is the table behind
the view (`tableModel`): an ordered list of rows with the columns Task, Status
and Time. Five event handlers change it: `addTask` runs from the Add button or
from Enter in either text field; `deleteTask`, `completeTask` and
`deleteCompletedTasks` run from one button each; `editTask` runs on a
double-click on a row. A cell renderer (`TimeCellRenderer`) colours the Time
cell from the text in the second view column (the Status column while the
columns keep their initial order), the row's due time and the current local
date-time.

The model keeps the table as an immutable `seq<Row>` whose cells are the
strings the program writes: the status is "Incomplete" or "Complete", and the
time is the sentinel "No time set" or the trimmed date-time text the user
typed. Each handler is a pure function from the table before the event to the
table after it. The selected row (`-1` for none), the text fields, the
time toggle and the answers of the input dialogs (`None` for a cancelled dialog)
are parameters.

Parsing `yyyy-MM-dd HH:mm` is the job of `LocalDateTime.parse`. The model
passes it in as a parameter `parse: string -> Option<Stamp>`, and
`isValidDateTime` becomes `parse(s).Some?` (`DateTime.ValidDateTime`). The
renderer uses the same parser. A `Stamp` is a position on the local date-time
time line, so `isBefore` is `<`. The current time `LocalDateTime.now()` is also
a parameter. `String.trim` is modelled as it is defined: it strips every
character whose code is at most U+0020 from both ends.

Files:
- `options.dfy`: `Option`, used for dialog answers and for parse results.
- `text.dfy`: `Trim` and the predicates `IsBlank` and `IsTrimmed`.
- `datetime.dfy`: `Stamp`, `Parser` and `ValidDateTime`.
- `tasktable.dfy`: rows, the row invariant, the handlers, and the lemmas relating them (module `TaskTableLemmas`).
- `timecolour.dfy`: the colour decision of `TimeCellRenderer`.

Two points about how the code behaves, which the model follows:
- `editTask` shows no error when the description answer is blank or cancelled (Main.java:269), and it never asks for a time when the row has none (Main.java:275). In both cases it keeps the old value.
- `JTable.getSelectedRow` returns `-1` or a valid row, so a selection past the end of the table cannot reach the handlers. The handlers therefore require `sel < |rows|`, treat any negative index as "no selection", and have no index error.

## Model

| member | source | states |
|---|---|---|
| DateTime.ValidDateTime | Main.java:225-232 | definition with no contract of its own: `isValidDateTime` is `parse(text).Some?` for the parser parameter; `TimeColour.BlackIffInvalid` relates it to the renderer |
| Text.TrimLeading | Main.java:200 | the result is the longest suffix that does not start with a character at most U+0020; everything dropped is such a character |
| Text.TrimTrailing | Main.java:200 | the result is the longest prefix that does not end with a character at most U+0020; everything dropped is such a character |
| Text.Trim | Main.java:200-201 | `String.trim`: the result has no strippable character at either end; it is empty exactly when the input is blank; a string already trimmed is returned unchanged |
| Text.TrimCut | Main.java:200-201 | what `trim` keeps is one contiguous piece of the input, with only blank text cut off on both sides |
| Text.TrimLeadingBlank | Main.java:200 | stripping the front leaves blank text only when the input was blank, and then it leaves nothing |
| Text.TrimIdempotent | Main.java:200-201 | trimming twice is the same as trimming once |
| TaskTable.NewRow | Main.java:199-223 | a row is produced exactly when the trimmed description is non-empty and, with the toggle on, the trimmed time text parses; the row is (trimmed description, "Incomplete", trimmed time text or "No time set") |
| TaskTable.AddTask | Main.java:199-223 | an empty trimmed description, or a time text that does not parse while the toggle is on, leaves the table unchanged; otherwise exactly one row is appended at the end and every earlier row is unchanged |
| TaskTable.DeleteTask | Main.java:234-242 | with a row selected it is removed: earlier rows keep their places and later rows move up one; with no selection the table is unchanged |
| TaskTable.CompleteTask | Main.java:244-253 | only the selected row's status changes, to "Complete"; its description and time and every other row are unchanged; with no selection nothing changes |
| TaskTable.Unfinished | Main.java:255-262 | the filter keeps no "Complete" row and never grows the table |
| TaskTable.UnfinishedMembers | Main.java:255-262 | a row is in the filtered table exactly when it is in the table and is not complete |
| TaskTable.UnfinishedAppend | Main.java:255-262 | the filter of a concatenation is the concatenation of the filters, so kept rows stay in their original order |
| TaskTable.UnfinishedCount | Main.java:255-262 | the filter removes exactly as many rows as are complete |
| TaskTable.DeleteCompletedTasks | Main.java:255-262 | the backward loop ends with the rows that are not complete, in their original order; its invariant is "the rows not yet visited, then the filter of the visited ones" |
| TaskTable.EditDescription | Main.java:267-272 | the Task cell becomes the trimmed answer when the dialog returned non-blank text, and keeps its old text otherwise |
| TaskTable.EditTime | Main.java:274-286 | "No time set" is kept; any other time changes only to a non-blank trimmed answer that parses, and it does change to such an answer |
| TaskTable.EditTask | Main.java:264-288 | the row count and every status are unchanged, other rows are untouched, and the description and time edits of the selected row are made independently of each other |
| TaskTableLemmas.EmptyTableOk | Main.java:50 | the empty table the program starts with satisfies the row invariant |
| TaskTableLemmas.AddTaskPreservesInvariant | Main.java:204-216 | adding keeps every row's description non-empty and trimmed, its status "Incomplete" or "Complete", and its time "No time set" or parseable |
| TaskTableLemmas.DeleteUndoesAdd | Main.java:208-237 | deleting the row just added gives back the table from before the addition |
| TaskTableLemmas.DeleteTaskPreservesInvariant | Main.java:234-242 | deleting keeps the row invariant |
| TaskTableLemmas.DeleteTwiceAtSamePosition | Main.java:235-237 | rows are addressed by position: deleting at the same index twice removes two neighbouring rows |
| TaskTableLemmas.CompleteTaskPreservesInvariant | Main.java:244-253 | completing keeps the row invariant |
| TaskTableLemmas.CompleteTaskIdempotent | Main.java:244-253 | completing the same row twice is the same as completing it once |
| TaskTableLemmas.CompletionIsPermanent | Main.java:244-288 | adding, completing and editing never turn a complete row back to incomplete |
| TaskTableLemmas.CompleteThenPurge | Main.java:247-258 | completing row `i` and then deleting completed rows removes row `i` together with the rows that were complete already |
| TaskTableLemmas.DeleteCompletedPreservesInvariant | Main.java:255-262 | deleting the completed rows keeps the row invariant |
| TaskTableLemmas.UnfinishedIdempotent | Main.java:255-262 | deleting the completed rows a second time removes nothing more |
| TaskTableLemmas.EditTaskPreservesInvariant | Main.java:264-288 | editing keeps the row invariant |
| TaskTableLemmas.EditNeverAddsTime | Main.java:274-275 | a row without a due time never gains one through editing |
| TimeColour.TimeForeground | Main.java:300-322 | complete rows and rows with "No time set" are gray; otherwise a parseable time is green exactly when `now` is strictly before it and red exactly when it is not; text that does not parse is black |
| TimeColour.DueInstantIsRed | Main.java:311-315 | the due date-time itself already counts as overdue (red) |
| TimeColour.OverdueStaysOverdue | Main.java:311-315 | a red cell stays red at any later local date-time |
| TimeColour.UpcomingTurnsOverdue | Main.java:311-315 | a green cell is red at any local date-time at or after its due time, with no change to the table |
| TimeColour.NoBlackInWellFormedTable | Main.java:306-318 | the black fallback never applies to a table that satisfies the row invariant |
| TimeColour.CompletedRowIsGray | Main.java:247-304 | after `completeTask` the selected row's time is drawn gray (Status column in its initial place) |
| TimeColour.BlackIffInvalid | Main.java:225-232 | an incomplete row with a due time is drawn black exactly when its Time text fails `isValidDateTime`: validation and rendering parse with the same pattern |

## Left out

- Window construction, layout, fonts, header colours and listener wiring (Main.java:26-197): presentation only.
- The mouse handlers that clear the selection (Main.java:176-192): the selection is a parameter instead.
- The `JOptionPane` dialogs: their answers are `Option<string>` parameters, and error dialogs are not modelled. A rejected input shows up as an unchanged table.
- Status-bar messages and `FadingLabel` (Main.java:431-488): UI output, float alpha values and Swing timers.
- Clearing the text fields after a successful add (Main.java:209-210, 217): only the table is modelled, not the input widgets.
- `DateTimePickerDialog` and `showDateTimePicker` (Main.java:373-428): these depend on `JSpinner`, `java.util.Date` and the system time zone. The picker only fills the time field, and that field is a parameter of `AddTask`.
- The periodic repaint timer (Main.java:195-196): it only re-runs the renderer, and `TimeForeground` takes the current local date-time as a parameter.
- The signature link (Main.java:75-83): it opens a browser.
- `StatusCellRenderer` and the alternating row backgrounds (Main.java:324-333, 340-371): cosmetic.
- The internals of `LocalDateTime.parse` and `LocalDateTime.now()`: library calls. The parser and the current local date-time are parameters, so no calendar facts (month lengths, day clamping) are claimed.
- Calendar validity of a date-time text: `LocalDateTime.parse` with a pattern uses the default SMART resolver, which accepts days 29–31 in any month and clamps them to the month's last day, so Feb 30 is not rejected. The model keeps the parser abstract and claims nothing about which dates it accepts.
- `DefaultTableModel` cells are editable by default, so the JTable's built-in cell editor can write any text into a cell. The row invariant covers only the handlers modelled here.
- TimeColour.TimeForeground: reads the status from the row's Status cell. The renderer reads `table.getValueAt(row, 1)` (Main.java:301), which is view column 1, and JTable lets the user drag the column headers into a new order. The model assumes the columns keep their initial order. After a reorder the source compares another column's text with "Complete". For example, with Time dragged to position 1, a complete row with a future time is drawn green.
- TimeColour.CompletedRowIsGray: assumes, like `TimeForeground`, that the Status column is still in view position 1. After a reorder the source need not draw a completed row's time gray.
- Elapsed time: `LocalDateTime.now()` reads the wall clock in the system zone, and that clock can move backward (the end of daylight saving time, a manual reset). `TimeColour.OverdueStaysOverdue` and `TimeColour.UpcomingTurnsOverdue` speak of later local date-times, not of later moments in real time.
