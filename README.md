# Session picker of the ukui greeter, in Dafny

This project models the session-selection window of the ukui login greeter
(`greeter/sessionwindow.cpp`). The window shows one row per desktop session
from a session model. Each row has a badge icon and the session's display name.
The default session's row gets a " (Default)" suffix. The keyboard moves the
highlight through the rows and wraps at both ends. Escape, Return, a click on a
row, or a left-button release on the back arrow commits the choice: the window
emits `sessionSelected(key)` with the current row's stable key, then `back()`.

Modules:

- `Sessions` (`sessions.dfy`): the value-level rules. It holds the session
  entries (name and key), the emitted events, wrap-around navigation
  (`NextRow`, `PrevRow`, and `Forward`/`Backward` for k presses), the key scan
  of `setSession` (`LastIndexOf`, `ScanResult`) and the row labels (`MakeLabel`,
  `Labels`).
- `Icons` (`icons.dfy`): the badge path built from a session name, with ASCII
  lower-casing.
- `Layout` (`layout.dfy`): the list height and the window height.
- `Window` (`window.dfy`): class `SessionWindow`, the window's mutable state.
  It has the entries, the list items (`labels`), the current row (`-1` means the
  list has no current row), the back arrow's pressed visual, the log of emitted
  signals and the two heights. Its methods follow the source's member functions;
  `ItemClicked` stands for the `itemClicked` to `saveAndBack` connection, and the
  constructor also takes the image directory and the local sessions, which the
  source reads from a header and a session model. `Valid()` ties the items and heights to the entries. Two client
  methods, `TwoSessionWrap` and `TwoSessionCommit`, walk through a GNOME/KDE
  example. They show what a caller can conclude from the contracts alone.

Points of the code worth knowing:

- `setSession`'s loop at `greeter/sessionwindow.cpp:172-177` never breaks, so
  the LAST row with the key wins.
- A freshly built list has no current row (`row == -1`), so "some row is always
  highlighted" does not hold after a rebuild. Tab or Down then highlights row 0.
- For zero sessions the list's height is 40·0 + 20·(0−1) = −20. `ListHeight`
  states the formula as written.

## Model

| member | source | states |
|---|---|---|
| `Sessions.NextRow` | greeter/sessionwindow.cpp:145-150 | Down (and Tab) lands on a row in [0, n); the last row goes to 0, and with no current row (−1) row 0 becomes current |
| `Sessions.PrevRow` | greeter/sessionwindow.cpp:139-144 | Up from a row in [0, n) lands on a row in [0, n); row 0 goes to n − 1 |
| `Sessions.NavigationIsModular` | greeter/sessionwindow.cpp:133-150 | Tab/Down gives (row + 1) mod n and Up gives (row − 1 + n) mod n |
| `Sessions.NavigationInverse` | greeter/sessionwindow.cpp:139-150 | Up after Down, and Down after Up, return to the starting row |
| `Sessions.Forward` | greeter/sessionwindow.cpp:145-150 | any number of Down presses keeps the row in [0, n) |
| `Sessions.Backward` | greeter/sessionwindow.cpp:139-144 | any number of Up presses keeps the row in [0, n) |
| `Sessions.ForwardIsShift` | greeter/sessionwindow.cpp:145-150 | k Down presses move the row to (row + k) mod n |
| `Sessions.BackwardIsShift` | greeter/sessionwindow.cpp:139-144 | k Up presses move the row to (row − k) mod n |
| `Sessions.ForwardFullCycle` | greeter/sessionwindow.cpp:133-138 | n presses of Tab/Down return to the starting row |
| `Sessions.BackwardFullCycle` | greeter/sessionwindow.cpp:139-144 | n presses of Up return to the starting row |
| `Sessions.BackwardUndoesForward` | greeter/sessionwindow.cpp:139-150 | k Up presses undo k Down presses |
| `Sessions.LastIndexOf` | greeter/sessionwindow.cpp:170-178 | the scan finds nothing exactly when no key matches; otherwise it finds a matching row and no later row matches |
| `Sessions.ScanResult` | greeter/sessionwindow.cpp:170-178 | the row after the scan stays in [−1, n) when it started there: the last match, or the old row |
| `Sessions.ScanResultStep` | greeter/sessionwindow.cpp:172-177 | one loop iteration: a match at row i sets the row to i, a miss keeps it |
| `Sessions.LastIndexOfSnoc` | greeter/sessionwindow.cpp:172-177 | a match in a later row overrides every earlier match |
| `Sessions.LastIndexOfDistinct` | greeter/sessionwindow.cpp:170-178 | with distinct keys the scan lands on the one row carrying the key |
| `Sessions.LabelsStep` | greeter/sessionwindow.cpp:91-103 | each iteration appends the label of row i to the labels of the rows before it |
| `Sessions.LabelText` | greeter/sessionwindow.cpp:94-99 | a label starts with the name; it carries the " (Default)" suffix exactly when its key is the default key and is the bare name otherwise; its icon is the name's badge |
| `Sessions.DefaultMarkedOnce` | greeter/sessionwindow.cpp:89-104 | in the built list, row i is marked exactly when its key is the default; with distinct keys at most one row is marked; some row is marked exactly when some key is the default |
| `Icons.LowerChar` | greeter/sessionwindow.cpp:183 | upper-case ASCII letters map to lower case, every other character to itself, and no upper-case letter comes out |
| `Icons.Lower` | greeter/sessionwindow.cpp:183 | lower-casing keeps the length and lower-cases each character in place |
| `Icons.LowerIdempotent` | greeter/sessionwindow.cpp:183 | lower-casing twice is lower-casing once |
| `Icons.SessionIconCaseInsensitive` | greeter/sessionwindow.cpp:180-184 | two names get the same badge path exactly when they differ only in letter case (both directions) |
| `Icons.SessionIconOfLower` | greeter/sessionwindow.cpp:180-184 | a name and its lower-cased form share a badge path |
| `Layout.ListHeight` | greeter/sessionwindow.cpp:83 | the list height 40·n + 20·(n − 1) equals 60·n − 20 (40 per item plus 20 per item after the first) |
| `Layout.WindowHeight` | greeter/sessionwindow.cpp:56-58 | the window height 55 + 40·n + 20·(n − 1) equals 60·n + 35, which is the list's top offset 55 plus the list height |
| `Window.SessionWindow.constructor` | greeter/sessionwindow.cpp:43-50 | the window starts over the local sessions with the given default key, no current row, the normal back arrow and no events |
| `Window.SessionWindow.InitUI` | greeter/sessionwindow.cpp:52-87 | rebuilding sizes the window for the entries, gives a list with no current row and one item per entry, resets the back arrow and emits nothing |
| `Window.SessionWindow.AddSessionLabels` | greeter/sessionwindow.cpp:89-104 | filling the empty list leaves exactly one item per model row, in model order, each its row's label |
| `Window.SessionWindow.SaveAndBack` | greeter/sessionwindow.cpp:153-159 | appends exactly `sessionSelected(key of current row)` then `back()` to the event log, changing nothing else |
| `Window.SessionWindow.KeyReleaseEvent` | greeter/sessionwindow.cpp:129-151 | Escape and Return append the commit pair and keep the row; Tab and Down set the row to `NextRow`, also from no current row; Up sets it to `PrevRow`; other keys change nothing |
| `Window.SessionWindow.EventFilter` | greeter/sessionwindow.cpp:106-127 | on the back label a left press sets the pressed visual and emits nothing; a left release restores the normal visual and appends the commit pair; both are consumed; anything else is not consumed and changes nothing |
| `Window.SessionWindow.ItemClicked` | greeter/sessionwindow.cpp:84 | a click on row i makes i current and appends the commit pair for row i |
| `Window.SessionWindow.SetSessionModel` | greeter/sessionwindow.cpp:161-168 | a null model changes nothing; a model replaces the entries and rebuilds labels and heights from the new rows, leaving no current row |
| `Window.SessionWindow.SetSession` | greeter/sessionwindow.cpp:170-178 | the row becomes the last row whose key matches, or stays as it was when none does |

## Left out

- Qt widget construction, palettes, style sheets, fonts, pixmaps and SVG loading are toolkit presentation. The back arrow's two pixmaps are modelled as the `backPressed` flag. Geometry is modelled only as the two height formulas; the fixed width of 550 and the positions of the prompt and back label are left out.
- The prompt text "select the desktop environment" and the translation done by `tr`. The " (Default)" suffix is the untranslated string.
- The session model (`QLightDM::SessionsModel` or any `QAbstractItemModel`) is a plain sequence of (name, key) pairs read once per rebuild. A model whose row count changes between reads is not modelled.
- `IMAGE_DIR` is defined in `globalv.h`, which is not part of this model. It is the `imageDir` constant of the window, given at construction.
- Icons.Lower: lower-cases ASCII letters only, because `QString::toLower` applies full Unicode case mapping, which is not modelled.
- `QString::arg` substitution is modelled as concatenation: the single `%1` marker is replaced once and the inserted text is not scanned again.
- Three cases reach an out-of-range row, and what happens then is the toolkit's behaviour: Up with no current row calls `setCurrentRow(-2)`; Tab or Down with no sessions calls `setCurrentRow(0)` on an empty list; a commit with no current row asks the model for `index(-1, 0)`.
- Window.SessionWindow.KeyReleaseEvent: requires a current row for Escape, Return and Up, and at least one session for Tab and Down, for the reason above.
- Window.SessionWindow.EventFilter: requires a current row for the left-button release on the back label, for the reason above.
- Window.SessionWindow.SaveAndBack: requires a current row, for the reason above.
- Window.SessionWindow.AddSessionLabels: requires an empty list, because `initUI` calls it only right after creating a new list. Qt's insertion past the end of a non-empty list is not modelled.
- Window.SessionWindow.ItemClicked: assumes the list makes the pressed item current before `itemClicked` fires. That is toolkit behaviour, not code in this file.
- `initUI` creates new widgets without deleting the old ones. Memory and ownership are not modelled; the new list replaces the old one.
- Heights use unbounded integers. The source's `int` arithmetic overflows only beyond about 35 million sessions.
- `testAddSessionLabels` is dead test code: its only call is commented out.
- The credential field (`greeter/iconedit.h`) has declarations only, with no bodies to model. Its caps-lock state comes from an external keyboard monitor.
- Other events that `eventFilter` passes on are handed to the base class, which returns false. The model returns `false` for them.
