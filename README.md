# TydiWin tiling engine in Dafny

TydiWin arranges the visible, resizable top-level windows of the monitor that holds the
focused window into a configured grid. It cycles through rotations of the window order and
then through alternative grids on repeated presses of one hotkey. A second hotkey moves the
focused window to the "next" monitor of a ring. This project models that engine:

- `geometry.dfy` (`Geometry`): the integer rectangle `MyRect` and `intersection_area`.
- `monitors.dfy` (`Monitors`): the `Monitor` class with its mutable `next` pointer, the
  `MyMonitorLayout` ring built by a loop (`MonitorLayout`), and `get_monitor_from_rect` as a
  running-maximum loop (`MonitorFromRect`) specified by the pure `Scan`/`Resolve`.
- `windows.dfy` (`Windows`): the window snapshot `MyWindow`, the facts the window enumerator
  reports, and the commands sent to the window mutator (`set_rect`, `restore`, `maximize`).
  The model records these commands as an effect log instead of carrying them out.
- `layout.dfy` (`Layouts`): `MyWindowLayout` as a class with a handle-to-window map and an
  ordered handle list. It covers the enumeration filter, `add_window`, `__eq__`, `rotate`
  and `tidy`, plus the module-level list `rotate`.
- `move.dfy` (`MonitorMove`): `move_window_to_next_mon`.
- `controller.dfy` (`Controller`): `tidy_monitor` as a class holding the three persisted
  globals, specified by the pure one-step function `Decide`.

Everything the operating system reports is an input: monitors, windows, their titles,
visibility, minimized state, resizability, show state and the foreground window. So is the
layout the host captures again after the commands ran.

The ring is modelled as written. Monitor 0 points to monitor 1, and every other monitor
points to its predecessor. With three or more monitors, `HopsStayOnFirstTwo` shows that
moving along `next` from monitor 0 or 1 never reaches monitor 2 or later.

Some behaviours of the code are worth stating plainly, because the model keeps them:

- A window wider than the destination's working area is pinned to its left edge and
  overhangs on the right; a taller one is pinned to the top and overhangs at the bottom
  (TydiWin.py:349-352). See `WideWindowOverhangs`.
- A configuration error does not leave the state untouched; what has changed before the
  failing lookup depends on the case. `Decide`'s `Abort` carries the counters as the code
  leaves them:
  - equal layout with rotations left: the rotation index has been incremented and the
    order rotated (TydiWin.py:393-395) before the lookup at line 408 fails;
  - equal layout with the rotations used up: the rotation index has been reset to 0
    (line 397) and the lookup at line 401 fails, so the grid index keeps its value (when
    that lookup succeeds the new grid index is in range and line 408 cannot fail);
  - changed layout: both counters have been reset to 0 and the previous layout cleared
    (lines 403-405) before the lookup at line 408 fails.
- The window count is trimmed to the number of configured window counts, `len(GRIDS)`,
  not to the largest configured count (TydiWin.py:386-387).
- `tidy` only asserts that the grid is not `None`, so an empty grid issues no command
  (TydiWin.py:262, 267).

## Model

| member | source | states |
|---|---|---|
| Geometry.IntersectionArea | TydiWin.py:62-67 | an overlap area, when there is one, is never negative |
| Geometry.IntersectionAreaIffSharedPoint | TydiWin.py:62-67 | there is an area (possibly 0) exactly when the two closed rectangles share a point; otherwise the result is `None` |
| Geometry.IntersectionAreaCommutes | TydiWin.py:62-67 | the result does not depend on the order of the two rectangles |
| Geometry.IntersectionAreaOfInside | TydiWin.py:62-67 | a proper rectangle inside another overlaps it, in either argument order, by its own width times height (so a rectangle overlaps itself by its area) |
| Monitors.Monitor.constructor | TydiWin.py:288-295 | a new monitor keeps its bounds and working area and is its own successor |
| Monitors.Monitor.Equals | TydiWin.py:304-307 | a monitor equals itself, and never equals `None` |
| Monitors.MonitorLayout.Primary | TydiWin.py:199-201 | the primary monitor is one of the ring's monitors |
| Monitors.Monitor.SetNext | TydiWin.py:297-298 | the successor becomes the given monitor |
| Monitors.RingNext | TydiWin.py:181-188 | the successor index is a valid monitor; a single monitor is its own successor; with more than one, no monitor is its own successor |
| Monitors.HopsStayOnFirstTwo | TydiWin.py:181-188 | with two or more monitors, following `next` from monitor 0 or 1 any number of times only reaches monitors 0 and 1 |
| Monitors.Score | TydiWin.py:323-324 | the value compared against the running maximum is never negative (an absent overlap counts as 0) |
| Monitors.Resolve | TydiWin.py:312-328 | the resolved index is the primary or a valid monitor index |
| Monitors.Scan | TydiWin.py:316-326 | after scanning the first k monitors the chosen index is the primary or one of those k |
| Monitors.ScanMeaning | TydiWin.py:316-326 | after k monitors: the primary and 0 if none overlaps with positive area; otherwise the earliest monitor whose overlap is strictly largest, with that overlap recorded |
| Monitors.ResolveMeaning | TydiWin.py:312-328 | the resolved monitor is the primary when no working area overlaps with positive area; otherwise it overlaps positively, strictly more than every earlier monitor and at least as much as every later one |
| Monitors.ResolveUniqueOverlap | TydiWin.py:312-328 | a rectangle overlapping exactly one working area with positive area resolves to that monitor wherever it is enumerated |
| Monitors.LastPrimary | TydiWin.py:174-179 | the primary is a monitor flagged primary, and no later monitor is flagged |
| Monitors.MonitorLayout.constructor | TydiWin.py:167-188 | one fresh, distinct monitor per display with its bounds and working area, wired so that monitor i's successor is monitor `RingNext(i, n)`, with the last flagged display as primary |
| Monitors.ChainMonitors | TydiWin.py:174-185 | the enumeration loop creates fresh distinct monitors in display order, each pointing to the one before it and the first to itself, and remembers the last flagged primary |
| Monitors.CloseRing | TydiWin.py:187-188 | after the first monitor is pointed at the second (when there are two or more), every monitor's successor is given by `RingNext` |
| Monitors.MonitorLayout.MonitorFromRect | TydiWin.py:312-328 | the running-maximum loop returns exactly the monitor `Resolve` selects |
| Windows.SameWindow | TydiWin.py:77-78 | two snapshots are the same window exactly when they differ at most in their title |
| Windows.SetRect | TydiWin.py:83-95 | in the command log of `set_rect`, the window is moved exactly once, to the given rectangle, no other window is moved, every command targets that window, and the first command restores it |
| Layouts.Captured | TydiWin.py:216-238 | the enumeration keeps no more windows than it is offered |
| Layouts.Eligible | TydiWin.py:216-236 | an eligible window has a non-empty title, is visible and not minimized, and is attributed to the layout's monitor only if it overlaps that monitor's working area with positive area or that monitor has the primary's working area (the fallback when nothing overlaps) |
| Layouts.CapturedMeaning | TydiWin.py:216-236 | a window is in the layout exactly when some enumerated window with that snapshot is not minimized, is visible, has a title other than "Start", "Program Manager" or "", is resizable, and resolves to a monitor with the layout's working area |
| Layouts.SliceBound | TydiWin.py:207-208 | a Python slice bound always falls within the sequence |
| Layouts.Rotated | TydiWin.py:207-208 | `l[-n:] + l[:-n]` has the length of `l` |
| Layouts.RotatedIsPermutation | TydiWin.py:207-208 | `l[-n:] + l[:-n]` has the same length and the same elements with the same multiplicities as `l`, for every `n` |
| Layouts.RotatedAt | TydiWin.py:207-208 | for a shift n in 0..len, slot i holds the element from slot i - n, counted cyclically |
| Layouts.RotatedByNothing | TydiWin.py:207-208 | shifting by 0 or by the length leaves the list unchanged |
| Layouts.RotationsCoverSlots | TydiWin.py:274-282 | over the shifts 0..n-1 of n distinct handles, each handle lands in each slot for exactly one shift |
| Layouts.Placed | TydiWin.py:270-271 | a grid cell is translated by the working area's top-left corner and keeps its width and height |
| Layouts.PlacementCommands | TydiWin.py:267-272 | `tidy` issues two commands per window placed, for as many windows as both the order and the grid have |
| Layouts.PlacedPrefixAt | TydiWin.py:267-272 | the commands for the first k windows are, for each i < k in order, a restore of window i and a move of window i to cell i |
| Layouts.PlacedPrefixMoves | TydiWin.py:267-272 | with distinct handles, each of the first k windows gets exactly one move, to its own cell, and no other handle gets a move |
| Layouts.TidyMovesEachWindowOnce | TydiWin.py:261-272 | `tidy` moves the i-th window of the order exactly once, to cell i, when i is below the grid length, and not at all otherwise; every command targets one of the first min(grid, count) windows |
| Layouts.SameWindows | TydiWin.py:248-259 | equal layouts hold windows under the same handles |
| Layouts.SameWindowsIffSamePairs | TydiWin.py:248-259 | for layouts that store each window under its handle, layout equality holds exactly when both hold the same set of (handle, rectangle) pairs; it is therefore symmetric and independent of the order |
| Layouts.WindowLayout.WindowCount | TydiWin.py:244-246 | the window count (size of the map) equals the length of the ordered handle list |
| Layouts.WindowLayout.constructor | TydiWin.py:211-238 | the new layout is consistent; its order is the handles of the windows the filter keeps, in enumeration order, each stored under its handle |
| Layouts.WindowLayout.EnumWindow | TydiWin.py:216-236 | the enumeration callback adds the window (stored under its handle, handle appended) exactly when the filter keeps it, leaves the layout unchanged otherwise, and keeps it consistent |
| Layouts.WindowLayout.AddWindow | TydiWin.py:240-242 | the window is stored under its handle and the handle appended to the order; a handle not yet present keeps map and list in step |
| Layouts.WindowLayout.Rotate | TydiWin.py:274-282 | the rotations are used up exactly when the argument equals the window count, and then the order is unchanged; otherwise the order becomes `l[-val:] + l[:-val]`; the map never changes and the layout stays consistent |
| Layouts.WindowLayout.Tidy | TydiWin.py:261-272 | the commands issued are those of `PlacementCommands` for the current order, the grid and the working area |
| MonitorMove.MovedRect | TydiWin.py:343-353 | the new rectangle keeps width and height; it never starts left of or above the destination; it does not pass the destination's right (bottom) edge when it fits in width (height); an offset that already fits is kept unchanged |
| MonitorMove.MovedRectInside | TydiWin.py:347-353 | a window that fits the destination in both directions lands inside it |
| MonitorMove.WideWindowOverhangs | TydiWin.py:349-352 | a window wider than the destination is pinned to its left edge and its right edge lies past the destination's |
| MonitorMove.MoveWindowToNextMonitor | TydiWin.py:330-360 | the window moves from its resolved monitor onto that monitor's ring successor; a maximized window is restored before the move and maximized after it |
| Controller.TrimmedCount | TydiWin.py:384-389 | the count used for the grid lookup is the window count, or the number of configured counts when that is smaller |
| Controller.Select | TydiWin.py:408 | a grid is applied exactly when the trimmed count is configured and the grid index is within its alternatives, and then it is that alternative |
| Controller.Decide | TydiWin.py:376-408 | nothing happens exactly when there is no window, or one window with the foreground window maximized; otherwise a grid is applied exactly when the trimmed count is configured and the new grid index is within its alternatives, and then it is that alternative; a changed layout resets both counters; an equal layout increments the rotation, or on exhaustion resets it and, whenever the trimmed count has a non-empty list of alternatives, applies the grid index advanced modulo their number (whatever the old index was); an error on exhaustion keeps the old grid index |
| Controller.RotationsThenNextGrid | TydiWin.py:392-408 | from rotation 0 of grid g, on an unchanged set of n windows, the k-th further press applies grid g with shift k for every k < n, and the n-th press applies grid g + 1 modulo the alternatives, with rotation 0 and the order unshifted |
| Controller.ChangedLayoutAppliesFirstGrid | TydiWin.py:402-408 | when the window set changed, a configured count applies alternative 0 with rotation 0 and the order unshifted |
| Controller.NextAlternative | TydiWin.py:401 | advancing a valid grid index modulo the alternatives goes to the next one and wraps to 0 after the last |
| Controller.GridsComeRound | TydiWin.py:392-408 | on an unchanged window set, every n presses advance to the next grid alternative, so each alternative comes round in turn and the cycle wraps to alternative 0 |
| Controller.TidyController.constructor | TydiWin.py:16-18 | the controller starts at grid 0, rotation 0, with no previous layout |
| Controller.TidyController.Advance | TydiWin.py:392-405 | on a layout that is not skipped, the counter update leaves the counters, shift and error that `Decide` gives (a lookup error before selection, or else the selection from the new counters), shifts the order by that shift, and clears the previous layout exactly when the window set changed |
| Controller.TidyController.TidyMonitor | TydiWin.py:370-411 | the outcome is `Decide` on the old counters and on whether the previous layout equals the captured one; a skip changes nothing and issues nothing; otherwise the counters become the decision's, the order is shifted by its shift, and either the grid is applied (commands of `PlacementCommands`, previous layout recaptured) or a configuration error leaves no commands |

## Left out

- The win32 calls (`EnumWindows`, `EnumDisplayMonitors`, `GetMonitorInfo`, `GetWindowRect`, `GetWindowLong`, `GetWindowPlacement`, `GetForegroundWindow`, `MoveWindow`, `ShowWindow`) are foreign OS calls. What they report is an input. What they do is an `Effect` in the returned log.
- `ClientToScreen` (`screen_rect`) is captured by the source but never used by the engine.
- `load_configuration_module` executes a user file as code and re-registers hotkeys. The grid configuration is a `Grids` map parameter instead.
- `get_current_window`, `MyMonitorLayout.current_monitor` and `move_to_next_monitor` only fetch the foreground window or reload the configuration. The host passes that window in; the monitor it resolves to is `MonitorFromRect`. `Monitor.window_layout` builds a fresh `MyWindowLayout` for the monitor (TydiWin.py:300-302), which is the `WindowLayout` constructor; the host calls it and passes the layout in, both for the press and for the recapture after the commands.
- The tray icon, autorun toggling, `open_settings`, the single-instance check, logging, `__repr__` methods and setup.py are process and UI plumbing.
- The `WindowState` mapping from show commands is taken as the input enum `Placement`.
- Monitors.MonitorLayout.constructor: requires at least one display flagged primary. The operating system always reports one; without one the source fails with an `AttributeError` when `primary` is read.
- Layouts.WindowLayout.constructor: requires the enumerator to report each handle once, as `EnumWindows` does. `AddWindow` itself models a repeated handle as the source does.
- Layouts.WindowLayout.Rotate and Layouts.WindowLayout.Tidy: require a non-empty layout, which the source asserts.
- Controller.TidyController.TidyMonitor: keeps the window map of the previous layout, the only part layout equality reads, rather than the layout object. A configuration error is returned as `Abort` rather than raised.
- The layout captured after the commands is an input. The model does not simulate the operating system carrying out the moves. A command for a window that has closed in the meantime is not modelled.
- Grid cells of the wrong length are not modelled, and neither are non-integer entries, which the source truncates with `int()` when it builds the rectangle (TydiWin.py:47-50). `Placed` takes a cell of four integers.
