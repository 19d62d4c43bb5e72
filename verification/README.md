# Wheel of Names — a Dafny model of the spin engine and the list editor

The wheel of names draws one slice per name on a disc and spins it. When the
spin stops, one name wins. This project models two pure-logic parts of it:

- the **spin engine** of `src/Wheel.tsx`. It covers the guard that starts a
  spin and the randomised target angle. It covers the cubic ease-out frame
  update, the winner formula and remove-after-win. It also covers the slice
  layout of `drawWheel` and the text transforms of import and export.
- the **list editor** of `src/NameEntries.tsx`. It covers adding a name,
  removing by position, and removing every copy of a name through the
  confirmation dialog. It also covers sorting in alternating directions and
  clearing the list. Nothing in the component calls `removeName`, the
  removal by position: the row buttons go through the dialog instead.
  `NameEntries.RemoveName` models that handler as written.

Modules:

| file | module | contents |
|---|---|---|
| `wrappers.dfy` | `Wrappers` | `Option`, for the nullable state slots |
| `sequences.dfy` | `Sequences` | the two `filter` shapes (`RemoveAt`, `RemoveAll`), a stable sort |
| `text.dfy` | `Text` | ECMAScript whitespace, `trim`, `split("\n")`, `join("\n")` |
| `geometry.dfy` | `WheelGeometry` | the full turn `T`, JavaScript `%`, slices, the winner formula |
| `spin.dfy` | `Spin` | the wheel state, `spinWheel`, one animation frame, event runs |
| `transfer.dfy` | `NameTransfer` | `importNames` / `exportNames` as text transforms |
| `name_entries.dfy` | `NameEntries` | the editor state and its handlers |

How the model is set up:

- Angles are `real` radians. The full turn `2 * Math.PI` is the abstract
  positive constant `WheelGeometry.T`.
- `Math.random()` is the parameter `r` of `Spin.SpinWheel`, with `0 <= r < 1`.
- One animation frame is one call of `Spin.Animate`. Its parameter is the
  time elapsed since the spin started.
- The `animate` closure captures the state of the render in which
  `spinWheel` ran. So `Spin.Session` keeps the start angle, the target, the
  names and the remove-after-win flag of that moment. When the spin ends,
  remove-after-win filters the captured names. Edits made during the spin
  are therefore overwritten. Without remove-after-win, the current names stay.
- The angle is never normalised. The next spin starts from the raw final
  angle of the last one.
- Progress is clamped from above only (`Math.min(elapsed / duration, 1)`).
  So a frame whose timestamp comes before the spin's start turns the disc
  slightly backwards. The model allows a negative elapsed time and says so
  in `Spin.FrameAngle`.
- JavaScript's `%` is modelled for angles of both signs
  (`WheelGeometry.JsRem`), and the winner formula for any angle. This is a
  generalisation: the formula only runs on the last frame, whose angle is the
  target, at least 10π, so no reachable winner computation uses a negative
  angle.
- The winner formula picks the slice that lies at canvas angle 0, the 3
  o'clock direction. The red pointer is drawn at the top of the canvas
  instead. The contracts state agreement with canvas angle 0, because that
  is what the formula computes.
- The code never normalises the angle, adds no pointer offset to the winner
  formula, and has no drag or idle rotation. The model has none of these
  either.
- `localeCompare` is an abstract comparator `compare`. It is required to be
  a total preorder, as `localeCompare` is for a fixed locale.

## Model

| member | source | states |
|---|---|---|
| `WheelGeometry.JsRem` | src/Wheel.tsx:122 | `a % (2 * Math.PI)` lies strictly between `-T` and `T`. It equals the Euclidean remainder for a non-negative angle, and the negated remainder of `-a` for a negative angle |
| `WheelGeometry.Arc` | src/Wheel.tsx:23 | the arc is positive, and `n` arcs make exactly one full turn |
| `WheelGeometry.SliceFor` | src/Wheel.tsx:31-35 | slice `i` is one arc `T / n` wide, and for an index below `n` it lies inside `[0, T]` |
| `WheelGeometry.Layout` | src/Wheel.tsx:30-35 | the `n` slices start at 0 and end at `T`. Each one ends where the next begins, and all have width `T / n` |
| `WheelGeometry.SliceAt` | src/Wheel.tsx:31-35 | every angle in `[0, T)` lies in some slice with an index below `n` (the slices cover the disc) |
| `WheelGeometry.SlicesDisjoint` | src/Wheel.tsx:31-35 | no angle lies in two different slices |
| `WheelGeometry.LayoutCovers` | src/Wheel.tsx:30-35 | an angle in `[0, T)` lies in slice `i` if and only if `i` is the one slice `SliceAt` names |
| `WheelGeometry.LabelAngle` | src/Wheel.tsx:40 | the label angle of slice `i`, start plus half an arc, lies inside slice `i` and inside `[0, T)` |
| `WheelGeometry.WinnerIndex` | src/Wheel.tsx:119-123 | for any angle of either sign and `n >= 1`, the winner index is below `n`. It is the slice that holds the disc angle `(-a) mod T` shown at canvas angle 0 |
| `WheelGeometry.WinnerIsUniqueSlice` | src/Wheel.tsx:119-123 | slice `i` holds the disc angle at canvas angle 0 if and only if `i` is the winner |
| `WheelGeometry.WinnerFullTurns` | src/Wheel.tsx:122 | adding any whole number of turns to the final angle leaves the winner unchanged |
| `WheelGeometry.LabelWins` | src/Wheel.tsx:119-123 | a disc resting with the label of slice `i` at canvas angle 0 makes `i` the winner |
| `WheelGeometry.ModOfShift` | src/Wheel.tsx:122 | the remainder is the unique value in `[0, T)` that differs from the angle by whole turns |
| `WheelGeometry.ModMirror` | src/Wheel.tsx:122 | reflecting an angle reflects its remainder: `(-a) mod T` is `T - (a mod T)`, or 0 when `a mod T` is 0 |
| `Spin.Initial` | src/Wheel.tsx:14-19 | the mounted wheel is at rest at angle 0 with remove-after-win on and dark mode off, and satisfies the state invariant |
| `Spin.TargetAngle` | src/Wheel.tsx:100 | for a random draw in `[0, 1)`, the target is at least 5 and less than 6 turns (10π to 12π) past the current angle |
| `Spin.SpinWheel` | src/Wheel.tsx:92-100 | a click while spinning or with fewer than 2 names changes nothing: no session, no angle change, no winner. Otherwise a session starts from the current angle with a target 5 to 6 turns ahead, and it captures the current names and setting. Names, angle and settings stay unchanged, and the invariant is kept |
| `Spin.Progress` | src/Wheel.tsx:105-106 | before the duration has passed, progress is the elapsed fraction `elapsed / 5000` of it. It is at most 1, exactly 1 if and only if the duration has passed, and negative only for a negative elapsed time |
| `Spin.Eased` | src/Wheel.tsx:107 | the eased progress stays in `[0, 1]` for progress in `[0, 1]`. It reaches 1 only at progress 1, and is negative for negative progress |
| `Spin.EasedMonotone` | src/Wheel.tsx:105-107 | eased progress never decreases as the elapsed time grows |
| `Spin.EaseOutAhead` | src/Wheel.tsx:107 | eased progress is never behind linear progress on `[0, 1]` and strictly ahead of it inside `(0, 1)`, so the ease-out is not linear |
| `Spin.EaseOutDecelerates` | src/Wheel.tsx:107 | the same step of progress gains no more eased progress later than earlier, and strictly less for a non-zero step taken strictly later |
| `Spin.FrameAngle` | src/Wheel.tsx:105-108 | for a non-negative elapsed time, the frame angle lies between the start and the target. It equals the target exactly when the duration has passed. It falls behind the start for a negative elapsed time. While the spin runs, the disc is strictly ahead of where turning at constant speed would have brought it: the disc starts fast |
| `Spin.FrameDecelerates` | src/Wheel.tsx:105-108 | the disc slows down towards the target: within the duration, the same span of time turns it no less earlier than later, and strictly less for a non-empty span started strictly later |
| `Spin.FrameAngleMonotone` | src/Wheel.tsx:104-110 | during a spin the disc never turns backwards as time passes |
| `Spin.Animate` | src/Wheel.tsx:104-132 | without a spin, a frame changes nothing. During a spin the new angle is the eased interpolation `FrameAngle` of the elapsed time, so `FrameAngleMonotone` applies to the frames the wheel passes through. Before the duration has passed, a frame moves only the angle and announces nothing. After it, the angle is exactly the target and spinning stops. The winner is a valid index of the captured names whose slice holds the disc angle at canvas angle 0. With remove-after-win, exactly that position is dropped from the captured names. Otherwise the current names stay |
| `Spin.EveryIndexCanWin` | src/Wheel.tsx:100-123 | from any resting state with at least two names, every index has some random draw in `[0, 1)` that makes it the winner |
| `Spin.NextSpinStartsWhereLastEnded` | src/Wheel.tsx:100-110 | the next spin starts from the raw final angle of the last one. The angle is not normalised and grows by at least 5 turns per spin |
| `Spin.SetNames` | src/Wheel.tsx:4-7 | replacing the names from outside leaves the running session, the angle and the settings alone |
| `Spin.ToggleRemoveAfterWin` | src/Wheel.tsx:196-201 | the button flips only the remove-after-win flag. A running spin keeps the value it captured |
| `Spin.Step` | src/Wheel.tsx:92-136 | every event keeps the state invariant. A click the guard accepts starts a spin. Only a frame that ends a running spin announces a winner. Every other event leaves the spinning flag as it was |
| `Spin.Run` | src/Wheel.tsx:92-136 | a run of events keeps the invariant. Winners announced plus a spin still running equal the clicks the guard accepted plus a spin running at the start. So each accepted click yields exactly one winner, or is the spin still running |
| `Sequences.RemoveAt` | src/Wheel.tsx:129 | filtering out position `i` gives `s[..i] + s[i+1..]` for an index in range, and `s` unchanged for any other index |
| `Sequences.RemoveAll` | src/NameEntries.tsx:93 | filtering out a value removes every copy of it. Every other value keeps its count, and the survivors keep their order |
| `Sequences.SortBy` | src/NameEntries.tsx:165-167 | sorting keeps the same multiset of names, ordered under the given total preorder |
| `Text.Trim` | src/Wheel.tsx:146 | `trim` returns a slice of the line with only whitespace around it and none at either end. It is empty exactly when the line is blank |
| `Text.TrimOfTrimmed` | src/Wheel.tsx:146 | a string with no whitespace at either end is its own trim |
| `Text.TrimIdempotent` | src/Wheel.tsx:146 | trimming twice is the same as trimming once |
| `Text.Split` | src/Wheel.tsx:145 | `split("\n")` yields at least one piece, and no piece holds a line feed |
| `Text.JoinShape` | src/Wheel.tsx:154 | `join("\n")` of no pieces is empty. The text starts with the first piece, and for pieces free of line feeds it holds exactly one line feed fewer than there are pieces |
| `Text.JoinSplit` | src/Wheel.tsx:145-154 | joining the pieces of a split with line feeds gives back the original text |
| `Text.SplitJoin` | src/Wheel.tsx:145-154 | splitting the join of a non-empty list of line-feed-free pieces gives back the pieces |
| `NameTransfer.CleanLines` | src/Wheel.tsx:146-147 | the trimmed, non-blank lines are non-empty and trimmed, and there are no more of them than lines |
| `NameTransfer.TrimEach` | src/Wheel.tsx:146 | `.map((l) => l.trim())` keeps the length, and each entry is the trim of the piece at the same position |
| `NameTransfer.CleanLinesIsFilter` | src/Wheel.tsx:146-147 | the clean lines are exactly the trimmed lines with every `""` filtered out, in order: `.filter(Boolean)` on strings drops the empty string and nothing else |
| `NameTransfer.CleanLinesOneLine` | src/Wheel.tsx:145-147 | every imported name is non-empty, trimmed and free of line feeds |
| `NameTransfer.Import` | src/Wheel.tsx:143-148 | a file with no non-blank line leaves the list unchanged. Otherwise the clean lines replace the list, and every imported name is clean |
| `NameTransfer.ImportExample` | src/Wheel.tsx:143-148 | the file `"  Bob \n\nAlice"` imports as `["Bob", "Alice"]`, whatever the list was |
| `NameTransfer.Export` | src/Wheel.tsx:154 | exporting an empty list writes an empty file. A non-empty list of names without line feeds gives a file that splits back into exactly those names, one line feed fewer than names, starting with the first name. With `JoinSplit`, only `names.join("\n")` splits that way |
| `NameTransfer.ImportExport` | src/Wheel.tsx:143-154 | importing the export of a non-empty list of clean names gives that list back. Exporting an empty list and importing it leaves the current list alone |
| `NameTransfer.ImportBlank` | src/Wheel.tsx:148 | importing a blank text changes nothing |
| `NameEntries.Initial` | src/NameEntries.tsx:63-66 | the editor starts with an empty field, the next sort ascending and the dialog closed |
| `NameEntries.SetNewName` | src/NameEntries.tsx:129 | typing changes only the field |
| `NameEntries.AddName` | src/NameEntries.tsx:68-75 | blank input leaves both the list and the field unchanged. Otherwise the trimmed text, non-empty and trimmed, becomes the last name. Earlier names keep their places and the field is cleared |
| `NameEntries.AddThenRemoveLast` | src/NameEntries.tsx:68-80 | removing the last position after an add gives the old list back |
| `NameEntries.RemoveName` | src/NameEntries.tsx:77-80 | exactly the name at the index goes. Names before it stay in place and names after it move up by one. An index outside the list changes nothing |
| `NameEntries.PromptRemoveName` | src/NameEntries.tsx:101-104 | the row button remembers the name and opens the dialog without touching the list |
| `NameEntries.Cancel` | src/NameEntries.tsx:232 | Cancel only closes the dialog. The list and the remembered name stay |
| `NameEntries.ConfirmRemoveName` | src/NameEntries.tsx:91-99 | every copy of the remembered name goes, and the others keep their counts and order. Then the remembered name is forgotten and the dialog closes. With no remembered name, or the empty one, nothing changes |
| `NameEntries.PromptThenConfirm` | src/NameEntries.tsx:91-104 | prompting for a non-empty name and confirming removes all its copies and nothing else |
| `NameEntries.PromptThenCancel` | src/NameEntries.tsx:101-104 | prompting and cancelling keeps every name and closes the dialog |
| `NameEntries.DescendingIsPreorder` | src/NameEntries.tsx:167 | reversing a consistent comparator still gives a consistent order |
| `NameEntries.ToggleSort` | src/NameEntries.tsx:164-170 | Sort reorders the same multiset of names. The order is ascending under `compare` when the flag is set and descending otherwise. The flag flips on every click |
| `NameEntries.Clear` | src/NameEntries.tsx:181 | Clear empties the list and touches nothing else |

## Left out

- Canvas drawing (`ctx.*` calls, HSL colours, fonts, the hub and the pointer) and dark-mode styling (src/Wheel.tsx:25-59, 166-213) are rendering. Only the slice arithmetic and the label angle are modelled. The dark-mode toggle affects nothing but colours.
- Audio: the Howler sounds and their play/stop calls (src/Wheel.tsx:9-10, 93, 97, 116-117) are foreign I/O.
- The winner `alert` (src/Wheel.tsx:126) is a browser side effect. The winner is returned in `Spin.Frame` instead.
- `localStorage` reads and writes and `JSON.parse` (src/Wheel.tsx:72-90, src/NameEntries.tsx:73, 95) are persistence.
- `requestAnimationFrame` and `performance.now` (src/Wheel.tsx:102, 113, 135) are the scheduler. A frame is a call of `Spin.Animate` with the elapsed time.
- Floating point: angles are exact reals, `Math.PI` is the abstract `T`, and `Math.pow(x, 3)` is the exact cube. Rounding is not modelled.
- File plumbing: `FileReader`, the missing-file and `null` result checks, `Blob`, object URLs and the download link (src/Wheel.tsx:139-142, 150, 154-162). Only the split/trim/filter and join transforms are modelled.
- Shuffle (src/NameEntries.tsx:152) sorts with `Math.random() - 0.5` as its comparator. Its result cannot be stated beyond "some reordering".
- The winning-row animation (src/NameEntries.tsx:41-54, 82-89) toggles DOM classes with `setTimeout`.
- Closing the dialog by its backdrop or close trigger (`onOpenChange`, src/NameEntries.tsx:219) passes a callback to the dialog component of the UI library. What that path does depends on the library's callback argument, which is not part of this model. Only the Cancel button (`NameEntries.Cancel`) is modelled.
- React wiring, `src/App.tsx` (mounting only) and `vite.config.ts` (build configuration).
- Sequences.SortBy: the contract states a sorted permutation but not stability. JavaScript's sort is stable, and so is the insertion sort used here, but no lemma proves it.
- NameEntries.ToggleSort: inherits the missing stability statement of `Sequences.SortBy`. `localeCompare` itself is the abstract parameter `compare`.
