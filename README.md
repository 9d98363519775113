# Month drill-down editor and empty life grid, in Dafny

This project models two pieces of a timeline web app that shows a life as a
grid of 90 years of 12 months.

- **The month editor** (`src/MonthScreen.js`). It opens on one square of the
  grid and shows that square's twelve months. Clicking a month toggles it in an
  ordered selection. "Add Label" opens an editor, but only when something is
  selected. Cancel resets the draft and the selection. Save returns a copy of
  the square's `months` array. In the copy, every selected month is replaced
  by `{label, color, activities}`. The activities come from the comma-separated
  text field: it is split on `,`, each piece is trimmed, and empty pieces are
  dropped.
- **The empty grid** (`src/home.js`). `generateEmptyGrid` builds 90 rows of 12
  `null` cells.

Files:

- `activities.dfy` — module `Activities`. `String.prototype.trim` over the
  ECMAScript white-space set, `split` and `join` on one separator character,
  and `ParseActivities`. Lemmas give the round trips and the worked example.
- `month_screen.dfy` — module `MonthScreen`. The selection functions
  (`Without`, `Toggled`) and the merge that saving performs (`Merged`) are
  written as functions. The class `MonthEditor` holds the component's state
  cells (`selectedMonths`, `modalOpen`, `labelText`, `labelColor`,
  `activitiesText`) and has one method per handler. `SaveLabel` copies the
  input array into a fresh one and writes the selected indices in a loop.
  The file ends with two click-through client methods.
- `home.dfy` — module `Home`. `GenerateEmptyGrid` and the cell count.

The parent's props become parameters. `colorSwatches` is a non-empty sequence
of `Swatch(name, value)` given to the constructor. `square.months` is the
array passed to `SaveLabel`. `updateSquareMonths` receives what `SaveLabel`
returns.

Behaviour of the code that the model keeps:

- Saving does not clear the selection or close the editor. `saveLabel` only
  hands the new array to the parent, so `SaveLabel` modifies nothing.
- Activities keep duplicates, because the code only drops empty pieces.
- The selection is an ordered array in click order, not a set. A month that is
  removed and then added again moves to the end.
- Month indices are not range-checked when saving. Only indices 0..11 can be
  clicked, so the class invariant `Valid()` keeps the selection inside 0..11
  and `SaveLabel` requires a 12-entry array.

## Model

| member | source | states |
|---|---|---|
| `MonthScreen.Without` | src/MonthScreen.js:15 | the filtered selection holds exactly the old members other than `m`, is shorter when `m` was there, and stays duplicate-free |
| `MonthScreen.WithoutAt` | src/MonthScreen.js:15 | in a duplicate-free selection, filtering out the month at position `i` cuts out exactly that position and keeps the other months in their order |
| `MonthScreen.WithoutAbsent` | src/MonthScreen.js:15 | filtering out an index that is not selected returns the selection unchanged |
| `MonthScreen.WithoutAppended` | src/MonthScreen.js:15-16 | filtering `m` out of a selection that ends in a freshly appended `m` gives the same as filtering the selection without it |
| `MonthScreen.Toggled` | src/MonthScreen.js:12-17 | membership of exactly `m` flips; an absent `m` is appended at the end; a present `m` is removed with all its copies; a duplicate-free selection of months 0..11 stays one |
| `MonthScreen.ToggleTwice` | src/MonthScreen.js:12-17 | for every selection, toggling the same month twice restores the membership; an absent month leaves the selection exactly as it was; a present one ends up moved to the end |
| `MonthScreen.Merged` | src/MonthScreen.js:36-43 | the copied-then-overwritten months have the input's length, hold the draft at every selected index and the input month at every other index |
| `MonthScreen.MergedBySet` | src/MonthScreen.js:37-43 | the order of the selection and repeated indices in it do not change the saved months |
| `MonthScreen.MergedIdempotent` | src/MonthScreen.js:34-45 | saving the same draft over the same selection again changes nothing further |
| `MonthScreen.MergedNothing` | src/MonthScreen.js:36-43 | with an empty selection the copy equals the input |
| `MonthScreen.MonthEditor.constructor` | src/MonthScreen.js:5-10 | initial state: empty selection, editor closed, empty label and activities, color of the first swatch; the class invariant holds |
| `MonthScreen.MonthEditor.ToggleSelectMonth` | src/MonthScreen.js:12-17 | a click on month `m` replaces the selection by `Toggled(old selection, m)` and keeps it duplicate-free and within 0..11 |
| `MonthScreen.MonthEditor.OpenModal` | src/MonthScreen.js:20-24 | the editor is open afterwards when the selection is non-empty; with an empty selection nothing changes; the class invariant is kept |
| `MonthScreen.MonthEditor.CloseModal` | src/MonthScreen.js:26-32 | label and activities text empty, color back to the first swatch's value, selection empty, editor closed |
| `MonthScreen.MonthEditor.SetLabelText` | src/MonthScreen.js:111 | the label field's value becomes the label text |
| `MonthScreen.MonthEditor.SetActivitiesText` | src/MonthScreen.js:117 | the activities field's value becomes the activities text |
| `MonthScreen.MonthEditor.PickColor` | src/MonthScreen.js:126 | the color becomes the value of the clicked swatch |
| `MonthScreen.MonthEditor.SaveLabel` | src/MonthScreen.js:34-45 | returns a fresh array equal to `Merged` of the input months, the selection and `{labelText, labelColor, ParseActivities(activitiesText)}`; the input array and the editor's state are not modified |
| `Activities.TrimStart` | src/MonthScreen.js:41 | no longer than the input and does not start with white space |
| `Activities.TrimEnd` | src/MonthScreen.js:41 | no longer than the input and does not end with white space |
| `Activities.TrimStartSuffix` | src/MonthScreen.js:41 | what trimming the start keeps is a suffix and what it drops is all white space |
| `Activities.TrimEndPrefix` | src/MonthScreen.js:41 | what trimming the end keeps is a prefix and what it drops is all white space |
| `Activities.Trim` | src/MonthScreen.js:41 | the trimmed text neither starts nor ends with white space and is no longer than the input |
| `Activities.TrimSlice` | src/MonthScreen.js:41 | the trimmed text is one contiguous slice of the input, with only white space before and after it |
| `Activities.TrimBlank` | src/MonthScreen.js:41 | trimming gives the empty string exactly when the input is all white space |
| `Activities.TrimOfTrimmed` | src/MonthScreen.js:41 | trimming an already trimmed text returns it unchanged |
| `Activities.Split` | src/MonthScreen.js:41 | splitting gives at least one piece, no piece holds the separator, and joining the pieces with the separator gives the input back |
| `Activities.SplitJoin` | src/MonthScreen.js:41 | splitting a join of separator-free pieces gives those pieces back |
| `Activities.SplitAtSeparator` | src/MonthScreen.js:41 | the pieces of `a + sep + b` are the pieces of `a` followed by the pieces of `b` |
| `Activities.TrimAndDropEmpty` | src/MonthScreen.js:41 | trim-then-drop-empty keeps at most one result per piece and every result is non-empty and trimmed |
| `Activities.TrimAndDropEmptyAvoids` | src/MonthScreen.js:41 | a character that is in no piece is in no result |
| `Activities.TrimAndDropEmptyAppend` | src/MonthScreen.js:41 | trim-then-drop-empty works piece by piece: on a concatenation it gives the concatenation of the results, in order |
| `Activities.ParseActivities` | src/MonthScreen.js:41 | every activity is non-empty, has no leading or trailing white space and contains no comma; there are at most as many as comma-separated pieces |
| `Activities.ParseSinglePiece` | src/MonthScreen.js:41 | a text without commas gives nothing when blank and otherwise its trimmed self |
| `Activities.ParseAtComma` | src/MonthScreen.js:41 | the activities of `a + "," + b` are those of `a` followed by those of `b`: order and duplicates are kept, nothing is merged across a comma |
| `Activities.ParseJoined` | src/MonthScreen.js:41 | joining clean activities with commas and parsing gives them back |
| `Activities.ParseIdempotent` | src/MonthScreen.js:41 | a parsed list written back as comma-separated text parses to itself; an empty list, written back as the empty text, parses to the empty list |
| `Activities.PaddedWord` | src/MonthScreen.js:41 | an activity with comma-free white space on either side parses to that activity alone |
| `Activities.ParseShape` | src/MonthScreen.js:41 | a bare word, a word after a space, an empty piece and a word padded on both sides, comma-separated, parse to the three words in order |
| `Activities.ParseExample` | src/MonthScreen.js:41 | `"run, swim,, gym "` parses to `["run", "swim", "gym"]` |
| `Home.GenerateEmptyGrid` | src/home.js:9-13 | exactly 90 rows, each of exactly 12 cells, every cell unset (`null`) |
| `Home.CellCountOfRectangle` | src/home.js:12 | rows of equal width `w` hold rows times `w` cells |
| `Home.EmptyGridCellCount` | src/home.js:8-12 | the empty grid holds 1080 cells |

## Left out

- Rendering: the JSX, Tailwind class strings, icons and the per-month display
  (src/MonthScreen.js:47-161, src/home.js:15-90). It is presentation only.
- Month names, which come from `Date.prototype.toLocaleString`. They depend on
  the locale.
- React's state scheduling. Each handler is modelled as running to completion
  on the state the previous handler left.
- What the parent does with the saved months (`updateSquareMonths`). That code
  is not part of this model.
- Whether the editor is open when Save is pressed. The model does not link
  `SaveLabel` to `modalOpen`: the Save button is only rendered inside the open
  editor, and `saveLabel` itself does not check.
- `SaveLabel` requires a 12-entry `square.months`. In JavaScript, an index past
  the end of a shorter array would grow the copy. The squares the screen is
  given always hold 12 months.
- Activities.Trim: works on Unicode code points rather than UTF-16 code
  units. Every character that trim removes is a single code unit, so the
  results agree on well-formed strings. Lone surrogates cannot be expressed.
- Home.GenerateEmptyGrid: does not capture that each row is a separate array
  object. In the model the grid is a sequence of sequence values, so writing
  one row can never change another. The aliasing that `Array(90).fill(row)`
  with one shared row would cause cannot be expressed.
- `src/calendar.js`: its only logic turns three picker values into a date
  string through `Date`, which depends on the time zone and on day rollover.
  The rest is constant picker ranges and UI.
- `tailwind.config.js`: build configuration.
- Range (drag) selection, zoom levels and row widths, annotation of whole
  grid units, and screen routing. None of them appear in the modelled source
  files.
