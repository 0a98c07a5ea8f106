# Aufbau orbital diagrams — a Dafny model

The application teaches electron configurations with two screens:

- **The orbital viewer** (`src/App.jsx`) reads an atomic number between 1 and 118.
  - It walks a fixed 19-entry fill-order table (1s … 7p, the n+l rule).
  - Each subshell gets min(remaining, capacity) electrons.
  - It writes a configuration text of `sub^count ` tokens.
  - It draws one row of capacity/2 orbital slots per filled subshell: up-arrows first, then the pairs (Hund's rule).
  - It shows the rows with the last-filled subshell first.
  - A four-entry table of known Aufbau exceptions is shown beside the result and never changes it.
- **The orbital game** (`src/InteractiveMode.jsx`) fills a shorter table (1s … 4d).
  - It derives each capacity from the subshell letter.
  - It keeps the solution rows in fill order.
  - The player builds a diagram by clicking slots and adding or removing rows, then asks for it to be graded.

## Modules

| file | module | content |
|---|---|---|
| `aufbau.dfy` | `Aufbau` | Subshells, the greedy fill, the two-pass slot placement, occupancy, and the conservation and Hund's-rule lemmas. Both generators are proved against these functions. |
| `config_text.dfy` | `ConfigText` | Decimal rendering, header and token text, and a reader for the token list with its round-trip lemma. |
| `viewer.dfy` | `Viewer` | The viewer's table, its generator and the exceptions table. The generator is imperative: array slots written in place, rows reversed in place. |
| `trainer.dfy` | `Trainer` | The game's table and generator, the diagram comparison, and the `Session` class. `Session` has the fields the game updates, and its methods preserve the invariant that the player's diagram is a shape-prefix of the solution. |

Modelling choices:

- A slot is a string (`""`, `"↑"`, `"↑↓"`). This keeps the `+= "↓"` append and the toggle's "anything else becomes empty" literal.
- The parsed input is an `Option<int>`, where `None` stands for NaN.
- Random draws are method parameters.

## Model

| member | source | states |
|---|---|---|
| Aufbau.Min | src/App.jsx:45 | the result is at most each argument and equal to one of them |
| Aufbau.GreedyFill | src/App.jsx:41-47 | defines the fill that both generator loops compute: walk the table in order, give each subshell min(remaining, capacity) electrons and stop once none remain; its properties are the GreedyFill lemmas below |
| Aufbau.Slot | src/App.jsx:53-56 | slot k after placing count electrons is always empty, up or paired; it is empty exactly when count ≤ k, and paired exactly when the second pass reached it (k + orbitals < count) |
| Aufbau.Arrows | src/App.jsx:50-56 | the row for count electrons has one slot per orbital, slot k being Slot(count, orbitals, k) |
| Aufbau.RowOf | src/App.jsx:58 | the row pushed for a filled subshell carries its label and capacity/2 slots |
| Aufbau.Rows | src/App.jsx:41-59 | the rows of a fill: one row per filled subshell, in fill order |
| Aufbau.GreedyFillShape | src/App.jsx:41-47 | the fill follows the table in order with the table's labels and capacities; every emitted subshell holds between 1 and capacity electrons; all but the last are full; a subshell is omitted only once every electron is placed |
| Aufbau.GreedyFillConserves | src/App.jsx:41-47 | the fill places exactly min(electrons, total capacity) electrons, and none for a non-positive count |
| Aufbau.GreedyFillStopsAt | src/App.jsx:41-47 | if the first n-1 subshells hold fewer electrons than given and the first n hold enough, the fill has exactly n entries; the first n-1 are full and the last holds the remainder |
| Aufbau.GreedyFillSaturates | src/InteractiveMode.jsx:29-43 | with at least the table's total capacity, every subshell is emitted and each one is full |
| Aufbau.SaturatedRowsPaired | src/InteractiveMode.jsx:29-45 | with at least the table's total capacity, the rows are one per subshell of the table and every slot is paired |
| Aufbau.SecondPassSlot | src/App.jsx:53-55 | in the second pass, slot i % orbitals is slot i - orbitals, and appending a down-arrow turns its up-arrow into a pair |
| Aufbau.SlotsOccupancy | src/App.jsx:53-56 | the first m slots after placing count electrons hold min(count, m) singles plus min(count - orbitals, m) partners |
| Aufbau.ArrowsPlaceAll | src/App.jsx:50-56 | a row of capacity/2 slots holds exactly the electrons placed in it; every slot is empty, up or paired; no slot is paired while another is empty |
| Aufbau.RowOfPlacesCount | src/App.jsx:50-58 | the row of a filled subshell has capacity/2 slots, holds its count and obeys Hund's rule |
| Aufbau.RowsConserve | src/App.jsx:41-58 | the rows of a fill hold exactly the electrons the fill placed |
| Aufbau.FillDiagramConserves | src/App.jsx:41-59 | the rows hold min(electrons, total capacity) electrons; there are no more rows than subshells; row i carries the table's label and width; each row holds at least one electron and obeys Hund's rule |
| ConfigText.Header | src/App.jsx:62 | the first line is "Electron Configuration for Z=", then decimal digits that read back as z, then ":" and a newline |
| ConfigText.Token | src/App.jsx:46 | defines one token: the label, a caret, the decimal count and a space; ConfigBodyRoundTrip shows it is read back losslessly |
| ConfigText.ConfigBody | src/App.jsx:41-47 | the tokens concatenated in fill order: empty exactly for an empty fill, otherwise ending in the trailing space |
| ConfigText.Decimal | src/App.jsx:46 | a rendered count is a non-empty string of digits that begins with 0 only when it is exactly "0" |
| ConfigText.DecimalRoundTrip | src/App.jsx:46 | reading a rendered count back gives the count |
| ConfigText.ConfigBodyRoundTrip | src/App.jsx:41-47 | when no label holds a caret or a space, parsing the token text gives back every (label, count) pair in fill order |
| ConfigText.FillTextRoundTrip | src/App.jsx:41-47 | for any well-formed table whose labels fit the token syntax, the token text of the fill parses back to the fill's (label, count) pairs |
| Viewer.FillOrderFacts | src/App.jsx:8-13 | every capacity is positive and even, the 19 capacities sum to exactly 118, and every label fits the token syntax |
| Viewer.PlaceArrows | src/App.jsx:50-56 | the in-place two-pass loop over the slot array yields the specified row, which holds exactly `filled` electrons and obeys Hund's rule |
| Viewer.FillSubshells | src/App.jsx:37-59 | the fill loop with its early break yields exactly the token text and the rows of the greedy fill |
| Viewer.Reversed | src/App.jsx:63 | the reversed rows have as many rows as the input; ReversedAt gives row k as row \|rows\|-1-k |
| Viewer.ReverseRows | src/App.jsx:63 | the in-place reversal leaves the array holding the reverse of its old contents |
| Viewer.TotalOccupancyReversed | src/App.jsx:63 | reversing the rows for display neither adds nor loses electrons |
| Viewer.Expected | src/App.jsx:26-64 | an element is shown exactly for a valid input; an invalid input gives the error message, no rows and no element; a valid z gives element z and a configuration text that starts with the header for z |
| Viewer.GenerateDiagram | src/App.jsx:26-65 | an input that is NaN, below 1 or above 118 yields the error message, no rows and no element; otherwise it yields the header and token text, the fill's rows reversed and the element key, and the displayed rows hold exactly z electrons |
| Viewer.DisplayedFill | src/App.jsx:41-63 | for any well-formed table, displayed row k is fill row \|rows\|-1-k, labelled with that table entry; every displayed row holds at least one electron and obeys Hund's rule; the display holds min(electrons, capacity) electrons |
| Viewer.DisplayedInFull | src/App.jsx:41-63 | over any well-formed table holding at least z ≥ 1 electrons, the displayed rows hold all z; each row holds at least one electron and obeys Hund's rule; displayed row k shows subshell \|d\|-1-k |
| Viewer.ViewerConserves | src/App.jsx:26-63 | every valid z is placed in full; each displayed row holds at least one electron and obeys Hund's rule; the first displayed row is the last subshell filled |
| Viewer.ViewerConfigRoundTrip | src/App.jsx:46-62 | the configuration text starts with the header, and the rest parses back to the fill's (label, count) pairs in fill order |
| Viewer.ExceptionFor | src/App.jsx:68-73 | there is an exception exactly for 24, 29, 47 and 79, each with its listed configuration |
| Viewer.ExceptionsNotApplied | src/App.jsx:62-73 | for chromium (24) and copper (29) the computed configuration is the textbook fill ending 4s2 3d4 and 4s2 3d9, not the listed exception |
| Trainer.SubshellType | src/InteractiveMode.jsx:20-22 | the letter found is the first s, p or d of the label; none is found only when the label has none |
| Trainer.Capacity | src/InteractiveMode.jsx:31-32 | a label has a capacity exactly when it has a subshell letter, and the capacity is 2, 6 or 10 |
| Trainer.CapacityByLetter | src/InteractiveMode.jsx:13-17 | the capacity is fixed by the first letter: s holds 2, p holds 6, d holds 10 |
| Trainer.TableOf | src/InteractiveMode.jsx:29-33 | each label is paired with the capacity of its letter; the table is well formed |
| Trainer.TrainerOrderTyped | src/InteractiveMode.jsx:7-10 | every label of the game's table has a subshell letter |
| Trainer.TrainerTable | src/InteractiveMode.jsx:7-17 | the game's table has one entry per label of its list and is well formed |
| Trainer.TrainerTableIsViewerPrefix | src/InteractiveMode.jsx:7-17 | the game's table equals the first ten entries of the viewer's table |
| Trainer.TrainerTableFacts | src/InteractiveMode.jsx:7-17 | the game's table is well formed and holds 48 electrons in all |
| Trainer.Solution | src/InteractiveMode.jsx:25-49 | the solution for z has at most ten rows and is empty exactly when z ≤ 0 |
| Trainer.PlaceSubshell | src/InteractiveMode.jsx:33-43 | the inner while loop places min(electrons, max) electrons (none if none remain) into the specified two-pass row, which holds exactly that many and obeys Hund's rule |
| Trainer.FillLabels | src/InteractiveMode.jsx:26-48 | the outer loop over labels yields the rows of the greedy fill of the letter-derived table, in fill order |
| Trainer.GenerateCorrectDiagram | src/InteractiveMode.jsx:25-49 | the output is the solution for z, and it holds min(z, 48) electrons (none for z ≤ 0) |
| Trainer.SolutionFacts | src/InteractiveMode.jsx:29-48 | for z ≥ 1 the solution has 1 to 10 rows, labelled 1s, 2s, … in fill order, each holding at least one electron and obeying Hund's rule, with min(z, 48) electrons in all |
| Trainer.SolutionSaturates | src/InteractiveMode.jsx:29-43 | for z ≥ 48 the solution is all ten rows with every slot paired; the surplus electrons are dropped |
| Trainer.BlankRow | src/InteractiveMode.jsx:99 | a blank row has the given row's label and width, and every slot is empty, so it holds no electron |
| Trainer.Toggle | src/InteractiveMode.jsx:87-90 | a click always changes the slot and always leaves an empty, up or paired slot; a non-canonical slot becomes empty |
| Trainer.ToggleThrice | src/InteractiveMode.jsx:83-90 | three clicks restore every canonical slot |
| Trainer.ToggleCell | src/InteractiveMode.jsx:85-91 | after a click on (row, slot) that slot is toggled and every other slot, label and width is unchanged |
| Trainer.ArrowRows | src/InteractiveMode.jsx:112-113 | the arrows of each row, labels dropped, one entry per row |
| Trainer.Matches | src/InteractiveMode.jsx:111-114 | the comparison accepts exactly when the row counts agree and every row's arrows equal the solution's; labels are ignored |
| Trainer.MatchesExactlySolution | src/InteractiveMode.jsx:111-114 | for a diagram shaped as a prefix of the solution, the comparison accepts exactly when the diagram equals the solution, so the solution graded against itself is correct |
| Trainer.ToggleBreaksMatch | src/InteractiveMode.jsx:84-114 | a click on any slot of an accepted diagram makes it rejected |
| Trainer.ShapePrefixAdd | src/InteractiveMode.jsx:96-101 | appending a blank row shaped like the next solution row keeps the diagram a shape-prefix of the solution |
| Trainer.ShapePrefixRemove | src/InteractiveMode.jsx:104-108 | dropping the last of several rows keeps the diagram a shape-prefix of the solution |
| Trainer.ShapePrefixToggle | src/InteractiveMode.jsx:84-93 | a click keeps the diagram a shape-prefix of the solution |
| Trainer.Session.constructor | src/InteractiveMode.jsx:64-70 | mounting with a drawn number stores it and its solution, starts from one blank row shaped like the solution's first, and establishes the session invariant |
| Trainer.Session.Reroll | src/InteractiveMode.jsx:73-81 | a reroll stores the new number and its solution, hides the solution, clears the feedback, restarts from one blank row and re-establishes the invariant |
| Trainer.Session.ToggleArrow | src/InteractiveMode.jsx:84-93 | the diagram becomes the old one with that slot toggled; nothing else changes and the invariant is kept |
| Trainer.Session.AddOrbital | src/InteractiveMode.jsx:96-101 | while the diagram is shorter than the solution, a blank row shaped like the next solution row is appended; otherwise nothing changes; the invariant is kept |
| Trainer.Session.RemoveOrbital | src/InteractiveMode.jsx:104-108 | the last row is dropped only while more than one remains; otherwise nothing changes; the invariant is kept |
| Trainer.Session.ToggleShowSolution | src/InteractiveMode.jsx:209 | the show-solution flag flips and nothing else changes |
| Trainer.Session.CheckDiagram | src/InteractiveMode.jsx:111-115 | the feedback is the success message exactly when the comparison accepts, that is exactly when the diagram equals the solution, and the failure message otherwise; nothing else changes |

## Left out

- Rendering, menus, mode switching, and the help, image, rules and legend panels are user interface only and are not modelled.
- The element lookup of the viewer (`periodicTable[z]`) is modelled as the atomic number under which element information is looked up, because the periodic data module is not part of this model.
- Random draws are parameters. Mounting the game accepts 1–118, as the draw at line 65 of `src/InteractiveMode.jsx` makes; a reroll accepts 1–30, as the draw at line 74 makes. The comment at line 63 says 1–30 for mounting. The model follows the code, so the two ranges differ.
- Viewer.GenerateDiagram: `parseInt` text parsing is not modelled. The input is the parsed value, `None` for NaN, because the model has no JavaScript number-parsing semantics.
- Viewer.ExceptionFor: keyed by the integer. The source looks up the raw input text, so an input such as "024" finds no exception there but does in the model.
- React state scheduling, the deferred state updaters and the JSON deep copy in the click handler are modelled as direct field updates on values, because the model has no rendering cycle or aliasing.
- Trainer.SubshellType: models the regular expression `/[spd]/` as a scan for the first s, p or d character. A label without one gives `None` where the source would throw; the game's own labels always have one.
- Trainer.Matches: models the comparison of `JSON.stringify` texts as structural equality of the arrow sequences. The two coincide for sequences of strings.
- The two generators' loops are written over any table, and the methods are applied to the constant tables. The loops' behaviour on the constant tables is that of the source.
- The viewer and the game follow different conventions, and the model follows the code. The viewer shows its rows reversed (last-filled first). The game keeps its solution in fill order and, for z above 48, stops at 4d without an error.
