# pokedraw drawing surface and game flow, in Dafny

A model of the core of pokedraw, a "draw the Pokémon from memory" game. It has two parts.

**The drawing surface** (`components/DrawingCanvas.tsx`, modules `DrawingCanvas` and `History`) is a canvas with three pieces of state:
- a pen/eraser tool;
- an `isDrawing` gate: pointer-down opens it, moves draw only while it is open, and pointer-up or pointer-leave closes it and commits a snapshot;
- an undo history of buffer snapshots, capped at 30.

The pixel buffer is an opaque type `Buffer`, whose only observable property is equality. `Cleared` is the fully transparent buffer. The browser's rasteriser is a `Renderer` parameter: it strokes the whole current path onto a buffer with a style, as `stroke()` does. PNG export with white-background flattening is an `Exporter` parameter. Every handler and mutating handle operation is a pure function that maps a surface, plus its inputs (the event, the canvas's bounding rectangle, the renderer), to a new surface; `GetDataUrl` only reads one. The invariant `Valid` is proved to hold on every reachable surface: once a context exists, the history holds 1 to 30 snapshots, and outside a stroke its top is the live buffer.

**The game flow** (`App.tsx`, modules `Game` and `Decimal`) covers:
- the `MM:SS` clock formatter, including JavaScript's flooring `Math.floor`, truncating `%`, `toString` and `padStart`;
- the countdown tick and the condition under which it runs;
- `startGame`;
- the guard and the two outcomes of `handleFinish`.

Three collaborators are not modelled: the entity fetch, the remote scorer and `Date.now()`. What they return enters the model as parameters.

A surface that is zero-sized at mount is never initialised later. The setup effect has an empty dependency list and runs only once, so such a surface stays without a context. All its handle operations are then no-ops, and it never gets a history (`ZeroSizeMountNeverInitialised`).

The blank snapshot saved at mount is evicted by the first push onto a full history (30 entries, components/DrawingCanvas.tsx:58). From then on, undo stops at the oldest snapshot still kept (`UndoFloor`). After N ≥ 30 gestures with no undo in between, that is the buffer gesture N-29 left (`UndoAfterStrokes`). A `clear` (components/DrawingCanvas.tsx:115-122) pushes a blank snapshot of its own, so an empty canvas can still be among the retained snapshots (`ClearTwice`).

## Model

| member | source | states |
|---|---|---|
| `History.Push` | components/DrawingCanvas.tsx:56-58 | the new snapshot is the last entry; below 30 entries it is appended, at 30 the oldest is evicted; the length stays between 1 and 30 |
| `History.Pop` | components/DrawingCanvas.tsx:126-127 | the top is removed only when more than one entry exists; a history never becomes empty this way |
| `History.PushAllKeepsMostRecent` | components/DrawingCanvas.tsx:52-60 | after any number of commits the history is exactly the last 30 of everything pushed |
| `History.PushThenLastN` | components/DrawingCanvas.tsx:56-58 | one commit followed by more snapshots keeps the same last 30 as appending them all |
| `History.LastNOfLong` | components/DrawingCanvas.tsx:56-58 | once 30 or more snapshots follow the old history, none of the old history is retained |
| `History.PopNFloor` | components/DrawingCanvas.tsx:123-131 | popping k times removes min(k, length-1) entries from the top and keeps the rest |
| `DrawingCanvas.ToolSetting` | components/DrawingCanvas.tsx:47-48 | eraser means destination-out at width 20; pen means source-over at width 4 |
| `DrawingCanvas.SaveHistory` | components/DrawingCanvas.tsx:52-60 | with canvas and context, the live buffer becomes the top of the history under the 30 cap; otherwise nothing changes |
| `DrawingCanvas.Initialise` | components/DrawingCanvas.tsx:20-43 | a zero-width or zero-height surface is untouched; otherwise the buffer is blank and, with a context, styled width 4, round caps and joins, with the blank snapshot as the only history entry |
| `DrawingCanvas.ApplyTool` | components/DrawingCanvas.tsx:45-50 | the context gets the tool's composite mode and width; buffer, history, gate and path are untouched; without a context nothing changes |
| `DrawingCanvas.EventPoint` | components/DrawingCanvas.tsx:91-106 | a mouse event uses its own position; a touch event uses the first touch, else the first changed touch, else none |
| `DrawingCanvas.GetCoordinates` | components/DrawingCanvas.tsx:84-112 | the point plus the rectangle's corner is the event's viewport point; no rectangle or no touch point gives the origin |
| `DrawingCanvas.StartDrawing` | components/DrawingCanvas.tsx:62-67 | opens the gate and restarts the path at the event's point without touching buffer or history |
| `DrawingCanvas.Draw` | components/DrawingCanvas.tsx:69-74 | idle means no-op; while drawing, the point extends the path and the buffer becomes the render of the whole path; history is never touched |
| `DrawingCanvas.FinishDrawing` | components/DrawingCanvas.tsx:76-82 | always leaves the gate closed; commits one snapshot exactly when a stroke was open; idle means no-op |
| `DrawingCanvas.Clear` | components/DrawingCanvas.tsx:115-122 | the buffer becomes blank and exactly one blank snapshot is pushed under the cap |
| `DrawingCanvas.Undo` | components/DrawingCanvas.tsx:123-131 | with more than one snapshot the top is dropped and the buffer becomes the new top; otherwise buffer and history are unchanged |
| `DrawingCanvas.GetDataUrl` | components/DrawingCanvas.tsx:132-146 | the empty string without a canvas, otherwise the export of the live buffer |
| `DrawingCanvas.Mount` | components/DrawingCanvas.tsx:20-50 | the setup effect followed by the tool effect; its contract is stated by `DrawingCanvas.MountIsValid` |
| `DrawingCanvas.MountIsValid` | components/DrawingCanvas.tsx:20-50 | mounting (setup effect, then tool effect) gives a valid surface; with size and context it has one blank snapshot and the selected tool's style with round caps and joins |
| `DrawingCanvas.StepPreservesValid` | components/DrawingCanvas.tsx:52-131 | every handler and handle operation preserves the history invariant |
| `DrawingCanvas.RunPreservesValid` | components/DrawingCanvas.tsx:52-131 | any sequence of inputs, each pointer event with its own bounding rectangle, keeps the invariant, so the history length stays between 1 and 30 |
| `DrawingCanvas.DrawAllKeepsHistory` | components/DrawingCanvas.tsx:69-74 | moves never change the history, the gate or whether a context exists |
| `DrawingCanvas.StrokeCommitsOnce` | components/DrawingCanvas.tsx:62-82 | a completed gesture commits exactly one snapshot (its final buffer) and ends idle; a tap commits a snapshot equal to the unchanged buffer |
| `DrawingCanvas.StrokesKeepMostRecent` | components/DrawingCanvas.tsx:52-82 | after any sequence of completed gestures, with the canvas at a fixed position, the history is exactly the last 30 of the old history followed by the buffer each gesture committed |
| `DrawingCanvas.HistoryBoundAfterStrokes` | components/DrawingCanvas.tsx:52-82 | after N ≥ 30 gestures the history holds exactly 30 snapshots, those of gestures N-29 to N |
| `DrawingCanvas.UndoAfterStrokes` | components/DrawingCanvas.tsx:52-131 | after N ≥ 30 gestures, 29 undos show the buffer gesture N-29 left, not the first gesture's |
| `DrawingCanvas.UndoToOldestRetained` | components/DrawingCanvas.tsx:123-131 | with a full history, 29 undos reach its oldest snapshot |
| `DrawingCanvas.IdleInputsAreInert` | components/DrawingCanvas.tsx:69-82 | while idle, a move and a pointer-up or leave change nothing |
| `DrawingCanvas.ClearTwice` | components/DrawingCanvas.tsx:115-122 | clearing twice gives the same blank buffer as clearing once and pushes two snapshots |
| `DrawingCanvas.LastToolWins` | components/DrawingCanvas.tsx:45-50 | only the last tool selected matters, and tool changes never alter the export |
| `DrawingCanvas.UndoNPops` | components/DrawingCanvas.tsx:123-131 | k undos from an idle surface are k guarded pops of the history, with the buffer at the new top |
| `DrawingCanvas.UndoRepeated` | components/DrawingCanvas.tsx:123-131 | k undos from an idle surface drop min(k, length-1) snapshots and show the new top |
| `DrawingCanvas.UndoFloor` | components/DrawingCanvas.tsx:123-131 | enough undos reach the oldest retained snapshot, and further undos are no-ops |
| `DrawingCanvas.NoContextStaysUninitialised` | components/DrawingCanvas.tsx:20-43 | without a context no input creates one, so the history stays empty |
| `DrawingCanvas.ZeroSizeMountNeverInitialised` | components/DrawingCanvas.tsx:24-25 | a surface mounted at zero width or height has no context and no history after any inputs, whatever size and position it has at later events |
| `DrawingCanvas.CoordinatesAreRelative` | components/DrawingCanvas.tsx:84-112 | shifting pointer and rectangle together changes nothing; the corner maps to (0,0); a lone touch or changed touch maps like a mouse at the same place |
| `DrawingCanvas.ExportReadsOnlyBuffer` | components/DrawingCanvas.tsx:132-146 | the export depends only on the buffer, not on history, tool or gate |
| `Decimal.IntToString` | App.tsx:77 | `toString` of an integer: the digits, with a leading '-' for negatives |
| `Decimal.PadStart` | App.tsx:77 | `padStart`: the string is kept as a suffix, fill characters are prefixed up to the width, and nothing is truncated |
| `Decimal.ValueOfDigits` | App.tsx:77 | reading back the decimal digits of n gives n |
| `Decimal.LeadingZeros` | App.tsx:77 | zero padding does not change the value read back |
| `Game.TimeFields` | App.tsx:75-76 | for s ≥ 0, minutes·60 + seconds = s with 0 ≤ seconds < 60; for negative s the seconds field takes the sign of s |
| `Game.FormatTime` | App.tsx:74-78 | `formatTime`; its contract is stated by `Game.FormatTimeRoundTrip` |
| `Game.FieldShape` | App.tsx:77 | a padded field of a non-negative number is all digits, at least 2 long, and exactly 2 long below 100 |
| `Game.FieldValue` | App.tsx:77 | a padded field reads back as its number |
| `Game.DisplayReadsBack` | App.tsx:77 | minutes and seconds (below 60) joined by ':' form a well-formed display whose reading is minutes·60 + seconds; it is 5 characters iff minutes < 100 |
| `Game.FormatTimeRoundTrip` | App.tsx:74-78 | for s ≥ 0 the display is digits with ':' before the last two, the seconds part is below 60, and reading minutes·60 + seconds back gives s; it is exactly 5 characters iff s < 6000 |
| `Game.CountdownActive` | App.tsx:22 | the interval guard: DRAWING, TIMED and timer > 0; what it implies is stated by `Game.Tick`, `Game.IdleTicks` and `Game.CountdownFinishesOnce` |
| `Game.NextTimer` | App.tsx:24-30 | above 1 the timer decrements; at or below 1 it becomes 0 and requests finish; never negative |
| `Game.Tick` | App.tsx:20-34 | outside a running timed round nothing happens; otherwise only the timer changes, and it strictly decreases |
| `Game.IdleTicks` | App.tsx:22 | ticks while the countdown is inactive change nothing and request nothing |
| `Game.CountdownFinishesOnce` | App.tsx:20-34 | an active countdown from t decreases by one per tick, reaches 0, and requests finish exactly once, on tick t |
| `Game.StartGame` | App.tsx:36-44 | enters DRAWING with the pen and the fetched entity; timed mode sets 60 seconds, normal mode leaves the timer |
| `Game.TimedRoundLastsSixtyTicks` | App.tsx:20-44 | a started timed round runs its countdown and requests finish at tick 60 and not before |
| `Game.TimerStaysSane` | App.tsx:13-44 | starting a round and ticking never make the timer negative |
| `Game.BeginFinish` | App.tsx:46-49 | without a canvas handle or current entity nothing happens; otherwise only the scoring flag is raised |
| `Game.HandleFinish` | App.tsx:46-72 | the same guard; a score moves to RESULT with the scorer's score and comment, the entity and the exported drawing; an exception leaves the screen unchanged; the scoring flag ends cleared |
| `Game.ResultScreenHasRecord` | App.tsx:64-65 | every transition keeps a result behind the RESULT screen, which the rendering at App.tsx:196 needs; a round enters RESULT only through a successful scoring with a canvas and an entity |

## Left out

- Rasterisation: antialiasing, round caps and the compositing arithmetic belong to the browser canvas, so strokes enter only as the `Renderer` parameter. The claim that erasing removes exactly the pixels under the path is not stated.
- PNG encoding and white-background flattening in `getDataUrl` are foreign `toDataURL`/`drawImage` calls, so they enter only as the `Exporter` parameter.
- `closePath` in `finishDrawing` is not modelled. It adds a closing segment that is never stroked: the next stroke is only possible after `startDrawing`, which begins a new path.
- `setTransform` and `strokeStyle = 'black'` are not modelled separately. The context is fresh at that point, so the identity transform changes nothing, and black is the only colour in the model.
- Coordinates, rectangle sizes, scores and seconds are JavaScript numbers (floating point). They are modelled as integers. The truncation of `rect.width` to the integer `canvas.width` is not modelled.
- Unmounting and remounting: the canvas is torn down when the drawing screen is left and mounted afresh when it is entered. The model starts from `Fresh` and `Mount`.
- React scheduling is not modelled: effect timing, `setInterval` delays, batching of `setState`, and re-running updaters. Each tick and each handler is one atomic step.
- `getRandomPokemon` and `getAIScore` (network, remote model, random fallback, image resizing) are not part of this model. Their results are the `pkmn` and `outcome` parameters. `Date.now()` is the `idClock` and `stampClock` parameters.
- `alert`, `console.error`, all JSX rendering and the one-line setters behind buttons (`setGameMode`, back to HOME) are not modelled. Tool buttons reach the surface as `SelectTool`.
- `Game.HandleFinish` gives only the settled state after the await. The in-flight state is `Game.BeginFinish`. An interleaving of two finishes, one from the timer and one from the button, is not modelled.
- `DrawingCanvas.GetDataUrl` does not state that the exported text is non-empty for a mounted canvas, because that depends on the foreign encoder.
- `tailwind.config.js` and `types.ts` declare styling and types only. `GameState`, `GameMode`, `Pokemon` and `DrawingResult` are mirrored as datatypes.
