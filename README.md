# Minesweeper engine, modelled in Dafny

This project models the game engine of a browser Minesweeper written in
TypeScript and React, together with the small parsers and validators around it:

- grid geometry: converting between a cell index and a point, and the eight
  neighbours of a cell;
- the minefield schema: each cell is a bomb or holds the number of bombs
  around it;
- the flood fill that decides which cells one click uncovers;
- bomb placement away from the first-clicked cell;
- the aftermath of a click (explosion, win or continue), the mark cycle
  (none, flag, question mark), and which cells take clicks and marks;
- the game state as a class: status, uncovered cells, bombs, marks,
  explosion, timer and the best-time prompt, with the click, mark, reset and
  callback handlers;
- what each cell shows (`fieldLabel`), the three-digit counters, and the smiley;
- normalisation of requested board settings and the clamp behind it;
- the text under which the chosen game mode is remembered, with its parser;
- the best-time leaderboard: reading stored entries, the best-time test, the
  order-preserving merge of `updateLeaderboard`, and the per-group view.

Files:

- `utils.dfy`: `range`, `shuffled`, and an Option type.
- `geometry.dfy`: geometry.
- `jsvalue.dfy`: JavaScript numbers and parsed values.
- `math.dfy`: the math helpers.
- `decimal.dfy`: decimal text and `padStart`.
- `gameSettings.dfy`: settings normalisation.
- `types.dfy`: the shared value types.
- `minesweeper.dfy`: the counter text and the flood fill.
- `minefield.dfy`: the rules inside the minefield component.
- `minefieldUtils.dfy`: cell labels.
- `gameMode.dfy`: game modes and the remembered mode.
- `leaderboard.dfy`: the leaderboard.
- `game.dfy`: the game state and its handlers.

The flood fill is specified as the least set of cells that contains the
clicked cell, unless it is blocked, and is closed under "an unblocked
neighbour of a zero cell". A blocked cell is one already uncovered or
flagged. `IndexesToReveal` computes that set with a worklist loop. Its
invariant carries a ghost sequence recording the order in which cells were
found, and that order witnesses minimality.

The game state is the class `Game.Game`. Its invariant `Valid()` says:

- cells and bombs lie in the grid;
- nothing is uncovered exactly while the game awaits its first click;
- no uncovered cell carries a mark;
- an explosion is recorded exactly when the game is lost, at an uncovered bomb;
- until then no bomb is uncovered;
- a won game has every safe cell uncovered.

`Click` and `MarkNext` keep that invariant. `Click` also states, through
`RevealOutcome`, exactly what the click did to each slot.

Inputs the engine cannot compute are parameters:

- the random draws of `shuffled` are the parameter `choices`: one position
  among the items left, per step;
- the parsed storage values are parameters;
- the default player's name is a parameter.

The first click's queued reveal is carried out at once: the first click
places the bombs, starts the timer at 1 and then reveals.

## Model

| member | source | states |
|---|---|---|
| `Utils.Range` | src/utils/utils.ts:1 | `range(n)` has length n and holds i at position i |
| `Utils.RangeStrictlyIncreasing` | src/utils/utils.ts:1 | the keys of `range(n)` are distinct and strictly increasing |
| `Utils.Shuffled` | src/utils/utils.ts:3-8 | the shuffle has the input's length and the same multiset of items: it is a permutation, whatever the random draws |
| `Utils.ShuffledDistinct` | src/utils/utils.ts:3-8 | shuffling items that are pairwise different keeps them pairwise different |
| `Utils.ShuffledMembers` | src/utils/utils.ts:3-8 | an item is in the shuffle exactly when it is in the input |
| `Geometry.IndexPointRoundTrip` | src/utils/geometry.ts:12-21 | for 0 <= i < width*height, `indexToPoint(i)` lies in the matrix and `pointToIndex` of it is i |
| `Geometry.PointIndexRoundTrip` | src/utils/geometry.ts:12-21 | a point of the matrix has an index in [0, width*height), and `indexToPoint` of it is the point |
| `Geometry.PointToIndexInjective` | src/utils/geometry.ts:19-21 | two points of the matrix with the same index are the same point |
| `Geometry.PointsAround` | src/utils/geometry.ts:23-43 | `pointsAround` returns exactly eight points, one per offset in the order N, NE, E, SE, S, SW, W, NW |
| `Geometry.PointsAroundAreAdjacent` | src/utils/geometry.ts:23-43 | the eight points are exactly the points at an offset in {-1,0,1}² other than (0,0), each listed once |
| `Geometry.InMatrixOnly` | src/utils/geometry.ts:45-49 | the filter keeps exactly the points in the matrix and is no longer than its input |
| `Geometry.InMatrixOnlyDistinct` | src/utils/geometry.ts:45-49 | filtering keeps points that are pairwise different pairwise different |
| `Geometry.PointsAroundInMatrixCount` | src/utils/geometry.ts:45-49 | a cell has (columns around it)*(rows around it) - 1 neighbours in the matrix: from 3 at a corner to 8 inside, once the matrix is at least 2 by 2 |
| `Geometry.IndexesAroundInMatrixSpec` | src/utils/geometry.ts:51-59 | j is a neighbour index of cell i exactly when j is a cell whose point touches i's point and is not i's point |
| `Geometry.IndexesAroundInMatrixInGrid` | src/utils/geometry.ts:51-59 | the neighbour indexes of any index are cells of the matrix |
| `Geometry.NeighbourSymmetric` | src/utils/geometry.ts:23-59 | a cell is never its own neighbour, and j neighbours i exactly when i neighbours j |
| `Geometry.IndexesAroundDistinct` | src/utils/geometry.ts:51-59 | the neighbour indexes of a cell are listed once each, and there are at most eight |
| `JsValues.Trunc` | src/utils/gameSettings.ts:11 | `Math.trunc` leaves no fractional part and keeps an integer as it is |
| `MathUtils.ClampNumber` | src/utils/math.ts:3-13 | the result is the value, min or max; it lies in [min, max] when min <= max; a value already in range comes back unchanged |
| `MathUtils.ClampIdempotent` | src/utils/math.ts:3-13 | clamping twice into a non-empty range is clamping once |
| `MathUtils.ClampMonotone` | src/utils/math.ts:3-13 | clamping into a non-empty range never reverses the order of two values |
| `MathUtils.IsLikeIntIffDigit` | src/utils/math.ts:1 | because the pattern is not anchored, `isLikeInt` holds exactly when the text contains an ASCII digit |
| `Decimal.DecimalString` | src/utils/minesweeper.ts:11 | `String(n)` of a non-negative integer is a non-empty string of digits |
| `Decimal.DecimalStringRoundTrip` | src/utils/gameMode.ts:140-146 | `String(n)` matches the pattern `[1-9]\d*` or `0`, and `Number` reads it back as n |
| `Decimal.CanonicalDecimalRoundTrip` | src/utils/gameMode.ts:88 | a string matching `[1-9]\d*` or `0` is `String` of its value: the canonical text of a number is unique |
| `Decimal.DecimalStringLength` | src/utils/minesweeper.ts:8-11 | `String(n)` has at most k digits exactly when n < 10^k |
| `Decimal.PadStartShape` | src/utils/minesweeper.ts:11 | `padStart` keeps the text at the end, fills the front with the filler, and makes it at least `len` long |
| `MinesweeperUtils.ZeroPadded` | src/utils/minesweeper.ts:11 | a value below 10^len padded with zeros is len digits that read back as the value |
| `MinesweeperUtils.NumberToDigitalScreen` | src/utils/minesweeper.ts:6-18 | the screen is at least length characters: digits only for a number >= 0, '-' and then digits for a negative one |
| `MinesweeperUtils.DigitalScreenNonNegative` | src/utils/minesweeper.ts:7-12 | n >= 0 shows as exactly len digits whose value is min(n, 10^len - 1) |
| `MinesweeperUtils.DigitalScreenNegative` | src/utils/minesweeper.ts:14-17 | n < 0 with len >= 2 shows as '-' and len - 1 digits whose value is (-n) mod 10^(len-1): len characters in all |
| `MinesweeperUtils.IndexesToReveal` | src/utils/minesweeper.ts:20-46 | the flood fill terminates and returns the least set that holds the unblocked clicked cell and every unblocked neighbour of each of its zero cells |
| `MinesweeperUtils.RevealResultUnique` | src/utils/minesweeper.ts:20-46 | the result of a click is determined: two least closed sets are equal |
| `MinesweeperUtils.RevealAvoidsBlocked` | src/utils/minesweeper.ts:30-32 | the fill never returns a cell that is already uncovered or flagged |
| `MinesweeperUtils.RevealContainsStart` | src/utils/minesweeper.ts:29-43 | the clicked cell is in the result exactly when it is neither uncovered nor flagged |
| `MinesweeperUtils.RevealBlockedStart` | src/utils/minesweeper.ts:30-32 | clicking an uncovered or flagged cell uncovers nothing |
| `MinesweeperUtils.RevealNonZeroStart` | src/utils/minesweeper.ts:34-40 | a hidden, unflagged cell whose schema entry is not 0 uncovers only itself |
| `MinesweeperUtils.RevealSpreadsFromZeros` | src/utils/minesweeper.ts:36-40 | every result cell other than the clicked one neighbours a result cell whose schema entry is 0 |
| `MinesweeperUtils.RevealInGrid` | src/utils/minesweeper.ts:36-40 | the fill uncovers cells of the grid only, apart from the clicked index itself |
| `MinesweeperUtils.RevealIdempotent` | src/utils/minesweeper.ts:30 | clicking again once the result is uncovered returns the empty set |
| `MinefieldUtils.FieldLabelOf` | src/components/Minefield/minefieldUtils.ts:6-46 | an index outside the schema is an error; on a win a bomb shows a flag; on a loss an unflagged bomb shows a bomb; "mistake" appears exactly on a loss at a flagged safe cell; an unmarked hidden cell shows nothing unless the game is over and it is a bomb |
| `MinefieldUtils.LabelOfMarkOrEntry` | src/components/Minefield/minefieldUtils.ts:21-45 | in any status, a cell that is neither a bomb after a win nor, after a loss, an unflagged bomb or a flagged safe cell shows its mark, else nothing while hidden, else its schema entry; while the game is not over that is every cell |
| `MinefieldUtils.LossShowsEveryBomb` | src/components/Minefield/minefieldUtils.ts:25-33 | after a loss every bomb shows as a bomb or a flag, and as a flag exactly when it is flagged |
| `Minefield.CountIn` | src/components/Minefield/Minefield.tsx:35 | the count of bomb indexes is at most the number of indexes |
| `Minefield.CountInDistinct` | src/components/Minefield/Minefield.tsx:27-36 | counting a list without repeats counts the bombs among its elements |
| `Minefield.SchemaOf` | src/components/Minefield/Minefield.tsx:64-72 | the mapped list has one entry per index, and an entry is "bomb" exactly when its index is a bomb |
| `Minefield.Schema` | src/components/Minefield/Minefield.tsx:60-75 | the schema has width*height entries, and entry i is "bomb" exactly when i is a bomb |
| `Minefield.SchemaAt` | src/components/Minefield/Minefield.tsx:64-72 | entry i of the schema is the entry computed for cell i |
| `Minefield.SchemaCount` | src/components/Minefield/Minefield.tsx:27-36 | a safe cell's entry is the number of its neighbour cells holding bombs, at most 8 |
| `Minefield.ZeroHasNoBombAround` | src/components/Minefield/Minefield.tsx:27-36 | a cell whose entry is 0 has no bomb among its neighbours |
| `Minefield.RevealFromSafeCellIsSafe` | src/components/Minefield/Minefield.tsx:103-112 | a click on a safe cell uncovers no bomb |
| `Minefield.NextMark` | src/components/Minefield/Minefield.tsx:180-184 | the next mark always differs from the previous one, and is a question mark only when question marks are on |
| `Minefield.MarkCycle` | src/components/Minefield/Minefield.tsx:180-184 | no mark becomes a flag; a flag becomes a question mark when question marks are on and no mark otherwise; a question mark becomes no mark; so the marks return to none after three steps with question marks on, after two without |
| `Minefield.BombsAroundCount` | src/components/Minefield/Minefield.tsx:27-36 | a cell has at most 8 bombs around it |
| `Minefield.IsFieldMarkable` | src/components/Minefield/Minefield.tsx:77-83 | no cell is markable once the game is won or lost, and no uncovered cell is |
| `Minefield.IsFieldClickable` | src/components/Minefield/Minefield.tsx:85-88 | a clickable cell is markable; a flagged cell is never clickable; a cell with a question mark is clickable exactly when it is markable |
| `Minefield.Aftermath` | src/components/Minefield/Minefield.tsx:117-123 | the aftermath is an explosion exactly when the cell is a bomb, and a win exactly when the cell is safe and the new cells number all cells less the bombs and the cells already uncovered |
| `Minefield.WinIffAllSafeRevealed` | src/components/Minefield/Minefield.tsx:114-123 | on a safe cell the count test of the aftermath is "win" exactly when the uncovered and new cells are all the safe cells |
| `Minefield.FieldsToUnmark` | src/components/Minefield/Minefield.tsx:127-133 | the loop collects exactly the newly uncovered cells that carry a question mark |
| `Game.Without` | src/components/Minesweeper/Minesweeper.tsx:44-46 | the filter keeps exactly the indexes other than the start index |
| `Game.FieldIndexesShape` | src/components/Minesweeper/Minesweeper.tsx:43-46 | the candidate cells are distinct and are the grid's cells less the start index, width*height - 1 of them |
| `Game.SliceEnd` | src/components/Minesweeper/Minesweeper.tsx:49 | `slice(0, end)` stops at end when it lies in [0, len], at len beyond, and never past len |
| `Game.CreateBombs` | src/components/Minesweeper/Minesweeper.tsx:37-51 | the bombs are cells of the grid, and the first-clicked cell is never one |
| `Game.CreateBombsCount` | src/components/Minesweeper/Minesweeper.tsx:37-51 | as many bombs as asked for are placed when bombsCount <= width*height - 1, otherwise width*height - 1 |
| `Game.StatusToSmiley` | src/components/Minesweeper/Minesweeper.tsx:130-147 | the face is dead exactly on a loss, cool exactly on a win, surprised exactly while pressing the field during a game, unless the smiley itself is pressed |
| `Game.FlagsCount` | src/components/Minesweeper/Minesweeper.tsx:243-245 | the number of flags is at most the number of marks |
| `Game.FlagsCountAfterMark` | src/components/Minesweeper/Minesweeper.tsx:243-245 | after `onMark` the flag count goes up by one for a new flag and down by one for a flag taken off |
| `Game.MineCounter` | src/components/Minesweeper/Minesweeper.tsx:351-355 | the mine counter is three characters: with no more flags than bombs, digits reading bombs - flags capped at 999; with more flags, '-' and two digits reading the excess of flags modulo 100 |
| `Game.Game.constructor` | src/components/Minesweeper/Minesweeper.tsx:72-100 | a new game awaits its first click with nothing uncovered, no bombs, no marks, no explosion, timer 0 |
| `Game.Game.Reset` | src/components/Minesweeper/Minesweeper.tsx:149-160 | restart or a change of mode gives status awaiting, nothing uncovered, no bombs, no marks, no explosion, timer 0, keeping the invariant |
| `Game.Game.TimerTick` | src/hooks/useTimer.ts:15-27 | one tick adds one to the timer and keeps the invariant |
| `Game.Game.OnReveal` | src/components/Minesweeper/Minesweeper.tsx:397-404 | the status becomes playing and the uncovered cells become the old ones plus the new ones |
| `Game.Game.OnAfterReveal` | src/components/Minesweeper/Minesweeper.tsx:208-241 | continue changes nothing; win sets won; explosion sets lost and records the cell; the best-time prompt opens exactly on a win in a leaderboard group whose time passes the best-time test as written, and is otherwise left as it was |
| `Game.Game.OnMark` | src/components/Minesweeper/Minesweeper.tsx:406-419 | a mark is set at the cell, or removed for none; every other cell keeps its mark |
| `Game.Game.OnAutoUnmark` | src/components/Minesweeper/Minesweeper.tsx:420-430 | exactly the given cells lose their marks |
| `Game.Game.MarkNext` | src/components/Minefield/Minefield.tsx:179-190 | on a markable cell the mark moves one step along the cycle; on any other cell nothing changes; the invariant is kept |
| `Game.Game.Click` | src/components/Minefield/Minefield.tsx:90-138 | a click on a cell that is not clickable changes nothing; the first click places the bombs away from the cell and starts the timer, and is never lost; a click reveals the flood fill from the cell, loses on a bomb with the explosion there, wins exactly when every safe cell is uncovered, removes the question marks on the new cells, and opens the best-time prompt exactly on a win whose time passes the best-time test as written; the invariant is kept |
| `Game.Game.Reveal` | src/components/Minefield/Minefield.tsx:103-137 | the reveal after the gate: the new cells are the flood fill, the status, explosion and marks are as the aftermath and auto-unmark set them, and the best-time prompt opens exactly on a win whose time passes the best-time test as written |
| `Game.RevealStep` | src/components/Minefield/Minefield.tsx:103-133 | the fill, aftermath and cells to unmark that one reveal computes give the outcome stated for `Click` and a state that keeps the invariant |
| `Game.RevealKeepsValid` | src/components/Minefield/Minefield.tsx:114-137 | applying a fill of fresh unflagged cells, its aftermath and the auto-unmark keeps the invariant, and the status is lost on a bomb, won when every safe cell is uncovered, playing otherwise |
| `Game.ClickFacts` | src/components/Minefield/Minefield.tsx:103-123 | the fill from a clickable cell holds that cell, only fresh unflagged cells of the grid, no bomb unless the cell is one, and the count test wins exactly when every safe cell is uncovered |
| `GameModes.Ids` | src/utils/gameMode.ts:11-13 | the id list has one id per mode, in order |
| `GameModes.WithSettings` | src/utils/gameMode.ts:19-21 | the filter keeps exactly the modes with (or without) settings |
| `GameModes.AllIdsList` | src/data/gameModes.ts:3-32 | the mode ids are beginner, intermediate, expert and custom, in that order |
| `GameModes.PresetsList` | src/utils/gameMode.ts:19-21 | the presets are beginner 9x9/10, intermediate 16x16/40 and expert 30x16/99, in that order |
| `GameModes.CustomsList` | src/utils/gameMode.ts:48-50 | the only mode without settings is custom |
| `GameModes.ModeIdTest` | src/utils/gameMode.ts:15-17 | `isGameModeId` holds exactly for the four mode ids |
| `GameModes.PresetIdTest` | src/utils/gameMode.ts:31-33 | `isGameModePresetId` holds exactly for beginner, intermediate and expert |
| `GameModes.GameModeIdTests` | src/utils/gameMode.ts:11-62 | the three id tests are membership in all ids, in the preset ids and in the custom ids |
| `GameModes.PresetsNormalized` | src/data/gameModes.ts:3-32 | every preset's settings are already normalised |
| `GameModes.FindById` | src/utils/gameMode.ts:76-78 | `find` by id returns a mode of the list with that id, and nothing exactly when no mode has the id |
| `GameModes.DefaultGameModePreset` | src/utils/gameMode.ts:35-46 | the default preset is beginner: the `find` never fails |
| `GameModes.MatchStoragePatternSound` | src/utils/gameMode.ts:88-89 | what the matcher returns is a match of the anchored pattern `id:w,h,b` with canonical numbers and an id without line terminators |
| `GameModes.MatchStoragePatternComplete` | src/utils/gameMode.ts:88-89 | every match of the anchored pattern is found, with its groups |
| `GameModes.MatchStoragePatternJoined` | src/utils/gameMode.ts:88-89 | on `id:w,h,b` whose numbers hold no separator, the matcher splits at the separators written and accepts exactly when each group is well formed |
| `GameModes.MatchStoragePatternSpec` | src/utils/gameMode.ts:88-89 | the matcher returns exactly the groups the anchored pattern defines |
| `GameModes.ParseStorageGameMode` | src/utils/gameMode.ts:68-126 | nothing stored parses to nothing; whatever parses is a mode of the game with normalised settings |
| `GameModes.RememberGameModePreset` | src/utils/gameMode.ts:131-136 | the stored value is a preset id, and looking that id up among the presets finds the preset stored |
| `GameModes.RememberGameModeCustom` | src/utils/gameMode.ts:138-151 | the stored value is the mode id, ':', and then the width, height and bombs joined by commas |
| `GameModes.PresetRoundTrip` | src/utils/gameMode.ts:75-85 | the stored preset id parses back to that preset with its settings |
| `GameModes.CustomTextMatches` | src/utils/gameMode.ts:140-146 | the text stored for custom settings with no negative number matches the pattern with the custom id and the decimal numbers |
| `GameModes.CustomRoundTrip` | src/utils/gameMode.ts:87-125 | the text stored for custom settings with no negative number parses back to the custom mode with the settings normalised |
| `GameModes.NormalizedCustomRoundTrip` | src/utils/gameMode.ts:138-151 | normalised custom settings are stored and parsed back unchanged |
| `GameModes.ColonNotModeId` | src/utils/gameMode.ts:75 | text holding ':' is never a mode id, so `id:w,h,b` never takes the preset branch |
| `GameModes.ParseRejectsNonCustom` | src/utils/gameMode.ts:91-105 | text that is no preset id and no pattern match with the custom id parses to nothing |
| `GameModes.PresetWithNumbersRejected` | src/utils/gameMode.ts:97-105 | a preset id followed by `:w,h,b` parses to nothing |
| `GameModes.LeadingZeroRejected` | src/utils/gameMode.ts:88-93 | a number with a leading zero, such as `custom:09,9,10`, parses to nothing |
| `Settings.NormalizeValue` | src/utils/gameSettings.ts:4-15 | the result lies in [min, max]; an integer in range is kept; NaN counts as 0; an integer, or a fraction by its truncation, is clamped to [min, max]; +Infinity gives max and -Infinity gives min |
| `Settings.MaxBombsAtLeast` | src/utils/gameSettings.ts:23 | a board of at least 9 by 9 allows at least 64 bombs, above the minimum of 10 |
| `Settings.NormalizeGameSettings` | src/utils/gameSettings.ts:17-31 | width in [9,30], height in [9,24], bombs in [10, (width-1)*(height-1)] of the normalised width and height |
| `Settings.NormalizeKeepsNormalized` | src/utils/gameSettings.ts:4-31 | settings already in range come back unchanged |
| `Settings.NormalizeIdempotent` | src/utils/gameSettings.ts:17-31 | normalising twice is normalising once |
| `Settings.NaNBecomesMinimum` | src/utils/gameSettings.ts:7-9 | a NaN width, height or bomb count becomes the minimum |
| `Settings.NormalizeExample` | src/utils/gameSettings.ts:17-31 | {5, 999, -1} normalises to {9, 24, 10} |
| `Settings.NormalizedBombsFit` | src/utils/gameSettings.ts:23-24 | normalised settings leave at least one safe cell, so the first click can be safe |
| `Leaderboard.GroupIds` | src/hooks/useLeaderboard.ts:12-14 | the group ids are pairwise different |
| `Leaderboard.GroupIdsArePresets` | src/hooks/useLeaderboard.ts:12-14 | the group ids are the ids of the preset modes, in order |
| `Leaderboard.LeaderboardGroupIds` | src/hooks/useLeaderboard.ts:18-21 | `isLeaderboardGroupId` accepts exactly the strings beginner, intermediate and expert, never custom |
| `Leaderboard.ToEntry` | src/hooks/useLeaderboard.ts:23-47 | a valid storage item reads as an entry with a known group and a positive time |
| `Leaderboard.EntryValueRoundTrip` | src/hooks/useLeaderboard.ts:23-47 | an entry's stored array is a valid item exactly when the entry is valid, and reads back as the entry |
| `Leaderboard.StorageItemIsEntryValue` | src/hooks/useLeaderboard.ts:23-47 | a value passes `isLeaderboardStorageItem` exactly when it is the array some valid entry is stored as |
| `Leaderboard.ToEntryRoundTrip` | src/hooks/useLeaderboard.ts:23-47 | a valid item read as an entry is written back as the same array |
| `Leaderboard.FilterEntries` | src/hooks/useLeaderboard.ts:71 | the filter keeps only valid entries and is no longer than its input |
| `Leaderboard.FilterEntriesMembers` | src/hooks/useLeaderboard.ts:71 | an entry is read exactly when its array is stored and it is valid |
| `Leaderboard.StorageLeaderboard` | src/hooks/useLeaderboard.ts:58-77 | only valid entries are read; a missing or unreadable value, or one that is not an array, gives none |
| `Leaderboard.StorageRoundTrip` | src/hooks/useLeaderboard.ts:123-126 | valid entries written to storage read back unchanged, in order |
| `Leaderboard.FindGroup` | src/hooks/useLeaderboard.ts:85-87 | the lookup finds an entry of the group, and nothing exactly when the group has none |
| `Leaderboard.FindGroupFirst` | src/hooks/useLeaderboard.ts:85-87 | the entry found is the first entry of the group |
| `Leaderboard.IsBestLeaderboardTimeAsWritten` | src/hooks/useLeaderboard.ts:79-96 | a negative time is never a best time; without a stored entry for the group every other time is; with one, a time is a best time exactly when it is non-negative and below the stored time |
| `Leaderboard.IsBestLeaderboardTime` | src/hooks/useLeaderboard.ts:109-116 | the corrected test of the Findings, a time the merge stores: a best time is below 999 unless the group has a stored entry |
| `Leaderboard.BestTimeCorrection` | src/hooks/useLeaderboard.ts:79-96 | with a stored entry the corrected test agrees with the test as written: non-negative and below the stored time; without one it asks 0 <= time < 999 |
| `Leaderboard.StoredPlayer` | src/hooks/useLeaderboard.ts:112 | the default player's name is stored as null, any other name as itself |
| `Leaderboard.MergedOrdered` | src/hooks/useLeaderboard.ts:103-121 | the merged list holds only groups of the ids, in their order, at most one entry each |
| `Leaderboard.MergedLookup` | src/hooks/useLeaderboard.ts:104-120 | in the merged list a group holds the new entry when the time beats its previous time (999 by default), its first stored entry otherwise |
| `Leaderboard.MergedValid` | src/hooks/useLeaderboard.ts:109-119 | with a positive time, merging valid entries gives valid entries |
| `Leaderboard.UpdateLeaderboard` | src/hooks/useLeaderboard.ts:98-134 | the loop writes the merged list, or clears storage when it is empty, and reports an update exactly when the group is a leaderboard group and the time beats its previous time |
| `Leaderboard.UpdateThenRead` | src/hooks/useLeaderboard.ts:123-126 | after a merge with a positive time, storage reads back as exactly the merged list |
| `Leaderboard.BestTimeIsStored` | src/hooks/useLeaderboard.ts:109-116 | a best time is stored for the group; any other non-negative time leaves the group's entry as it was |
| `Leaderboard.BestTimeAsWrittenNotStored` | src/hooks/useLeaderboard.ts:89-91 | the test as written calls a time of 999 or more a best time in a group without an entry, yet the merge stores nothing for it |
| `Leaderboard.LeaderboardView` | src/hooks/useLeaderboard.ts:136-157 | the view has one row per leaderboard group |
| `Leaderboard.ViewRowsShow` | src/hooks/useLeaderboard.ts:136-157 | each row shows its group's stored time and player, or 999 and the default player; a time is a best time exactly when it is non-negative and below the row's time |
| `Leaderboard.EmptyLeaderboardView` | src/hooks/useLeaderboard.ts:136-157 | with nothing stored every row shows the default player and 999 |

## Left out

- Rendering, pointer and touch handling, the long-press timeout, audio, translation and menus are left out. They are UI and I/O with no game logic beyond the handlers modelled.
- The timer interval (`setInterval`, pausing, `Date`) is left out. The timer is a field; `TimerTick` adds one.
- The first click's queued reveal is not modelled as a separate state. The first click places the bombs, starts the timer and then reveals in the same call.
- `localStorage`, `JSON.parse` and `JSON.stringify` are left out. Stored values arrive already parsed (`Option<JsValue>`; `None` means missing or not JSON), and a write is returned as a `StorageWrite`.
- `Math.random` is left out. The caller supplies the shuffle as `choices`, and uniformity is not modelled.
- Floating point is not modelled. Numbers are integers, NaN, the infinities, or a fraction known by its truncation. `String()` of a non-integer and `Number()` of huge digit strings are not modelled.
- The translated group label of a leaderboard row is shown by the group id.
- The default player's name is a parameter, because it comes from the translations.
- `Game.CreateBombs` requires a grid with at least one cell. The game only builds such grids, because settings are normalised to at least 9 by 9.
- `MinesweeperUtils.NumberToDigitalScreen` requires length >= 1 for a negative number. With length 0 the source takes the remainder modulo 0.1, and the game always uses length 3.
- `Game.Game.MarkNext` models `onMarkNext` together with the markable gate of the right-click handler. The pointer event itself is left out.
- `Geometry.PointsAround` states only the number of points in its contract. The order N, NE, E, SE, S, SW, W, NW is fixed by the offset constant, and `Geometry.PointsAroundAreAdjacent` states the content.
- Browser plumbing hooks, settings persistence and the `jsonable` projections are not part of this model.

## Findings

| source | as written | input that shows it | evidently intended | confidence | as-written member | corrected member |
|---|---|---|---|---|---|---|
| src/hooks/useLeaderboard.ts:89-91 | `isBestLeaderboardTime` returns true for any time >= 0 when the group has no stored entry, but `updateLeaderboard` stores a time only when it is below 999, the default time | a win in beginner with no stored beginner entry at time 999 or later: the best-time prompt opens, then nothing is stored and the leaderboard still shows 999 | a best time is one the merge stores: 0 <= time < stored time, or < 999 without an entry | not executed | `Leaderboard.BestTimeAsWrittenNotStored` | `Leaderboard.BestTimeIsStored` |
