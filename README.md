# Puzzle board tiles, modelled in Dafny

This project models the tile-management core of the jigsaw puzzle board
component (`src/components/puzzle-board.tsx`). An image is sliced into a
`difficulty x difficulty` grid of pieces. Each piece knows the column and row
it belongs to. The board is a list of slots in row-major order, each holding
at most one piece. The remaining pieces wait in the piece bank. The player
moves pieces onto slots: by drag and drop, or, in touch mode, by tapping a
piece and then a slot. A bank piece placed on an occupied slot sends the
occupant to the bank. A board piece placed on an occupied slot swaps places
with it. A board piece dropped on the bank returns there and leaves its slot
empty. When the bank is empty and every slot holds its own piece, the puzzle
is complete, the timer stops and the final time is recorded.

The project has four modules:

- `Wrappers` (`wrappers.dfy`): the `Option` type.
- `TimeFormat` (`time_format.dfy`): the `mm:ss` timer label, with the decimal
  reading that inverts it.
- `Pieces` (`pieces.dfy`): pieces, slots, the grid a slice produces, the
  lookups the handlers perform, and the two placement rules as functions of
  the board and the bank (`Move` for a placement on a slot, `Return` for a
  drop on the bank). The lemmas prove what these rules promise:
  - every grid piece is owned exactly once, by the bank or by one slot;
  - a bank piece evicts the occupant to the bank;
  - a board piece swaps with the occupant;
  - a target outside the grid changes nothing;
  - completion holds exactly when the board is the solved picture.
- `Puzzle` (`puzzle_board.dfy`): the component's state as a class.
  - The board is an `array` of slots that the handlers overwrite in place.
  - The bank, the selection, the loading flag, the timer and the completion
    flags are fields.
  - Every handler keeps the invariant `Valid()` and is proved against the
    value-level rules in `Pieces`.
  - Play again (`PlayAgain`) sets the chosen difficulty and re-slices only
    when the difficulty changed. A short 1 x 1 game, from the slice to
    completion and a replay, is played out as methods.

The ownership invariant is stated as a multiset equation: the bank's pieces
plus the pieces held by the slots are exactly the pieces of the grid. Bank
order is not modelled, because the component reshuffles the bank at random
after every change.

A difficulty of zero or less runs the slicing loops zero times. The model
then has an empty grid, which never completes.

## Model

| member | source | states |
|---|---|---|
| TimeFormat.DigitChar | src/components/puzzle-board.tsx:86-87 | the character written for a digit is a decimal digit that reads back as that digit |
| TimeFormat.Decimal | src/components/puzzle-board.tsx:86-87 | the decimal rendering of a number is a non-empty string of digits that starts with '0' only for zero |
| TimeFormat.DecimalValue | src/components/puzzle-board.tsx:86-87 | reading the decimal rendering of n back gives n |
| TimeFormat.PadStart | src/components/puzzle-board.tsx:86-87 | padding keeps the string as the tail of the result, fills every position before it with the fill character, and makes the result at least the given width (exactly the width when the string is shorter) |
| TimeFormat.PadValue | src/components/puzzle-board.tsx:86-87 | zero-padding a digit string to width 2 keeps its digits' value and makes it at least 2 long |
| TimeFormat.FormatTime | src/components/puzzle-board.tsx:85-89 | the label has at least five characters: digits, a colon third from the end, then two digits |
| TimeFormat.FormatTimeFields | src/components/puzzle-board.tsx:85-89 | the label is a minutes field of at least two digits with value t div 60, a colon, and a seconds field of exactly two digits with value t mod 60 < 60; 60 * minutes + seconds == t |
| TimeFormat.FormatTimeRoundTrip | src/components/puzzle-board.tsx:85-89 | parsing the label back gives the elapsed seconds |
| TimeFormat.FormatTimeInjective | src/components/puzzle-board.tsx:85-89 | two different elapsed times never show the same label |
| Pieces.GridPieces | src/components/puzzle-board.tsx:138-142 | a slice of side n yields n*n pieces, piece k carrying id k |
| Pieces.EmptyBoard | src/components/puzzle-board.tsx:144 | a slice of side n lays out n*n slots, all empty |
| Pieces.SolvedBoard | src/components/puzzle-board.tsx:188-193 | the solved board has the slice's layout and puts grid piece k on slot k |
| Pieces.GenerateGrid | src/components/puzzle-board.tsx:120-146 | the nested row and column loops, each running while its counter is below the difficulty, produce exactly `difficulty` x `difficulty` pieces and empty slots in row-major order, each piece's id the row times the difficulty plus the column; a difficulty that is not positive produces nothing |
| Pieces.GridPiecesSpec | src/components/puzzle-board.tsx:120-146 | the grid has n*n pieces and n*n slots; piece k has id k; its coordinates lie in the grid; the piece and slot at index y*n+x belong to column x, row y; no two pieces share a cell |
| Pieces.GridOnce | src/components/puzzle-board.tsx:137-142 | every grid piece occurs exactly once in the grid |
| Pieces.FindSlot | src/components/puzzle-board.tsx:205 | the result is the first slot with the given coordinates, and None exactly when no slot has them |
| Pieces.FindSlotInLayout | src/components/puzzle-board.tsx:205-206 | on a board laid out by a slice, the slot for (x, y) is found exactly when x and y are in the grid, at index y*n+x |
| Pieces.FindOrigin | src/components/puzzle-board.tsx:220 | the origin slot is found exactly when both coordinates are present and some slot has them; the slot found has them |
| Pieces.FindHolder | src/components/puzzle-board.tsx:252 | the index found is the first slot, in board order, holding a piece with the id; nothing is found exactly when no slot holds one |
| Pieces.FindPiece | src/components/puzzle-board.tsx:252 | the piece found has the id and is the piece of the first slot, in board order, that holds a piece with that id; nothing is found exactly when no slot holds one |
| Pieces.FindInBank | src/components/puzzle-board.tsx:251 | a piece found in the bank is in the bank and has the id; nothing is found exactly when no bank piece has that id |
| Pieces.Without | src/components/puzzle-board.tsx:215 | the filtered bank holds exactly the bank pieces with a different id, and together with the pieces taken out it is the bank as a multiset: every copy of a kept piece survives |
| Pieces.WithId | src/components/puzzle-board.tsx:215 | the pieces the filter takes out are exactly the bank pieces with the id |
| Pieces.WithoutOne | src/components/puzzle-board.tsx:215 | when the piece is the only bank piece with its id, the filter removes every copy of it and nothing else |
| Pieces.Placed | src/components/puzzle-board.tsx:189 | the list of pieces the board holds is no longer than the board |
| Pieces.PlacedMembers | src/components/puzzle-board.tsx:189 | a piece is among the board's pieces exactly when some slot holds it |
| Pieces.PlacedCount | src/components/puzzle-board.tsx:189 | the board holds as many pieces as it has slots exactly when every slot holds a piece |
| Pieces.EmptyBoardOwned | src/components/puzzle-board.tsx:147-149 | a fresh slice, all pieces in the bank and every slot empty, satisfies the layout and the one-owner invariant |
| Pieces.Move | src/components/puzzle-board.tsx:203-229 | a placement never changes the slots' coordinates or their number; a placement from the board never changes the bank |
| Pieces.MovePreservesOwnership | src/components/puzzle-board.tsx:203-229 | a placement of a piece that really is where its origin says keeps the layout and the one-owner invariant |
| Pieces.BankMoveEvicts | src/components/puzzle-board.tsx:205-218 | a bank piece placed on an in-grid slot fills that slot and no other; it leaves the bank; the former occupant joins the bank; the bank multiset loses the piece and gains the occupant |
| Pieces.BoardMoveSwaps | src/components/puzzle-board.tsx:205-224 | a board piece placed on an in-grid slot fills it and its origin slot receives the former occupant, both slots keeping their coordinates; the other slots and the bank are unchanged; a placement on its own slot changes nothing |
| Pieces.MoveOffGridIsNoop | src/components/puzzle-board.tsx:205-206 | a placement on coordinates outside the grid changes neither the board nor the bank |
| Pieces.Return | src/components/puzzle-board.tsx:272-282 | a drop on the bank never changes the slots' coordinates; it changes nothing, or appends one piece with the dragged id to the bank, keeping the bank before it; a slot it changes is emptied |
| Pieces.ReturnPreservesOwnership | src/components/puzzle-board.tsx:272-282 | returning a board piece named by its own slot keeps the layout and the one-owner invariant |
| Pieces.ReturnEmptiesSlot | src/components/puzzle-board.tsx:272-282 | returning a board piece empties its slot, leaves every other slot alone and appends the piece to the bank |
| Pieces.IsBoardFull | src/components/puzzle-board.tsx:189 | the board is full exactly when every slot in it holds a piece, the `every` of the completion check; `PlacedCount` ties it to the number of placed pieces |
| Pieces.IsPuzzleCorrect | src/components/puzzle-board.tsx:191-193 | a board with every slot holding its own piece is full |
| Pieces.CompletionFires | src/components/puzzle-board.tsx:188-193 | the completion condition is: loaded, pieces sliced, bank empty, every slot holding its own piece; the full-board test is implied by the correctness test |
| Pieces.BankEmptyFillsBoard | src/components/puzzle-board.tsx:188-189 | under the one-owner invariant, an empty bank means every slot holds a piece |
| Pieces.CompletionMeansSolved | src/components/puzzle-board.tsx:187-199 | when the completion check fires, the board is the solved board (every slot holding its own piece) and the bank is empty |
| Pieces.SolvedMeansCompletion | src/components/puzzle-board.tsx:187-199 | the solved board with an empty bank makes the completion check fire |
| Pieces.CompletionIffSolved | src/components/puzzle-board.tsx:187-199 | under the invariant, the completion check fires exactly when the board is the solved picture and the bank is empty |
| Puzzle.NewBoard | src/components/puzzle-board.tsx:148 | the new board array holds exactly the given slots |
| Puzzle.PuzzleBoard.constructor | src/components/puzzle-board.tsx:54-73 | the initial state: loading, no pieces, empty board and bank, no selection, timer stopped at zero, not complete |
| Puzzle.PuzzleBoard.SliceAndShuffleImage | src/components/puzzle-board.tsx:91-154 | an image that is not ready changes nothing; a missing drawing context leaves the board loading with the timer stopped at zero; otherwise the grid is rebuilt with every piece in the bank and every slot empty, the timer reset and running, completion and selection cleared |
| Puzzle.PuzzleBoard.BeginLoading | src/components/puzzle-board.tsx:93-95 | the start of a slice turns loading on, stops the timer and resets the time to zero, leaving the tiles and the invariant intact |
| Puzzle.PuzzleBoard.Rebuild | src/components/puzzle-board.tsx:120-153 | the grid pieces and the empty board of the current difficulty are installed, the bank holds all pieces, the invariant holds |
| Puzzle.PuzzleBoard.MovePiece | src/components/puzzle-board.tsx:203-229 | the new board and bank are Move of the old ones, the invariant is kept, and the selection is cleared unless the target slot is missing |
| Puzzle.PuzzleBoard.PlaceFromBank | src/components/puzzle-board.tsx:208-218 | the target slot holds the piece, the bank drops the piece and gains the former occupant, the invariant is kept |
| Puzzle.PuzzleBoard.Install | src/components/puzzle-board.tsx:211-217 | the write helper of a move from the bank and of a return: slot i takes the new slot value, the bank becomes the given bank and the selection is cleared, every other slot unchanged |
| Puzzle.PuzzleBoard.PlaceFromBoard | src/components/puzzle-board.tsx:208-224 | the target slot holds the piece and the origin slot, looked up after the placement, holds the former occupant; the invariant is kept |
| Puzzle.PuzzleBoard.InstallPair | src/components/puzzle-board.tsx:211-228 | the write helper of a move between board slots: slot i and then slot o take their new values and the selection is cleared; the bank and every other slot are unchanged |
| Puzzle.PuzzleBoard.HandleDrop | src/components/puzzle-board.tsx:242-260 | outside touch mode, the piece with the dragged id is looked up in its origin and moved as Move says; in touch mode or when the id is not found nothing changes |
| Puzzle.PuzzleBoard.HandlePieceBankDrop | src/components/puzzle-board.tsx:262-284 | outside touch mode, a piece dragged from the board and found there returns to the bank as Return says and the selection is cleared; any other drop changes nothing |
| Puzzle.PuzzleBoard.ReturnPiece | src/components/puzzle-board.tsx:275-283 | with the dragged piece found, the tiles become `Return` of the old tiles (the origin slot emptied, the piece appended to the bank) and the selection is cleared |
| Puzzle.PuzzleBoard.HandlePieceClick | src/components/puzzle-board.tsx:286-296 | in touch mode, tapping the selected piece deselects it and tapping another piece selects it with where it was tapped; outside touch mode nothing changes |
| Puzzle.PuzzleBoard.HandleSlotClick | src/components/puzzle-board.tsx:298-301 | in touch mode with a selection, the selected piece is moved to the tapped slot as Move says; otherwise nothing changes |
| Puzzle.PuzzleBoard.PlayAgain | src/components/puzzle-board.tsx:307-319 | play again clears completion and sets the chosen difficulty; the slice runs only when the difficulty changed and the board is not loading, with the slice's outcomes; otherwise the tiles, the timer and the selection stay as they were |
| Puzzle.PuzzleBoard.PlayAgainReslicing | src/components/puzzle-board.tsx:307-312 | the corrected play again: completion cleared, the difficulty set, and the slice runs whenever the board is not loading, also for the current difficulty |
| Puzzle.PuzzleBoard.Tick | src/components/puzzle-board.tsx:173-185 | one timer tick adds a second exactly while the timer runs and the puzzle is not complete |
| Puzzle.PuzzleBoard.CheckCompletion | src/components/puzzle-board.tsx:187-201 | when the check fires the puzzle becomes complete, the timer stops and the final time is the current time; otherwise nothing changes; a newly completed puzzle is the solved board with an empty bank |
| Puzzle.OneByOneDrop | src/components/puzzle-board.tsx:203-218 | on the 1 x 1 grid, the only piece placed from the bank on the only slot fills it and empties the bank |
| Puzzle.OneByOneSolved | src/components/puzzle-board.tsx:187-199 | the 1 x 1 board holding its only piece is the solved board and fires completion |
| Puzzle.SliceOneByOne | src/components/puzzle-board.tsx:91-171 | a new 1 x 1 board, sliced, has its only piece in the bank, its only slot empty and the timer running from zero |
| Puzzle.StartOneByOne | src/components/puzzle-board.tsx:91-185 | a new 1 x 1 board, sliced and one second in, has its only piece in the bank, the timer running at one second |
| Puzzle.DropOnlyPiece | src/components/puzzle-board.tsx:242-260 | dragging that piece onto the only slot fills the board and empties the bank |
| Puzzle.CompleteOneByOne | src/components/puzzle-board.tsx:187-260 | on that board one second in, dropping the piece and the completion effect leave the solved board, an empty bank, the game complete and a final time of one second |
| Puzzle.FinishOneByOne | src/components/puzzle-board.tsx:187-201 | the completion effect on that board marks it complete, stops the timer and records the time |
| Puzzle.SolveOneByOne | src/components/puzzle-board.tsx:91-201 | a whole 1 x 1 game ends complete, solved, with the timer stopped and a final time of one second |
| Puzzle.ReplaySameDifficulty | src/components/puzzle-board.tsx:307-319 | playing a solved 1 x 1 game again at its own difficulty leaves the solved board and the empty bank, the timer stopped, completion cleared |
| Puzzle.ReplaySameDifficultyReslicing | src/components/puzzle-board.tsx:307-312 | with the corrected play again, the same replay gives a fresh game: every slot empty, every piece in the bank, the timer running from zero |

## Left out

- Piece images, the canvas, image decoding and the board and piece sizes are left out. They are canvas drawing and floating-point layout that no placement rule reads. `SliceAndShuffleImage` takes two booleans instead: whether the image is ready and whether a drawing context exists.
- The random shuffles of the bank are left out: after a slice (line 149), after every move (line 227) and after every return (line 282). The model keeps the unshuffled order instead: a slice leaves the bank in grid order, and a returned or evicted piece goes last. Contracts that state the bank as a sequence (`bank == pieces`, `Without(...) + Held(...)`, `t.bank + [piece]`) describe this unshuffled order. Only the multiset of the bank, and membership in it, is a property of the component. No placement rule or completion test reads the bank's order.
- The media query that switches touch mode on is left out. Every handler takes `touch` as a parameter instead.
- Drag payloads are left out: the data-transfer strings and their decimal parsing. Handlers take the payload already parsed. A coordinate that failed to parse, or was never set, is `None`, which matches no slot. A payload whose origin is neither bank nor board is not modelled.
- HandleDrop and HandlePieceBankDrop require that a payload with board origin names the slot that really holds the dragged piece. A drag started from a board slot always carries that slot's coordinates, so this is the only payload the component produces.
- HandlePieceClick requires that a newly selected piece really is where its origin says. The bank and board tiles only ever pass their own piece and position.
- React's render scheduling is left out. Each handler runs to completion on the current state, and the completion effect is an explicit `CheckCompletion` call. The one-second interval is the `Tick` method.
- The drag-over highlight, the dialogs, the difficulty selector and the rendering are left out. They are presentation only.
- `resetPuzzle` (lines 303-305) is not a method of its own: it only calls the slicing step, which `SliceAndShuffleImage` models.
- The completion dialog's button for another difficulty (lines 442-444) only clears completion and opens the difficulty dialog. The dialogs themselves are presentation and are left out.
- The difficulty chosen in the dialog is parsed from the selector's value (line 310). The selector offers only 3, 4, 5 and 8, so `PlayAgain` takes the parsed integer. A value that fails to parse is not modelled.
- The completion effect re-runs only when the board, the pieces, the loading flag, the time or the bank size change (line 201). The model calls `CheckCompletion` explicitly instead, so it does not capture that clearing completion on a solved board does not re-run the check.
- The re-slice on a repeated image `load` event is not modelled. A difficulty change gives `sliceAndShuffleImage` a new identity (line 154), so the effect at lines 156-170 assigns the image source again (line 165). The next `load` event then slices through lines 160-161 with no loading guard. While the board is still loading, which happens only after a missing drawing context (line 100), this can re-slice where `PlayAgain` says nothing happens.
- The other components and pages (`src/app/page.tsx`, `src/app/puzzle/page.tsx`, the logo) are not part of this model.

## Findings

| source | as written | input that shows it | evidently intended | confidence | as-written member | corrected member |
|---|---|---|---|---|---|---|
| src/components/puzzle-board.tsx:307-319 | play again relies on the difficulty effect to slice, but that effect runs only when the difficulty changes; choosing the current difficulty, which the dialog preselects (line 71), clears completion and leaves the solved board with the timer stopped | a solved 1 x 1 game played again with difficulty 1 | play again starts a fresh slice, as the comment on line 311 says | medium, not executed | Puzzle.PuzzleBoard.PlayAgain, Puzzle.ReplaySameDifficulty | Puzzle.PuzzleBoard.PlayAgainReslicing, Puzzle.ReplaySameDifficultyReslicing |
