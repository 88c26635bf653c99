/**
 * The state of the puzzle board component and its handlers. Each handler runs
 * to completion on the current state; the board is an array of slots that the
 * move handlers overwrite slot by slot, the bank a sequence they reassign.
 */
module Puzzle {
  import opened Wrappers
  import opened Pieces

  /** A tapped piece and where it was tapped: the bank, or the board slot (fromX, fromY). */
  datatype Selection = Selection(piece: Piece, origin: Origin, fromX: Option<int>, fromY: Option<int>)

  /** A selection names where its piece really is. */
  predicate SelectionHolds(t: Tiles, selection: Option<Selection>) {
    selection.Some? ==>
      MoveAllowed(t, selection.value.piece, selection.value.origin, selection.value.fromX, selection.value.fromY)
  }

  /**
   * The pieces are the n x n grid's; the board lists the grid's cells in row-major
   * order; every piece is in the bank or in one slot, exactly once; a selection
   * names where its piece really is.
   */
  predicate TilesValid(n: nat, pieces: seq<Piece>, t: Tiles, selection: Option<Selection>) {
    && pieces == GridPieces(n)
    && InLayout(t.board, n)
    && Owned(t, n)
    && SelectionHolds(t, selection)
  }

  /** A bank move keeps the tiles consistent and leaves nothing selected. */
  lemma BankMoveValid(n: nat, pieces: seq<Piece>, t: Tiles, selection: Option<Selection>, piece: Piece, i: nat)
    requires TilesValid(n, pieces, t, selection)
    requires piece in t.bank && i < |t.board|
    ensures TilesValid(n, pieces, Tiles(t.board[i := t.board[i].(piece := Some(piece))], Without(t.bank, piece.id) + Held(t.board[i].piece)), None)
  {
    BankMoveOwned(t, n, piece, i);
  }

  /** A return to the bank whose payload names the piece's own slot keeps the tiles consistent and leaves nothing selected. */
  lemma ReturnValid(n: nat, pieces: seq<Piece>, t: Tiles, selection: Option<Selection>, pieceId: int, fromX: Option<int>, fromY: Option<int>)
    requires TilesValid(n, pieces, t, selection)
    requires DragFromSlot(t, pieceId, fromX, fromY)
    ensures TilesValid(n, pieces, Return(t, pieceId, fromX, fromY), None)
  {
    ReturnPreservesOwnership(t, n, pieceId, fromX, fromY);
  }

  /** A board move from slot o to slot i keeps the tiles consistent and leaves nothing selected. */
  lemma BoardMoveValid(n: nat, pieces: seq<Piece>, t: Tiles, selection: Option<Selection>, piece: Piece, i: nat, o: nat)
    requires TilesValid(n, pieces, t, selection)
    requires i < |t.board| && o < |t.board| && t.board[o].piece == Some(piece)
    ensures var placed := t.board[i := t.board[i].(piece := Some(piece))];
      TilesValid(n, pieces, Tiles(placed[o := placed[o].(piece := t.board[i].piece)], t.bank), None)
  {
    BoardMoveOwned(t, n, piece, i, o);
  }

  /** A fresh board array holding the given slots. */
  method NewBoard(slots: seq<Slot>) returns (a: array<Slot>)
    ensures fresh(a) && a[..] == slots
  {
    a := new Slot[|slots|](i requires 0 <= i < |slots| => slots[i]);
  }

  class PuzzleBoard {
    var difficulty: int
    var pieces: seq<Piece>
    var board: array<Slot>
    var bank: seq<Piece>
    var selection: Option<Selection>
    var loading: bool
    var running: bool
    var complete: bool
    var time: nat
    var finalTime: nat
    /** The grid size of the last completed slice, 0 before the first one. */
    ghost var side: nat

    /** The board and the bank as values. */
    function Current(): Tiles
      reads this, board
    {
      Tiles(board[..], bank)
    }

    /**
     * The tiles are consistent (see TilesValid); a completed puzzle's timer is
     * stopped and, once loaded, shows the recorded final time.
     */
    ghost predicate Valid()
      reads this, board
    {
      && TilesValid(side, pieces, Current(), selection)
      && (complete ==> !running)
      && (complete && !loading ==> finalTime == time)
    }

    /** The component's initial state: loading, no pieces, timer stopped at zero. */
    constructor (difficulty: int)
      ensures Valid()
      ensures this.difficulty == difficulty
      ensures pieces == [] && board[..] == [] && bank == [] && selection == None
      ensures loading && !running && !complete && time == 0 && finalTime == 0
    {
      this.difficulty := difficulty;
      pieces := [];
      board := new Slot[0];
      bank := [];
      selection := None;
      loading := true;
      running := false;
      complete := false;
      time := 0;
      finalTime := 0;
      side := 0;
    }

    /**
     * `sliceAndShuffleImage`. An image still decoding changes nothing; a missing
     * drawing context leaves the board loading with the timer stopped at zero;
     * otherwise the grid is rebuilt: every piece in the bank, every slot empty,
     * the timer reset and running, no completion, no selection.
     */
    method SliceAndShuffleImage(imageReady: bool, canvasReady: bool)
      requires Valid()
      modifies this
      ensures Valid()
      ensures difficulty == old(difficulty) && finalTime == old(finalTime)
      ensures !imageReady ==>
        && loading == old(loading) && running == old(running) && time == old(time)
        && pieces == old(pieces) && board == old(board) && bank == old(bank)
        && selection == old(selection) && complete == old(complete)
      ensures imageReady && !canvasReady ==>
        && loading && !running && time == 0
        && pieces == old(pieces) && board == old(board) && bank == old(bank)
        && selection == old(selection) && complete == old(complete)
      ensures imageReady && canvasReady ==>
        && fresh(board)
        && pieces == GridPieces(Side(difficulty))
        && board[..] == EmptyBoard(Side(difficulty))
        && bank == pieces
        && !loading && running && !complete && time == 0 && selection == None
    {
      if imageReady {
        BeginLoading();
        if canvasReady {
          Rebuild();
        } else {
          assert pieces == old(pieces) && board == old(board) && bank == old(bank);
        }
      }
    }

    /** The start of a slice: loading, the timer stopped and reset. */
    method BeginLoading()
      requires Valid()
      modifies this`loading, this`running, this`time
      ensures Valid() && loading && !running && time == 0
    {
      ghost var tiles := Current();
      loading, running, time := true, false, 0;
      assert Current() == tiles;
    }

    /** The grid-building part of `sliceAndShuffleImage`, once the image can be drawn. */
    method Rebuild()
      modifies this
      ensures Valid()
      ensures difficulty == old(difficulty) && finalTime == old(finalTime)
      ensures fresh(board)
      ensures pieces == GridPieces(Side(difficulty))
      ensures board[..] == EmptyBoard(Side(difficulty))
      ensures bank == pieces
      ensures !loading && running && !complete && time == 0 && selection == None
    {
      ghost var n := Side(difficulty);
      var generated, initial := GenerateGrid(difficulty);
      assert generated == GridPieces(n) && initial == EmptyBoard(n);
      pieces := generated;
      board := NewBoard(initial);
      bank := generated;
      side := n;
      loading, running, complete, selection, time := false, true, false, None, 0;
      EmptyBoardOwned(n);
      assert Current() == Tiles(EmptyBoard(n), GridPieces(n));
    }

    /**
     * `movePiece`. A target coordinate with no slot changes nothing. Otherwise the
     * piece fills the target slot; a bank piece leaves the bank and the former
     * occupant joins it; a board piece's origin slot receives the former occupant;
     * the selection is cleared.
     */
    method MovePiece(piece: Piece, origin: Origin, targetX: int, targetY: int,
                     fromX: Option<int>, fromY: Option<int>)
      requires Valid()
      requires MoveAllowed(Current(), piece, origin, fromX, fromY)
      modifies this`bank, this`selection, board
      ensures Valid()
      ensures Current() == Move(old(Current()), piece, origin, targetX, targetY, fromX, fromY)
      ensures selection == if FindSlot(old(board[..]), targetX, targetY).None? then old(selection) else None
    {
      var target := FindSlot(board[..], targetX, targetY);
      if target.None? {
        return;
      }
      var i := target.value;
      if origin == Bank {
        PlaceFromBank(i, piece);
      } else {
        PlaceFromBoard(i, piece, fromX, fromY);
      }
    }

    /** The bank branch of `movePiece`: slot i takes the piece; the bank drops it and gains the former occupant. */
    method PlaceFromBank(i: nat, piece: Piece)
      requires Valid()
      requires i < board.Length && piece in bank
      modifies this`bank, this`selection, board
      ensures Valid()
      ensures board[..] == old(board[..])[i := old(board[i]).(piece := Some(piece))]
      ensures bank == Without(old(bank), piece.id) + Held(old(board[i].piece))
      ensures selection == None
    {
      BankMoveValid(side, pieces, Current(), selection, piece, i);
      Install(i, board[i].(piece := Some(piece)), Without(bank, piece.id) + Held(board[i].piece));
    }

    /** Slot i becomes v, the bank becomes newBank and the selection is cleared, when the resulting tiles are consistent. */
    method Install(i: nat, v: Slot, newBank: seq<Piece>)
      requires Valid() && i < board.Length
      requires TilesValid(side, pieces, Tiles(board[..][i := v], newBank), None)
      modifies board, this`bank, this`selection
      ensures Valid()
      ensures board[..] == old(board[..])[i := v] && bank == newBank && selection == None
    {
      ghost var after := Tiles(board[..][i := v], newBank);
      board[i] := v;
      assert board[..] == after.board;
      bank := newBank;
      selection := None;
    }

    /**
     * The board branch of `movePiece`: slot i takes the piece and the slot at
     * (fromX, fromY), looked up after the placement, takes the former occupant.
     */
    method PlaceFromBoard(i: nat, piece: Piece, fromX: Option<int>, fromY: Option<int>)
      requires Valid()
      requires i < board.Length && HeldAt(board[..], fromX, fromY) == Some(piece)
      modifies this`selection, board
      ensures Valid()
      ensures var placed := old(board[..])[i := old(board[i]).(piece := Some(piece))];
        match FindOrigin(placed, fromX, fromY)
        case None => board[..] == placed
        case Some(o) => board[..] == placed[o := placed[o].(piece := old(board[i].piece))]
      ensures selection == None
    {
      var placed := board[..][i := board[i].(piece := Some(piece))];
      LayoutKept(board[..], side, i, Some(piece));
      AlignedFind(placed, board[..], side, fromX, fromY);
      var o := FindOrigin(placed, fromX, fromY).value;
      BoardMoveValid(side, pieces, Current(), selection, piece, i, o);
      InstallPair(i, board[i].(piece := Some(piece)), o, placed[o].(piece := board[i].piece));
    }

    /** Slot i becomes vi, then slot o becomes vo, and the selection is cleared, when the resulting tiles are consistent. */
    method InstallPair(i: nat, vi: Slot, o: nat, vo: Slot)
      requires Valid() && i < board.Length && o < board.Length
      requires TilesValid(side, pieces, Tiles(board[..][i := vi][o := vo], bank), None)
      modifies board, this`selection
      ensures Valid()
      ensures board[..] == old(board[..])[i := vi][o := vo] && selection == None
    {
      ghost var after := board[..][i := vi][o := vo];
      board[i] := vi;
      board[o] := vo;
      assert board[..] == after;
      selection := None;
    }

    /**
     * `handleDrop` on the slot at (targetX, targetY), outside touch mode: the piece
     * with the dragged id is looked up in its origin (the bank, or any board slot)
     * and moved; an id that is not found changes nothing.
     */
    method HandleDrop(touch: bool, pieceId: int, origin: Origin, targetX: int, targetY: int,
                      fromX: Option<int>, fromY: Option<int>)
      requires Valid()
      requires origin == Board ==> DragFromSlot(Current(), pieceId, fromX, fromY)
      modifies this`bank, this`selection, board
      ensures Valid()
      ensures var found := if origin == Bank then FindInBank(old(bank), pieceId) else FindPiece(old(board[..]), pieceId);
        var fx, fy := if origin == Board then fromX else None, if origin == Board then fromY else None;
        if touch || found.None? then
          Current() == old(Current()) && selection == old(selection)
        else
          && Current() == Move(old(Current()), found.value, origin, targetX, targetY, fx, fy)
          && selection == if FindSlot(old(board[..]), targetX, targetY).None? then old(selection) else None
    {
      if touch {
        return;
      }
      var found := if origin == Bank then FindInBank(bank, pieceId) else FindPiece(board[..], pieceId);
      if found.None? {
        return;
      }
      var fx := if origin == Board then fromX else None;
      var fy := if origin == Board then fromY else None;
      MovePiece(found.value, origin, targetX, targetY, fx, fy);
    }

    /**
     * `handlePieceBankDrop`, outside touch mode: a piece dragged from the board and
     * found there goes back to the bank and its slot (fromX, fromY) is emptied;
     * the selection is cleared. Any other drop changes nothing.
     */
    method HandlePieceBankDrop(touch: bool, origin: Origin, pieceId: int, fromX: Option<int>, fromY: Option<int>)
      requires Valid()
      requires origin == Board ==> DragFromSlot(Current(), pieceId, fromX, fromY)
      modifies this`bank, this`selection, board
      ensures Valid()
      ensures if touch || origin != Board || FindPiece(old(board[..]), pieceId).None? then
          Current() == old(Current()) && selection == old(selection)
        else
          Current() == Return(old(Current()), pieceId, fromX, fromY) && selection == None
    {
      if touch || origin != Board {
        return;
      }
      var found := FindPiece(board[..], pieceId);
      if found.None? {
        return;
      }
      ReturnPiece(found.value, pieceId, fromX, fromY);
    }

    /**
     * The return itself, once the dragged piece is found on the board: the slot at
     * (fromX, fromY) is emptied, the piece is appended to the bank and the
     * selection is cleared.
     */
    method ReturnPiece(piece: Piece, pieceId: int, fromX: Option<int>, fromY: Option<int>)
      requires Valid()
      requires DragFromSlot(Current(), pieceId, fromX, fromY)
      requires FindPiece(board[..], pieceId) == Some(piece)
      modifies this`bank, this`selection, board
      ensures Valid()
      ensures Current() == Return(old(Current()), pieceId, fromX, fromY) && selection == None
    {
      var o := FindOrigin(board[..], fromX, fromY);
      ReturnValid(side, pieces, Current(), selection, pieceId, fromX, fromY);
      var i := o.value;
      assert Return(Current(), pieceId, fromX, fromY) == Tiles(board[..][i := board[i].(piece := None)], bank + [piece]);
      Install(i, board[i].(piece := None), bank + [piece]);
    }

    /**
     * `handlePieceClick`, in touch mode: tapping the selected piece again clears
     * the selection; tapping any other piece selects it with where it was tapped.
     * Outside touch mode nothing changes.
     */
    method HandlePieceClick(touch: bool, piece: Piece, origin: Origin, fromX: Option<int>, fromY: Option<int>)
      requires Valid()
      requires touch && !(selection.Some? && selection.value.piece.id == piece.id) ==>
        MoveAllowed(Current(), piece, origin, fromX, fromY)
      modifies this`selection
      ensures Valid()
      ensures selection ==
        if !touch then old(selection)
        else if old(selection).Some? && old(selection).value.piece.id == piece.id then None
        else Some(Selection(piece, origin, fromX, fromY))
    {
      if !touch {
        return;
      }
      if selection.Some? && selection.value.piece.id == piece.id {
        selection := None;
        return;
      }
      selection := Some(Selection(piece, origin, fromX, fromY));
    }

    /**
     * `handleSlotClick`, in touch mode with a selection: the selected piece is moved
     * to the tapped slot. Without a selection, or outside touch mode, nothing changes.
     */
    method HandleSlotClick(touch: bool, slotX: int, slotY: int)
      requires Valid()
      modifies this`bank, this`selection, board
      ensures Valid()
      ensures if !touch || old(selection).None? then
          Current() == old(Current()) && selection == old(selection)
        else
          var s := old(selection).value;
          && Current() == Move(old(Current()), s.piece, s.origin, slotX, slotY, s.fromX, s.fromY)
          && selection == if FindSlot(old(board[..]), slotX, slotY).None? then old(selection) else None
    {
      if !touch || selection.None? {
        return;
      }
      var s := selection.value;
      MovePiece(s.piece, s.origin, slotX, slotY, s.fromX, s.fromY);
    }

    /**
     * `handlePlayAgain` followed by the effect on the difficulty: completion is
     * cleared and the chosen difficulty installed; the slice runs again only when
     * the difficulty differs from the current one and the board is not loading.
     * Choosing the current difficulty therefore leaves the tiles, the timer and
     * the selection as they were.
     */
    method PlayAgain(next: int, imageReady: bool, canvasReady: bool)
      requires Valid()
      modifies this
      ensures Valid()
      ensures difficulty == next && !complete && finalTime == old(finalTime)
      ensures next == old(difficulty) || old(loading) || !imageReady ==>
        && board == old(board) && Current() == old(Current()) && pieces == old(pieces)
        && selection == old(selection) && loading == old(loading) && running == old(running) && time == old(time)
      ensures next != old(difficulty) && !old(loading) && imageReady && !canvasReady ==>
        && board == old(board) && Current() == old(Current()) && pieces == old(pieces)
        && selection == old(selection) && loading && !running && time == 0
      ensures next != old(difficulty) && !old(loading) && imageReady && canvasReady ==>
        && fresh(board)
        && pieces == GridPieces(Side(next))
        && board[..] == EmptyBoard(Side(next))
        && bank == pieces
        && !loading && running && time == 0 && selection == None
    {
      var changed := next != difficulty;
      complete := false;
      difficulty := next;
      if changed && !loading {
        SliceAndShuffleImage(imageReady, canvasReady);
      }
    }

    /**
     * Play again as its own comment describes it: the slice runs again whenever the
     * board is not loading, also when the chosen difficulty is the current one.
     */
    method PlayAgainReslicing(next: int, imageReady: bool, canvasReady: bool)
      requires Valid()
      modifies this
      ensures Valid()
      ensures difficulty == next && !complete && finalTime == old(finalTime)
      ensures old(loading) || !imageReady ==>
        && board == old(board) && Current() == old(Current()) && pieces == old(pieces)
        && selection == old(selection) && loading == old(loading) && running == old(running) && time == old(time)
      ensures !old(loading) && imageReady && !canvasReady ==>
        && board == old(board) && Current() == old(Current()) && pieces == old(pieces)
        && selection == old(selection) && loading && !running && time == 0
      ensures !old(loading) && imageReady && canvasReady ==>
        && fresh(board)
        && pieces == GridPieces(Side(next))
        && board[..] == EmptyBoard(Side(next))
        && bank == pieces
        && !loading && running && time == 0 && selection == None
    {
      complete := false;
      difficulty := next;
      if !loading {
        SliceAndShuffleImage(imageReady, canvasReady);
      }
    }

    /** One second of the interval timer, which exists only while running and not complete. */
    method Tick()
      requires Valid()
      modifies this`time
      ensures Valid()
      ensures time == if old(running) && !old(complete) then old(time) + 1 else old(time)
    {
      if running && !complete {
        time := time + 1;
      }
    }

    /**
     * The completion effect: once loaded, with pieces, an empty bank and every slot
     * holding a piece at its own coordinates, the puzzle is complete, the timer
     * stops and the final time is recorded. Completion then means the solved board.
     */
    method CheckCompletion()
      requires Valid()
      modifies this`complete, this`running, this`finalTime
      ensures Valid()
      ensures if CompletionFires(loading, pieces, Current()) then
          complete && !running && finalTime == time
        else
          complete == old(complete) && running == old(running) && finalTime == old(finalTime)
      ensures complete && !old(complete) ==> Current() == Tiles(SolvedBoard(side), [])
    {
      if !loading && |pieces| > 0 && |bank| == 0 {
        var full := IsBoardFull(board[..]);
        if full {
          var correct := IsPuzzleCorrect(board[..]);
          if correct {
            ghost var tiles := Current();
            CompletionMeansSolved(tiles, side);
            complete, running, finalTime := true, false, time;
            assert Current() == tiles;
          }
        }
      }
    }
  }

  /** On the 1 x 1 grid, the only piece dropped from the bank on the only slot fills it and empties the bank. */
  lemma OneByOneDrop()
    ensures var p := Piece(0, 0, 0);
      Move(Tiles([Slot(0, 0, None)], [p]), p, Bank, 0, 0, None, None) == Tiles([Slot(0, 0, Some(p))], [])
  {
    var p := Piece(0, 0, 0);
    assert FindSlot([Slot(0, 0, None)], 0, 0) == Some(0);
    assert Without([p], 0) == [];
  }

  /** On a 1 x 1 board whose piece waits in the bank, dragging it onto the only slot solves the board. */
  method DropOnlyPiece(b: PuzzleBoard)
    requires b.Valid()
    requires b.Current() == Tiles([Slot(0, 0, None)], [Piece(0, 0, 0)])
    modifies b`bank, b`selection, b.board
    ensures b.Valid()
    ensures b.board[..] == [Slot(0, 0, Some(Piece(0, 0, 0)))] && b.bank == []
  {
    var p := Piece(0, 0, 0);
    assert FindInBank(b.bank, 0) == Some(p);
    b.HandleDrop(false, 0, Bank, 0, 0, None, None);
    OneByOneDrop();
    assert b.Current() == Tiles([Slot(0, 0, Some(p))], []);
  }

  /** The 1 x 1 board holding its only piece is the solved board, and it fires completion. */
  lemma OneByOneSolved()
    ensures var p := Piece(0, 0, 0);
      && SolvedBoard(1) == [Slot(0, 0, Some(p))]
      && CompletionFires(false, [p], Tiles([Slot(0, 0, Some(p))], []))
  {
  }

  /** A 1 x 1 game just sliced: its only piece waits in the bank and the timer runs from zero. */
  method SliceOneByOne() returns (b: PuzzleBoard)
    ensures fresh(b) && fresh(b.board) && b.Valid() && b.difficulty == 1
    ensures b.pieces == [Piece(0, 0, 0)] && b.Current() == Tiles([Slot(0, 0, None)], [Piece(0, 0, 0)])
    ensures !b.loading && b.running && !b.complete && b.time == 0
  {
    var p := Piece(0, 0, 0);
    assert GridPieces(1) == [p];
    assert EmptyBoard(1) == [Slot(0, 0, None)];
    b := new PuzzleBoard(1);
    b.SliceAndShuffleImage(true, true);
  }

  /** A 1 x 1 game sliced and one second in: its only piece waits in the bank. */
  method StartOneByOne() returns (b: PuzzleBoard)
    ensures fresh(b) && fresh(b.board) && b.Valid() && b.difficulty == 1
    ensures b.pieces == [Piece(0, 0, 0)] && b.Current() == Tiles([Slot(0, 0, None)], [Piece(0, 0, 0)])
    ensures !b.loading && b.running && !b.complete && b.time == 1
  {
    b := SliceOneByOne();
    ghost var tiles := b.Current();
    b.Tick();
    assert b.Current() == tiles;
  }

  /** Dropping the only piece of a sliced 1 x 1 game one second in, then the completion check: the game is solved at one second. */
  method CompleteOneByOne(b: PuzzleBoard)
    requires b.Valid() && !b.loading && b.time == 1 && b.pieces == [Piece(0, 0, 0)]
    requires b.Current() == Tiles([Slot(0, 0, None)], [Piece(0, 0, 0)])
    modifies b`bank, b`selection, b.board, b`complete, b`running, b`finalTime
    ensures b.Valid() && b.board[..] == SolvedBoard(1) && b.bank == []
    ensures b.complete && !b.running && b.finalTime == 1
  {
    DropOnlyPiece(b);
    FinishOneByOne(b);
    OneByOneSolved();
  }

  /** The completion check on a 1 x 1 board holding its only piece marks the game complete and stops the timer. */
  method FinishOneByOne(b: PuzzleBoard)
    requires b.Valid() && !b.loading && b.pieces == [Piece(0, 0, 0)]
    requires b.board[..] == [Slot(0, 0, Some(Piece(0, 0, 0)))] && b.bank == []
    modifies b`complete, b`running, b`finalTime
    ensures b.Valid() && b.complete && !b.running && b.finalTime == b.time
  {
    OneByOneSolved();
    assert CompletionFires(b.loading, b.pieces, b.Current());
    b.CheckCompletion();
  }

  /** A 1 x 1 game: slice, one tick, drop the only piece on its slot, completion. */
  method SolveOneByOne() returns (b: PuzzleBoard)
    ensures fresh(b) && b.Valid() && b.difficulty == 1
    ensures b.board[..] == SolvedBoard(1) && b.bank == []
    ensures !b.loading && b.complete && !b.running && b.time == 1 && b.finalTime == 1
  {
    b := StartOneByOne();
    CompleteOneByOne(b);
  }

  /** Replaying a solved 1 x 1 game at its own difficulty keeps the solved board, with the timer stopped and completion cleared. */
  method ReplaySameDifficulty() returns (b: PuzzleBoard)
    ensures b.Valid()
    ensures b.board[..] == SolvedBoard(1) && b.bank == []
    ensures !b.complete && !b.running && b.time == 1
  {
    b := SolveOneByOne();
    b.PlayAgain(1, true, true);
  }

  /** The same replay when play again always slices: a fresh game with every piece in the bank and the timer running from zero. */
  method ReplaySameDifficultyReslicing() returns (b: PuzzleBoard)
    ensures b.Valid()
    ensures b.board[..] == EmptyBoard(1) && b.bank == GridPieces(1)
    ensures !b.complete && b.running && b.time == 0
  {
    b := SolveOneByOne();
    b.PlayAgainReslicing(1, true, true);
  }
}
