/**
 * The tiles of the puzzle board as values: pieces, board slots, the grid a
 * slice produces, the lookups the handlers perform, and the two placement
 * rules (a move onto a slot, a return to the bank) as functions of the board
 * and the bank. The lemmas state what the board's handlers promise: every
 * piece has exactly one owner, a bank piece evicts the occupant, a board
 * piece swaps with it, and completion means the solved picture.
 */
module Pieces {
  import opened Wrappers

  /** A tile; its image is not modelled. */
  datatype Piece = Piece(id: int, correctX: int, correctY: int)

  /** One cell of the board, holding at most one piece. */
  datatype Slot = Slot(x: int, y: int, piece: Option<Piece>)

  /** Where a dragged or selected piece comes from. */
  datatype Origin = Bank | Board

  /** The board and the piece bank together. */
  datatype Tiles = Tiles(board: seq<Slot>, bank: seq<Piece>)

  // ---------------------------------------------------------------------------
  // The grid a slice produces
  // ---------------------------------------------------------------------------

  /** The pieces of an n x n puzzle in row-major order: piece k belongs at column k mod n, row k div n. */
  function GridPieces(n: nat): (r: seq<Piece>)
    ensures |r| == n * n
    ensures forall k :: 0 <= k < |r| ==> r[k].id == k
  {
    if n == 0 then [] else seq(n * n, k => Piece(k, k % n, k / n))
  }

  /** The n x n board with every slot empty, in the same row-major order. */
  function EmptyBoard(n: nat): (r: seq<Slot>)
    ensures |r| == n * n
    ensures forall k :: 0 <= k < |r| ==> r[k].piece.None?
  {
    if n == 0 then [] else seq(n * n, k => Slot(k % n, k / n, None))
  }

  /** The n x n board with every piece at its own coordinates. */
  function SolvedBoard(n: nat): (r: seq<Slot>)
    ensures InLayout(r, n)
    ensures forall k :: 0 <= k < |r| ==> r[k].piece == Some(GridPieces(n)[k])
  {
    if n == 0 then [] else seq(n * n, k => Slot(k % n, k / n, Some(Piece(k, k % n, k / n))))
  }

  /** The row-major index of column x, row y: the id the slicing loop gives the piece cut from that cell. */
  function CellIndex(n: nat, x: int, y: int): int {
    y * n + x
  }

  lemma MulMono(a: int, b: int, n: int)
    requires a >= b && n >= 0
    ensures a * n >= b * n
  {
    assert a * n - b * n == (a - b) * n;
  }

  /** Row-major index y*n + x has column x and row y. */
  lemma DivMod(x: int, y: int, n: int)
    requires 0 <= x < n && 0 <= y
    ensures (y * n + x) / n == y && (y * n + x) % n == x
  {
    var k := y * n + x;
    var q, r := k / n, k % n;
    assert k == q * n + r && 0 <= r < n;
    assert (q - y) * n == x - r;
    if q > y {
      MulMono(q - y, 1, n);
    } else if q < y {
      MulMono(y - q, 1, n);
    }
  }

  lemma RowMajorBound(x: int, y: int, n: int)
    requires 0 <= x < n && 0 <= y < n
    ensures 0 <= y * n + x < n * n
  {
    MulMono(n - 1, y, n);
    MulMono(y, 0, n);
  }

  /** An index below n*n has a column and a row below n. */
  lemma IndexBound(k: int, n: nat)
    requires 0 <= k < n * n
    ensures n > 0 && 0 <= k % n < n && 0 <= k / n < n
    ensures k == (k / n) * n + k % n
  {
    assert n != 0;
    var q := k / n;
    assert k == q * n + k % n;
    if q >= n {
      MulMono(q, n, n);
    }
  }

  /** The side of the grid a slice with the given difficulty lays out; a non-positive difficulty runs the loops zero times. */
  function Side(difficulty: int): nat {
    if difficulty > 0 then difficulty else 0
  }

  /**
   * The slicing loop: for rows y and columns x below the difficulty, append piece
   * y*difficulty+x and an empty slot at (x, y). It produces the grid of side
   * Side(difficulty), so a non-positive difficulty yields no pieces and no slots.
   */
  method GenerateGrid(difficulty: int) returns (generated: seq<Piece>, initial: seq<Slot>)
    ensures generated == GridPieces(Side(difficulty))
    ensures initial == EmptyBoard(Side(difficulty))
  {
    ghost var n := Side(difficulty);
    generated, initial := [], [];
    var y := 0;
    while y < difficulty
      invariant 0 <= y <= n
      invariant |generated| == |initial| == y * n
      invariant forall k :: 0 <= k < |generated| ==> generated[k] == Piece(k, k % n, k / n)
      invariant forall k :: 0 <= k < |initial| ==> initial[k] == Slot(k % n, k / n, None)
    {
      var x := 0;
      while x < difficulty
        invariant 0 <= x <= n
        invariant |generated| == |initial| == y * n + x
        invariant forall k :: 0 <= k < |generated| ==> generated[k] == Piece(k, k % n, k / n)
        invariant forall k :: 0 <= k < |initial| ==> initial[k] == Slot(k % n, k / n, None)
      {
        DivMod(x, y, n);
        generated := generated + [Piece(y * difficulty + x, x, y)];
        initial := initial + [Slot(x, y, None)];
        x := x + 1;
      }
      assert y * n + n == (y + 1) * n;
      y := y + 1;
    }
  }

  lemma GridCell(n: nat, x: int, y: int)
    requires 0 <= x < n && 0 <= y < n
    ensures 0 <= CellIndex(n, x, y) < n * n
    ensures GridPieces(n)[CellIndex(n, x, y)] == Piece(CellIndex(n, x, y), x, y)
    ensures EmptyBoard(n)[CellIndex(n, x, y)] == Slot(x, y, None)
  {
    RowMajorBound(x, y, n);
    DivMod(x, y, n);
  }

  lemma SameCellSameIndex(n: nat, i: int, j: int)
    requires n > 0 && 0 <= i && 0 <= j
    requires i % n == j % n && i / n == j / n
    ensures i == j
  {
    assert i == (i / n) * n + i % n;
    assert j == (j / n) * n + j % n;
  }

  lemma GridCells(n: nat)
    ensures forall x, y :: 0 <= x < n && 0 <= y < n ==>
      0 <= CellIndex(n, x, y) < n * n && GridPieces(n)[CellIndex(n, x, y)] == Piece(CellIndex(n, x, y), x, y)
      && EmptyBoard(n)[CellIndex(n, x, y)] == Slot(x, y, None)
  {
    forall x, y | 0 <= x < n && 0 <= y < n
      ensures 0 <= CellIndex(n, x, y) < n * n && GridPieces(n)[CellIndex(n, x, y)] == Piece(CellIndex(n, x, y), x, y)
      ensures EmptyBoard(n)[CellIndex(n, x, y)] == Slot(x, y, None)
    {
      GridCell(n, x, y);
    }
  }

  lemma GridBounds(n: nat)
    ensures forall k :: 0 <= k < n * n ==>
      0 <= GridPieces(n)[k].correctX < n && 0 <= GridPieces(n)[k].correctY < n
  {
    forall k | 0 <= k < n * n
      ensures 0 <= GridPieces(n)[k].correctX < n && 0 <= GridPieces(n)[k].correctY < n
    {
      IndexBound(k, n);
    }
  }

  lemma GridDistinctCells(n: nat)
    ensures forall i, j :: 0 <= i < j < n * n ==>
      GridPieces(n)[i].correctX != GridPieces(n)[j].correctX || GridPieces(n)[i].correctY != GridPieces(n)[j].correctY
  {
    forall i, j | 0 <= i < j < n * n
      ensures GridPieces(n)[i].correctX != GridPieces(n)[j].correctX || GridPieces(n)[i].correctY != GridPieces(n)[j].correctY
    {
      IndexBound(i, n);
      if GridPieces(n)[i].correctX == GridPieces(n)[j].correctX && GridPieces(n)[i].correctY == GridPieces(n)[j].correctY {
        SameCellSameIndex(n, i, j);
      }
    }
  }

  /**
   * The grid has n*n pieces; piece k has id k and belongs on the grid; the piece
   * for column x and row y is the (y*n+x)-th and belongs at (x, y); no two pieces
   * share coordinates, so the pieces cover every cell exactly once. The empty
   * board lists the same cells in the same order.
   */
  lemma GridPiecesSpec(n: nat)
    ensures |GridPieces(n)| == |EmptyBoard(n)| == |SolvedBoard(n)| == n * n
    ensures forall k :: 0 <= k < n * n ==> GridPieces(n)[k].id == k
    ensures forall k :: 0 <= k < n * n ==>
      0 <= GridPieces(n)[k].correctX < n && 0 <= GridPieces(n)[k].correctY < n
    ensures forall x, y :: 0 <= x < n && 0 <= y < n ==>
      0 <= CellIndex(n, x, y) < n * n && GridPieces(n)[CellIndex(n, x, y)] == Piece(CellIndex(n, x, y), x, y)
      && EmptyBoard(n)[CellIndex(n, x, y)] == Slot(x, y, None)
    ensures forall i, j :: 0 <= i < j < n * n ==>
      GridPieces(n)[i].correctX != GridPieces(n)[j].correctX || GridPieces(n)[i].correctY != GridPieces(n)[j].correctY
  {
    GridCells(n);
    GridBounds(n);
    GridDistinctCells(n);
  }

  /** Each grid piece is determined by its id. */
  lemma GridPieceById(n: nat, p: Piece)
    requires p in GridPieces(n)
    ensures n > 0 && 0 <= p.id < n * n && p == GridPieces(n)[p.id] && p == Piece(p.id, p.id % n, p.id / n)
  {
  }

  /** No piece occurs twice in the grid. */
  lemma GridOnce(n: nat, p: Piece)
    requires p in GridPieces(n)
    ensures multiset(GridPieces(n))[p] == 1
  {
    var g := GridPieces(n);
    GridPieceById(n, p);
    var k := p.id;
    assert g == g[..k] + [p] + g[k + 1..];
    assert p !in g[..k] && p !in g[k + 1..];
    assert multiset(g) == multiset(g[..k]) + multiset{p} + multiset(g[k + 1..]);
  }

  // ---------------------------------------------------------------------------
  // Board layout and lookups
  // ---------------------------------------------------------------------------

  /** The board's slots carry the coordinates of the empty n x n board, in its order. */
  predicate InLayout(board: seq<Slot>, n: nat) {
    var e := EmptyBoard(n);
    |board| == |e| && forall i :: 0 <= i < |board| ==> board[i].x == e[i].x && board[i].y == e[i].y
  }

  /** Two boards with the same slots at the same coordinates, whatever pieces they hold. */
  predicate SameCells(a: seq<Slot>, b: seq<Slot>) {
    |a| == |b| && forall j :: 0 <= j < |a| ==> a[j].x == b[j].x && a[j].y == b[j].y
  }

  predicate At(s: Slot, x: int, y: int) {
    s.x == x && s.y == y
  }

  /** The index of the first slot at column x, row y, or None when no slot has those coordinates. */
  function FindSlot(board: seq<Slot>, x: int, y: int): (r: Option<nat>)
    ensures r.Some? ==> r.value < |board| && At(board[r.value], x, y)
    ensures r.Some? ==> forall j :: 0 <= j < r.value ==> !At(board[j], x, y)
    ensures r.None? <==> forall j :: 0 <= j < |board| ==> !At(board[j], x, y)
  {
    if board == [] then None
    else if At(board[0], x, y) then Some(0)
    else match FindSlot(board[1..], x, y)
      case None => None
      case Some(k) => Some(k + 1)
  }

  /** On a laid-out board, a slot found for (x, y) lies in the grid, at the row-major index. */
  lemma FoundInLayout(board: seq<Slot>, n: nat, x: int, y: int)
    requires InLayout(board, n)
    requires FindSlot(board, x, y).Some?
    ensures 0 <= x < n && 0 <= y < n && FindSlot(board, x, y).value == CellIndex(n, x, y)
  {
    var k := FindSlot(board, x, y).value;
    var e := EmptyBoard(n);
    assert n > 0;
    assert |board| == n * n;
    IndexBound(k, n);
    assert e[k] == Slot(k % n, k / n, None);
    assert x == k % n && y == k / n;
  }

  /** On a laid-out board, (x, y) is found exactly when it is on the grid, at index y*n + x. */
  lemma FindSlotInLayout(board: seq<Slot>, n: nat, x: int, y: int)
    requires InLayout(board, n)
    ensures FindSlot(board, x, y) == if 0 <= x < n && 0 <= y < n then Some(CellIndex(n, x, y)) else None
  {
    if 0 <= x < n && 0 <= y < n {
      GridCell(n, x, y);
      assert At(board[CellIndex(n, x, y)], x, y);
    }
    if FindSlot(board, x, y).Some? {
      FoundInLayout(board, n, x, y);
    }
  }

  /** The slot index of an optional origin; an absent coordinate finds nothing. */
  function FindOrigin(board: seq<Slot>, fromX: Option<int>, fromY: Option<int>): (r: Option<nat>)
    ensures r.Some? ==> r.value < |board|
    ensures r.Some? <==> fromX.Some? && fromY.Some? && exists j :: 0 <= j < |board| && At(board[j], fromX.value, fromY.value)
    ensures r.Some? ==> At(board[r.value], fromX.value, fromY.value)
  {
    if fromX.Some? && fromY.Some? then FindSlot(board, fromX.value, fromY.value) else None
  }

  /** The piece in the slot at an optional origin. */
  function HeldAt(board: seq<Slot>, fromX: Option<int>, fromY: Option<int>): Option<Piece> {
    match FindOrigin(board, fromX, fromY)
    case Some(o) => board[o].piece
    case None => None
  }

  /** The slot holds a piece with the given id. */
  predicate Holds(s: Slot, id: int) {
    s.piece.Some? && s.piece.value.id == id
  }

  /** The index of the first slot holding a piece with the given id. */
  function FindHolder(board: seq<Slot>, id: int): (r: Option<nat>)
    ensures r.Some? ==> r.value < |board| && Holds(board[r.value], id)
    ensures r.Some? ==> forall j :: 0 <= j < r.value ==> !Holds(board[j], id)
    ensures r.None? <==> forall j :: 0 <= j < |board| ==> !Holds(board[j], id)
  {
    if board == [] then None
    else if Holds(board[0], id) then Some(0)
    else match FindHolder(board[1..], id)
      case None => None
      case Some(k) => Some(k + 1)
  }

  /** The piece of the first slot holding a piece with the given id, scanning the slots in order. */
  function FindPiece(board: seq<Slot>, id: int): (r: Option<Piece>)
    ensures r.Some? ==> r.value.id == id
    ensures r.Some? ==> exists i :: 0 <= i < |board| && board[i].piece == r && forall j :: 0 <= j < i ==> !Holds(board[j], id)
    ensures r.None? <==> forall i :: 0 <= i < |board| ==> !Holds(board[i], id)
  {
    match FindHolder(board, id)
    case Some(i) => board[i].piece
    case None => None
  }

  /** The first bank piece with the given id. */
  function FindInBank(bank: seq<Piece>, id: int): (r: Option<Piece>)
    ensures r.Some? ==> r.value in bank && r.value.id == id
    ensures r.None? <==> forall p :: p in bank ==> p.id != id
  {
    if bank == [] then None
    else if bank[0].id == id then Some(bank[0])
    else FindInBank(bank[1..], id)
  }

  /** The bank without the pieces carrying the given id, order kept. */
  function Without(bank: seq<Piece>, id: int): (r: seq<Piece>)
    ensures forall p :: p in r <==> p in bank && p.id != id
    ensures multiset(r) + multiset(WithId(bank, id)) == multiset(bank)
  {
    if bank == [] then []
    else
      assert bank == [bank[0]] + bank[1..];
      (if bank[0].id == id then [] else [bank[0]]) + Without(bank[1..], id)
  }

  /** The bank pieces carrying the given id, order kept: what filtering by the id takes out. */
  function WithId(bank: seq<Piece>, id: int): (r: seq<Piece>)
    ensures forall p :: p in r <==> p in bank && p.id == id
  {
    if bank == [] then [] else (if bank[0].id == id then [bank[0]] else []) + WithId(bank[1..], id)
  }

  /** The piece of a slot as a sequence of zero or one pieces. */
  function Held(p: Option<Piece>): seq<Piece> {
    if p.Some? then [p.value] else []
  }

  /** The pieces on the board, in slot order. */
  function Placed(board: seq<Slot>): (r: seq<Piece>)
    ensures |r| <= |board|
  {
    if board == [] then [] else Held(board[0].piece) + Placed(board[1..])
  }

  /** A piece is placed exactly when some slot holds it. */
  lemma {:induction false} PlacedMembers(board: seq<Slot>, p: Piece)
    ensures p in Placed(board) <==> exists i :: 0 <= i < |board| && board[i].piece == Some(p)
  {
    if board != [] {
      PlacedMembers(board[1..], p);
      if p in Placed(board[1..]) {
        var j :| 0 <= j < |board| - 1 && board[1..][j].piece == Some(p);
        assert board[j + 1].piece == Some(p);
      }
      if exists i :: 0 <= i < |board| && board[i].piece == Some(p) {
        var i :| 0 <= i < |board| && board[i].piece == Some(p);
        if i > 0 {
          assert board[1..][i - 1].piece == Some(p);
        }
      }
    }
  }

  /** The board is full exactly when it holds as many pieces as it has slots. */
  lemma {:induction false} PlacedCount(board: seq<Slot>)
    ensures |Placed(board)| == |board| <==> IsBoardFull(board)
  {
    if board != [] {
      PlacedCount(board[1..]);
      assert IsBoardFull(board) <==> board[0].piece.Some? && IsBoardFull(board[1..]) by {
        if board[0].piece.Some? && IsBoardFull(board[1..]) {
          forall i | 0 <= i < |board|
            ensures board[i].piece.Some?
          {
            if i > 0 {
              assert board[1..][i - 1] == board[i];
            }
          }
        }
      }
    }
  }

  /** Adding the same pieces to both sides of a multiset equation keeps it. */
  lemma AddBoth(h: multiset<Piece>, t: multiset<Piece>, t': multiset<Piece>, hi: multiset<Piece>, hv: multiset<Piece>)
    requires t' + hi == t + hv
    ensures (h + t') + hi == (h + t) + hv
  {
    assert forall q :: ((h + t') + hi)[q] == h[q] + (t' + hi)[q];
  }

  /** Exchanging the first of two added multisets. */
  lemma SwapFirst(m: multiset<Piece>, h0: multiset<Piece>, hv: multiset<Piece>)
    ensures (hv + m) + h0 == (h0 + m) + hv
  {
    assert forall q :: ((hv + m) + h0)[q] == ((h0 + m) + hv)[q];
  }

  /** Replacing one slot swaps its piece for the new slot's piece among the board's pieces. */
  lemma {:induction false} PlacedUpdate(board: seq<Slot>, i: nat, v: Slot)
    requires i < |board|
    ensures multiset(Placed(board[i := v])) + multiset(Held(board[i].piece))
         == multiset(Placed(board)) + multiset(Held(v.piece))
  {
    var b := board[i := v];
    if i == 0 {
      assert b[1..] == board[1..];
      SwapFirst(multiset(Placed(board[1..])), multiset(Held(board[0].piece)), multiset(Held(v.piece)));
    } else {
      assert b[0] == board[0];
      assert b[1..] == board[1..][i - 1 := v];
      assert board[1..][i - 1] == board[i];
      PlacedUpdate(board[1..], i - 1, v);
      AddBoth(multiset(Held(board[0].piece)), multiset(Placed(board[1..])), multiset(Placed(b[1..])),
              multiset(Held(board[i].piece)), multiset(Held(v.piece)));
    }
  }

  // ---------------------------------------------------------------------------
  // Ownership
  // ---------------------------------------------------------------------------

  /** Every piece of the n x n grid is in the bank or on the board, exactly once, and nothing else is. */
  predicate Owned(t: Tiles, n: nat) {
    multiset(t.bank) + multiset(Placed(t.board)) == multiset(GridPieces(n))
  }

  /** A move's source is real: a bank piece is in the bank, a board piece is in the slot at (fromX, fromY). */
  predicate MoveAllowed(t: Tiles, piece: Piece, origin: Origin, fromX: Option<int>, fromY: Option<int>) {
    match origin
    case Bank => piece in t.bank
    case Board => HeldAt(t.board, fromX, fromY) == Some(piece)
  }

  /** A drag payload from the board names the slot that holds the piece with that id, if any does. */
  predicate DragFromSlot(t: Tiles, pieceId: int, fromX: Option<int>, fromY: Option<int>) {
    FindPiece(t.board, pieceId).Some? ==> HeldAt(t.board, fromX, fromY) == FindPiece(t.board, pieceId)
  }

  lemma OwnedMember(t: Tiles, n: nat, p: Piece)
    requires Owned(t, n)
    requires p in t.bank || p in Placed(t.board)
    ensures p in GridPieces(n)
    ensures multiset(t.bank)[p] + multiset(Placed(t.board))[p] == 1
  {
    assert multiset(GridPieces(n))[p] > 0;
    GridOnce(n, p);
  }

  // ---------------------------------------------------------------------------
  // Moves
  // ---------------------------------------------------------------------------

  /**
   * `movePiece`: a missing target slot changes nothing; otherwise the piece goes
   * into the target slot, and the former occupant goes to the bank (bank origin,
   * which also drops the piece from the bank) or into the origin slot (board origin).
   */
  function Move(t: Tiles, piece: Piece, origin: Origin, targetX: int, targetY: int,
                fromX: Option<int>, fromY: Option<int>): (r: Tiles)
    ensures SameCells(r.board, t.board)
    ensures origin == Board ==> r.bank == t.bank
  {
    match FindSlot(t.board, targetX, targetY)
    case None => t
    case Some(i) =>
      var occupant := t.board[i].piece;
      var placed := t.board[i := t.board[i].(piece := Some(piece))];
      match origin
      case Bank => Tiles(placed, Without(t.bank, piece.id) + Held(occupant))
      case Board =>
        match FindOrigin(placed, fromX, fromY)
        case None => Tiles(placed, t.bank)
        case Some(o) => Tiles(placed[o := placed[o].(piece := occupant)], t.bank)
  }

  lemma AlignedFind(a: seq<Slot>, b: seq<Slot>, n: nat, fromX: Option<int>, fromY: Option<int>)
    requires InLayout(a, n) && InLayout(b, n)
    ensures FindOrigin(a, fromX, fromY) == FindOrigin(b, fromX, fromY)
  {
    if fromX.Some? && fromY.Some? {
      FindSlotInLayout(a, n, fromX.value, fromY.value);
      FindSlotInLayout(b, n, fromX.value, fromY.value);
    }
  }

  /** When the piece is the only one in the bank with its id, filtering by the id removes exactly its copies. */
  lemma WithoutOne(bank: seq<Piece>, piece: Piece)
    requires forall q :: q in bank && q.id == piece.id ==> q == piece
    ensures multiset(Without(bank, piece.id)) == multiset(bank)[piece := 0]
  {
    var rest, taken := Without(bank, piece.id), WithId(bank, piece.id);
    forall q ensures multiset(rest)[q] == multiset(bank)[piece := 0][q] {
      assert (multiset(rest) + multiset(taken))[q] == multiset(bank)[q];
      if q.id == piece.id {
        assert q !in rest;
        if q != piece {
          assert q !in bank;
        }
      } else {
        assert q !in taken;
      }
    }
  }

  /** Changing the piece of one slot keeps the board's layout. */
  lemma LayoutKept(board: seq<Slot>, n: nat, i: nat, p: Option<Piece>)
    requires InLayout(board, n) && i < |board|
    ensures InLayout(board[i := board[i].(piece := p)], n)
  {
    var b := board[i := board[i].(piece := p)];
    assert forall j :: 0 <= j < |b| ==> b[j].x == board[j].x && b[j].y == board[j].y;
  }

  /** Pieces in the bank with the moved piece's id are that piece. */
  lemma SameIdSamePiece(t: Tiles, n: nat, piece: Piece, q: Piece)
    requires Owned(t, n)
    requires piece in t.bank || piece in Placed(t.board)
    requires q in t.bank || q in Placed(t.board)
    requires q.id == piece.id
    ensures q == piece
  {
    OwnedMember(t, n, q);
    OwnedMember(t, n, piece);
    GridPieceById(n, q);
    GridPieceById(n, piece);
  }

  /** Multiset steps of a bank move: the piece leaves the bank, the occupant joins it. */
  lemma BankAlgebra(rest: multiset<Piece>, occ: multiset<Piece>, after: multiset<Piece>, before: multiset<Piece>,
                    moved: multiset<Piece>, bank: multiset<Piece>, grid: multiset<Piece>)
    requires after + occ == before + moved
    requires rest + moved == bank
    requires bank + before == grid
    ensures (rest + occ) + after == grid
  {
    forall q ensures ((rest + occ) + after)[q] == grid[q] {
      assert (after + occ)[q] == (before + moved)[q];
      assert (rest + moved)[q] == bank[q];
      assert (bank + before)[q] == grid[q];
    }
  }

  /** Two updates that add and take back the same pieces cancel. */
  lemma CancelAlgebra(after: multiset<Piece>, middle: multiset<Piece>, before: multiset<Piece>,
                      h: multiset<Piece>, moved: multiset<Piece>)
    requires middle + h == before + moved
    requires after + moved == middle + h
    ensures after == before
  {
    forall q ensures after[q] == before[q] {
      assert (middle + h)[q] == (before + moved)[q];
      assert (after + moved)[q] == (middle + h)[q];
    }
  }

  /** Multiset steps of a return: the piece leaves the board and joins the bank. */
  lemma ReturnAlgebra(bank: multiset<Piece>, after: multiset<Piece>, before: multiset<Piece>,
                      moved: multiset<Piece>, grid: multiset<Piece>)
    requires after + moved == before + multiset{}
    requires bank + before == grid
    ensures (bank + moved) + after == grid
  {
    forall q ensures ((bank + moved) + after)[q] == grid[q] {
      assert (after + moved)[q] == (before + multiset{})[q];
      assert (bank + before)[q] == grid[q];
    }
  }

  /** Taking out the only copy of x and adding it back gives the same multiset. */
  lemma RemoveOne(m: multiset<Piece>, x: Piece)
    requires m[x] == 1
    ensures m[x := 0] + multiset{x} == m
    ensures m - multiset{x} == m[x := 0]
  {
    forall q ensures (m - multiset{x})[q] == m[x := 0][q] {
    }
    forall q ensures (m[x := 0] + multiset{x})[q] == m[q] {
    }
  }

  lemma BankMoveOwned(t: Tiles, n: nat, piece: Piece, i: nat)
    requires InLayout(t.board, n) && Owned(t, n)
    requires piece in t.bank && i < |t.board|
    ensures var r := Tiles(t.board[i := t.board[i].(piece := Some(piece))], Without(t.bank, piece.id) + Held(t.board[i].piece));
      InLayout(r.board, n) && Owned(r, n)
  {
    var placed := t.board[i := t.board[i].(piece := Some(piece))];
    var occupant := Held(t.board[i].piece);
    LayoutKept(t.board, n, i, Some(piece));
    PlacedUpdate(t.board, i, t.board[i].(piece := Some(piece)));
    assert Held(Some(piece)) == [piece];
    forall q | q in t.bank && q.id == piece.id
      ensures q == piece
    {
      SameIdSamePiece(t, n, piece, q);
    }
    WithoutOne(t.bank, piece);
    OwnedMember(t, n, piece);
    var rest := Without(t.bank, piece.id);
    RemoveOne(multiset(t.bank), piece);
    BankAlgebra(multiset(rest), multiset(occupant), multiset(Placed(placed)), multiset(Placed(t.board)),
                multiset{piece}, multiset(t.bank), multiset(GridPieces(n)));
    assert multiset(rest + occupant) == multiset(rest) + multiset(occupant);
  }

  /** Moving a piece onto the slot it already occupies leaves the board as it was. */
  lemma SelfSwapIdentity(board: seq<Slot>, piece: Piece, i: nat)
    requires i < |board| && board[i].piece == Some(piece)
    ensures var placed := board[i := board[i].(piece := Some(piece))];
      placed[i := placed[i].(piece := board[i].piece)] == board
  {
    var placed := board[i := board[i].(piece := Some(piece))];
    assert board[i].(piece := Some(piece)) == board[i];
    assert placed == board;
  }

  /** Swapping the contents of two slots keeps the pieces on the board. */
  lemma SwapKeepsPlaced(board: seq<Slot>, piece: Piece, i: nat, o: nat)
    requires i < |board| && o < |board| && board[o].piece == Some(piece)
    ensures var placed := board[i := board[i].(piece := Some(piece))];
      multiset(Placed(placed[o := placed[o].(piece := board[i].piece)])) == multiset(Placed(board))
  {
    if o == i {
      SelfSwapIdentity(board, piece, i);
    } else {
      var placed := board[i := board[i].(piece := Some(piece))];
      PlacedUpdate(board, i, board[i].(piece := Some(piece)));
      assert Held(Some(piece)) == [piece];
      PlacedUpdate(placed, o, placed[o].(piece := board[i].piece));
      assert Held(placed[o].piece) == [piece];
      var after := placed[o := placed[o].(piece := board[i].piece)];
      CancelAlgebra(multiset(Placed(after)), multiset(Placed(placed)), multiset(Placed(board)),
                    multiset(Held(board[i].piece)), multiset{piece});
    }
  }

  lemma BoardMoveOwned(t: Tiles, n: nat, piece: Piece, i: nat, o: nat)
    requires InLayout(t.board, n) && Owned(t, n)
    requires i < |t.board| && o < |t.board| && t.board[o].piece == Some(piece)
    ensures var placed := t.board[i := t.board[i].(piece := Some(piece))];
      var r := Tiles(placed[o := placed[o].(piece := t.board[i].piece)], t.bank);
      InLayout(r.board, n) && Owned(r, n)
  {
    var placed := t.board[i := t.board[i].(piece := Some(piece))];
    LayoutKept(t.board, n, i, Some(piece));
    LayoutKept(placed, n, o, t.board[i].piece);
    SwapKeepsPlaced(t.board, piece, i, o);
  }

  /** A move whose source is real keeps the layout and the one-owner invariant. */
  lemma MovePreservesOwnership(t: Tiles, n: nat, piece: Piece, origin: Origin, targetX: int, targetY: int,
                               fromX: Option<int>, fromY: Option<int>)
    requires InLayout(t.board, n) && Owned(t, n)
    requires MoveAllowed(t, piece, origin, fromX, fromY)
    ensures InLayout(Move(t, piece, origin, targetX, targetY, fromX, fromY).board, n)
    ensures Owned(Move(t, piece, origin, targetX, targetY, fromX, fromY), n)
  {
    match FindSlot(t.board, targetX, targetY)
    case None =>
    case Some(i) =>
      var placed := t.board[i := t.board[i].(piece := Some(piece))];
      match origin
      case Bank =>
        BankMoveOwned(t, n, piece, i);
      case Board =>
        assert InLayout(placed, n);
        AlignedFind(placed, t.board, n, fromX, fromY);
        var o := FindOrigin(t.board, fromX, fromY).value;
        BoardMoveOwned(t, n, piece, i, o);
  }

  /**
   * A bank piece dropped on the slot at (x, y) of the grid lands there; the bank
   * loses that piece's id and gains the former occupant; no other slot changes.
   */
  lemma BankMoveEvicts(t: Tiles, n: nat, piece: Piece, x: int, y: int)
    requires InLayout(t.board, n) && Owned(t, n)
    requires piece in t.bank
    requires 0 <= x < n && 0 <= y < n
    ensures var i := CellIndex(n, x, y); var r := Move(t, piece, Bank, x, y, None, None);
      && i < |t.board| && |r.board| == |t.board|
      && r.board[i] == t.board[i].(piece := Some(piece))
      && (forall j :: 0 <= j < |t.board| && j != i ==> r.board[j] == t.board[j])
      && (forall q :: q in r.bank ==> q.id != piece.id)
      && (t.board[i].piece.Some? ==> t.board[i].piece.value in r.bank)
      && multiset(r.bank) == multiset(t.bank) - multiset{piece} + multiset(Held(t.board[i].piece))
  {
    BankMoveShape(t, n, piece, x, y);
    var i := CellIndex(n, x, y);
    var occupant := Held(t.board[i].piece);
    BankPieceUnique(t, n, piece);
    if t.board[i].piece.Some? {
      PlacedMembers(t.board, t.board[i].piece.value);
      assert occupant == [t.board[i].piece.value];
    }
    EvictBank(t.bank, piece, occupant);
  }

  /** A bank piece placed at (x, y) of the grid: the slot at index y*n+x takes it, the bank is filtered by its id and gains the occupant. */
  lemma BankMoveShape(t: Tiles, n: nat, piece: Piece, x: int, y: int)
    requires InLayout(t.board, n)
    requires 0 <= x < n && 0 <= y < n
    ensures var i := CellIndex(n, x, y);
      && 0 <= i < |t.board|
      && Move(t, piece, Bank, x, y, None, None)
         == Tiles(t.board[i := t.board[i].(piece := Some(piece))], Without(t.bank, piece.id) + Held(t.board[i].piece))
  {
    FindSlotInLayout(t.board, n, x, y);
  }

  /** Under the one-owner invariant a bank piece is there once, is the only piece with its id, and no slot holds its id. */
  lemma BankPieceUnique(t: Tiles, n: nat, piece: Piece)
    requires Owned(t, n)
    requires piece in t.bank
    ensures multiset(t.bank)[piece] == 1
    ensures forall q :: q in t.bank && q.id == piece.id ==> q == piece
    ensures forall q :: q in Placed(t.board) ==> q.id != piece.id
  {
    OwnedMember(t, n, piece);
    forall q | q in t.bank || q in Placed(t.board)
      ensures q.id == piece.id ==> q == piece
    {
      if q.id == piece.id {
        SameIdSamePiece(t, n, piece, q);
      }
    }
  }

  /** The bank side of a bank move: the piece's id leaves the bank and the occupant joins it. */
  lemma EvictBank(bank: seq<Piece>, piece: Piece, occupant: seq<Piece>)
    requires multiset(bank)[piece] == 1
    requires forall q :: q in bank && q.id == piece.id ==> q == piece
    requires forall q :: q in occupant ==> q.id != piece.id
    ensures forall q :: q in Without(bank, piece.id) + occupant ==> q.id != piece.id
    ensures multiset(Without(bank, piece.id) + occupant) == multiset(bank) - multiset{piece} + multiset(occupant)
  {
    WithoutOne(bank, piece);
    RemoveOne(multiset(bank), piece);
    var rest := Without(bank, piece.id);
    assert multiset(rest + occupant) == multiset(rest) + multiset(occupant);
  }


  /**
   * A board piece moved from (fromX, fromY) to (x, y) swaps the two slots' contents:
   * the target gets the piece, the origin gets the former occupant (possibly none),
   * no other slot and not the bank change; moving a piece onto its own slot changes nothing.
   */
  lemma BoardMoveSwaps(t: Tiles, n: nat, piece: Piece, x: int, y: int, fromX: int, fromY: int)
    requires InLayout(t.board, n)
    requires HeldAt(t.board, Some(fromX), Some(fromY)) == Some(piece)
    requires 0 <= x < n && 0 <= y < n
    ensures var i, o := CellIndex(n, x, y), CellIndex(n, fromX, fromY);
      var r := Move(t, piece, Board, x, y, Some(fromX), Some(fromY));
      && 0 <= i < |t.board| && 0 <= o < |t.board| && |r.board| == |t.board|
      && r.board[i].piece == Some(piece)
      && r.board[o].piece == t.board[i].piece
      && (i != o ==> r.board[i] == t.board[i].(piece := Some(piece)) && r.board[o] == t.board[o].(piece := t.board[i].piece))
      && (forall j :: 0 <= j < |t.board| && j != i && j != o ==> r.board[j] == t.board[j])
      && r.bank == t.bank
      && (i == o ==> r.board == t.board)
  {
    FindSlotInLayout(t.board, n, x, y);
    FindSlotInLayout(t.board, n, fromX, fromY);
    var i := CellIndex(n, x, y);
    var o := FindOrigin(t.board, Some(fromX), Some(fromY)).value;
    assert o == CellIndex(n, fromX, fromY);
    var placed := t.board[i := t.board[i].(piece := Some(piece))];
    LayoutKept(t.board, n, i, Some(piece));
    AlignedFind(placed, t.board, n, Some(fromX), Some(fromY));
    var swapped := placed[o := placed[o].(piece := t.board[i].piece)];
    assert Move(t, piece, Board, x, y, Some(fromX), Some(fromY)) == Tiles(swapped, t.bank);
    if i == o {
      SelfSwapIdentity(t.board, piece, i);
    }
  }

  /** A target off the grid leaves board and bank untouched. */
  lemma MoveOffGridIsNoop(t: Tiles, n: nat, piece: Piece, origin: Origin, x: int, y: int,
                          fromX: Option<int>, fromY: Option<int>)
    requires InLayout(t.board, n)
    requires !(0 <= x < n && 0 <= y < n)
    ensures Move(t, piece, origin, x, y, fromX, fromY) == t
  {
    FindSlotInLayout(t.board, n, x, y);
  }

  // ---------------------------------------------------------------------------
  // Return to bank
  // ---------------------------------------------------------------------------

  /**
   * `handlePieceBankDrop` past its guards: the piece with that id found on the board
   * is appended to the bank and the slot at (fromX, fromY) is emptied; no such piece,
   * no change.
   */
  function Return(t: Tiles, pieceId: int, fromX: Option<int>, fromY: Option<int>): (r: Tiles)
    ensures SameCells(r.board, t.board)
    ensures r == t || (|r.bank| == |t.bank| + 1 && r.bank[..|t.bank|] == t.bank && r.bank[|t.bank|].id == pieceId)
    ensures forall j :: 0 <= j < |t.board| && r.board[j] != t.board[j] ==> r.board[j] == t.board[j].(piece := None)
  {
    match FindPiece(t.board, pieceId)
    case None => t
    case Some(p) =>
      match FindOrigin(t.board, fromX, fromY)
      case None => Tiles(t.board, t.bank + [p])
      case Some(o) => Tiles(t.board[o := t.board[o].(piece := None)], t.bank + [p])
  }

  /** A return whose payload names the piece's own slot keeps the layout and the one-owner invariant. */
  lemma ReturnPreservesOwnership(t: Tiles, n: nat, pieceId: int, fromX: Option<int>, fromY: Option<int>)
    requires InLayout(t.board, n) && Owned(t, n)
    requires DragFromSlot(t, pieceId, fromX, fromY)
    ensures InLayout(Return(t, pieceId, fromX, fromY).board, n)
    ensures Owned(Return(t, pieceId, fromX, fromY), n)
  {
    match FindPiece(t.board, pieceId)
    case None =>
    case Some(p) =>
      var o := FindOrigin(t.board, fromX, fromY).value;
      assert t.board[o].piece == Some(p);
      var emptied := t.board[o := t.board[o].(piece := None)];
      assert Return(t, pieceId, fromX, fromY) == Tiles(emptied, t.bank + [p]);
      LayoutKept(t.board, n, o, None);
      PlacedUpdate(t.board, o, t.board[o].(piece := None));
      assert Held(t.board[o].piece) == [p];
      ReturnAlgebra(multiset(t.bank), multiset(Placed(emptied)), multiset(Placed(t.board)), multiset{p},
                    multiset(GridPieces(n)));
      assert multiset(t.bank + [p]) == multiset(t.bank) + multiset{p};
  }

  /**
   * Returning the piece that sits at (fromX, fromY) of the grid empties exactly that
   * slot and appends exactly that piece to the bank.
   */
  lemma ReturnEmptiesSlot(t: Tiles, n: nat, piece: Piece, fromX: int, fromY: int)
    requires InLayout(t.board, n) && Owned(t, n)
    requires HeldAt(t.board, Some(fromX), Some(fromY)) == Some(piece)
    ensures var o := CellIndex(n, fromX, fromY); var r := Return(t, piece.id, Some(fromX), Some(fromY));
      && 0 <= o < |t.board| && |r.board| == |t.board|
      && r.board[o] == t.board[o].(piece := None)
      && (forall j :: 0 <= j < |t.board| && j != o ==> r.board[j] == t.board[j])
      && r.bank == t.bank + [piece]
  {
    FindSlotInLayout(t.board, n, fromX, fromY);
    var o := FindOrigin(t.board, Some(fromX), Some(fromY)).value;
    assert o == CellIndex(n, fromX, fromY);
    var found := FindPiece(t.board, piece.id);
    assert t.board[o].piece == Some(piece);
    assert found.Some?;
    var k :| 0 <= k < |t.board| && t.board[k].piece == found;
    PlacedMembers(t.board, piece);
    PlacedMembers(t.board, found.value);
    SameIdSamePiece(t, n, piece, found.value);
    assert Return(t, piece.id, Some(fromX), Some(fromY)) == Tiles(t.board[o := t.board[o].(piece := None)], t.bank + [piece]);
  }

  // ---------------------------------------------------------------------------
  // Completion
  // ---------------------------------------------------------------------------

  /** `isBoardFull`: every slot holds a piece. */
  predicate IsBoardFull(board: seq<Slot>)
    ensures IsBoardFull(board) <==> forall s :: s in board ==> s.piece.Some?
  {
    forall i :: 0 <= i < |board| ==> board[i].piece.Some?
  }

  predicate IsPuzzleCorrect(board: seq<Slot>)
    ensures IsPuzzleCorrect(board) ==> IsBoardFull(board)
  {
    forall i :: 0 <= i < |board| ==>
      board[i].piece.Some? && board[i].piece.value.correctX == board[i].x && board[i].piece.value.correctY == board[i].y
  }

  /** The completion effect's condition. */
  predicate CompletionFires(loading: bool, pieces: seq<Piece>, t: Tiles)
    ensures CompletionFires(loading, pieces, t) <==> !loading && |pieces| > 0 && t.bank == [] && IsPuzzleCorrect(t.board)
  {
    !loading && |pieces| > 0 && |t.bank| == 0 && IsBoardFull(t.board) && IsPuzzleCorrect(t.board)
  }

  /** With every piece owned once, an empty bank means a full board. */
  lemma BankEmptyFillsBoard(t: Tiles, n: nat)
    requires InLayout(t.board, n) && Owned(t, n)
    requires t.bank == []
    ensures IsBoardFull(t.board)
  {
    GridPiecesSpec(n);
    assert |multiset(Placed(t.board))| == |multiset(GridPieces(n))|;
    PlacedCount(t.board);
  }

  /** A freshly sliced puzzle, all pieces in the bank and every slot empty, satisfies the one-owner invariant. */
  lemma EmptyBoardOwned(n: nat)
    ensures InLayout(EmptyBoard(n), n)
    ensures Owned(Tiles(EmptyBoard(n), GridPieces(n)), n)
  {
    PlacedNone(EmptyBoard(n));
  }

  lemma {:induction false} PlacedNone(board: seq<Slot>)
    requires forall i :: 0 <= i < |board| ==> board[i].piece.None?
    ensures Placed(board) == []
  {
    if board != [] {
      PlacedNone(board[1..]);
    }
  }

  /** Once loaded, a completion that fires has every slot holding its own piece and the bank empty. */
  lemma CompletionMeansSolved(t: Tiles, n: nat)
    requires InLayout(t.board, n) && Owned(t, n)
    requires CompletionFires(false, GridPieces(n), t)
    ensures t == Tiles(SolvedBoard(n), [])
  {
    var solved := SolvedBoard(n);
    assert n > 0;
    assert |t.board| == |solved| == n * n;
    forall i | 0 <= i < |t.board|
      ensures t.board[i] == solved[i]
    {
      var p := t.board[i].piece.value;
      PlacedMembers(t.board, p);
      OwnedMember(t, n, p);
      GridPieceById(n, p);
      assert t.board[i].x == i % n && t.board[i].y == i / n;
      assert p.id % n == i % n && p.id / n == i / n;
      SameCellSameIndex(n, p.id, i);
    }
  }

  /** The solved board with an empty bank satisfies the completion condition. */
  lemma SolvedMeansCompletion(n: nat)
    requires n > 0
    ensures CompletionFires(false, GridPieces(n), Tiles(SolvedBoard(n), []))
  {
    MulMono(n, 1, n);
  }

  /**
   * Once loaded, completion fires exactly when the bank is empty and every slot
   * holds its own piece: a single empty or misplaced slot prevents it.
   */
  lemma CompletionIffSolved(t: Tiles, n: nat)
    requires n > 0
    requires InLayout(t.board, n) && Owned(t, n)
    ensures CompletionFires(false, GridPieces(n), t) <==> t == Tiles(SolvedBoard(n), [])
  {
    if CompletionFires(false, GridPieces(n), t) {
      CompletionMeansSolved(t, n);
    }
    if t == Tiles(SolvedBoard(n), []) {
      SolvedMeansCompletion(n);
    }
  }
}
