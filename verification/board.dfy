/**
  The board: an 8x8 grid of optional pieces plus the side to move, the
  game-over flag and winner, and the move history. Moves are applied through
  `MakeMove`; the transient apply/restore pair used for check testing is
  `Apply`/`Restore`. Move generation filters pseudo-legal moves against the
  king of the side to move, which is the colour the program always tests.
 */
module Board {
  import opened Wrappers
  import opened Pieces

  datatype Winner = NoWinner | Won(color: Color) | Draw

  datatype Move = Move(from: Square, to: Square)

  /** One history entry; `piece` is the mover after it moved. */
  datatype MoveRecord = MoveRecord(from: Square, to: Square, piece: Piece, captured: Option<Piece>, player: Color)

  datatype Board = Board(grid: Grid, currentPlayer: Color, gameOver: bool, winner: Winner, history: seq<MoveRecord>)

  /** The board invariant: the grid is 8x8 and every piece records its own cell. */
  predicate Valid(b: Board) {
    Consistent(b.grid)
  }

  // ---------------------------------------------------------------------------
  // Initial position

  const BackRankOrder: seq<Kind> := [Rook, Knight, Bishop, Queen, King, Bishop, Knight, Rook]

  function BackRank(color: Color, row: int): seq<Option<Piece>> {
    seq(8, c requires 0 <= c < 8 => Some(Piece(BackRankOrder[c], color, row, c, false)))
  }

  function PawnRank(color: Color, row: int): seq<Option<Piece>> {
    seq(8, c => Some(Piece(Pawn, color, row, c, false)))
  }

  function EmptyRank(): seq<Option<Piece>> {
    seq(8, _ => None)
  }

  /** `__init__` followed by `setup_initial_position`. */
  function InitialBoard(): (b: Board)
    ensures Valid(b)
    ensures forall c | 0 <= c < 8 ::
      && b.grid[1][c] == Some(Piece(Pawn, Black, 1, c, false))
      && b.grid[6][c] == Some(Piece(Pawn, White, 6, c, false))
    ensures forall c | 0 <= c < 8 ::
      && b.grid[0][c] == Some(Piece(BackRankOrder[c], Black, 0, c, false))
      && b.grid[7][c] == Some(Piece(BackRankOrder[c], White, 7, c, false))
    ensures forall r, c | 2 <= r <= 5 && 0 <= c < 8 :: b.grid[r][c].None?
    ensures b.currentPlayer == White && !b.gameOver && b.winner == NoWinner && b.history == []
  {
    var g := [BackRank(Black, 0), PawnRank(Black, 1), EmptyRank(), EmptyRank(),
              EmptyRank(), EmptyRank(), PawnRank(White, 6), BackRank(White, 7)];
    Board(g, White, false, NoWinner, [])
  }

  /** White pawns step towards row 7, where their own back rank stands, and black pawns
      towards row 0: in the initial position no pawn accepts any square. */
  lemma InitialPawnsCannotMove(c: int, nr: int, nc: int)
    requires 0 <= c < 8 && OnBoard(nr, nc)
    ensures !Accepts(InitialBoard().grid[6][c].value, nr, nc, InitialBoard().grid)
    ensures !Accepts(InitialBoard().grid[1][c].value, nr, nc, InitialBoard().grid)
  {
    var g: Grid := InitialBoard().grid;
    assert g[7][nc].Some? && g[7][nc].value.color == White;
    assert g[0][nc].Some? && g[0][nc].value.color == Black;
  }

  // ---------------------------------------------------------------------------
  // Cell access

  /** `get_piece`: the cell's content, or nothing off the board. */
  function GetPiece(b: Board, r: int, c: int): (res: Option<Piece>)
    requires Valid(b)
    ensures !OnBoard(r, c) ==> res.None?
    ensures OnBoard(r, c) ==> res == b.grid[r][c]
    ensures res.Some? ==> res.value.row == r && res.value.col == c
  {
    if 0 <= r < 8 && 0 <= c < 8 then b.grid[r][c] else None
  }

  function SetCell(g: Grid, s: Square, v: Option<Piece>): (r: Grid)
    requires WellFormed(g) && InBounds(s)
    ensures WellFormed(r)
    ensures At(r, s) == v
    ensures forall i, j | 0 <= i < 8 && 0 <= j < 8 && (i != s.row || j != s.col) :: r[i][j] == g[i][j]
  {
    g[s.row := g[s.row][s.col := v]]
  }

  /** Put `p` on the destination, then empty the source square (last, as the program does). */
  function Place(g: Grid, m: Move, p: Piece): (r: Grid)
    requires WellFormed(g) && InBounds(m.from) && InBounds(m.to)
    ensures WellFormed(r)
    ensures At(r, m.from).None?
    ensures m.from != m.to ==> At(r, m.to) == Some(p)
    ensures forall i, j | 0 <= i < 8 && 0 <= j < 8 && (i != m.from.row || j != m.from.col)
                      && (i != m.to.row || j != m.to.col) ::
      r[i][j] == g[i][j]
    ensures Consistent(g) && p.row == m.to.row && p.col == m.to.col ==> Consistent(r)
  {
    SetCell(SetCell(g, m.to, Some(p)), m.from, None)
  }

  /** The mover's square holds a piece and both squares are on the board. */
  predicate Movable(g: Grid, m: Move) {
    WellFormed(g) && InBounds(m.from) && InBounds(m.to) && At(g, m.from).Some?
  }

  /** The transient half of `would_be_in_check_after_move` and `_alpha_beta`:
      the piece moves and records its new square; `has_moved` is untouched. */
  function Apply(g: Grid, m: Move): (r: Grid)
    requires Movable(g, m)
    ensures WellFormed(r)
    ensures Consistent(g) ==> Consistent(r)
  {
    var p := At(g, m.from).value;
    Place(g, m, p.(row := m.to.row, col := m.to.col))
  }

  /** The restoring half: the saved piece goes back to the source square, the saved occupant to the destination. */
  function Restore(g: Grid, m: Move, p: Piece, captured: Option<Piece>): (r: Grid)
    requires WellFormed(g) && InBounds(m.from) && InBounds(m.to)
    ensures WellFormed(r)
  {
    SetCell(SetCell(g, m.from, Some(p)), m.to, captured)
  }

  /** Restoring with the saved values undoes the transient move exactly. */
  lemma ApplyRestore(g: Grid, m: Move)
    requires Movable(g, m)
    ensures Restore(Apply(g, m), m, At(g, m.from).value, At(g, m.to)) == g
  {
    var r := Restore(Apply(g, m), m, At(g, m.from).value, At(g, m.to));
    forall i | 0 <= i < 8
      ensures r[i] == g[i]
    {
      assert forall j | 0 <= j < 8 :: r[i][j] == g[i][j];
    }
  }

  // ---------------------------------------------------------------------------
  // Finding the king and detecting check

  predicate IsKingOf(g: Grid, r: int, c: int, color: Color)
    requires WellFormed(g) && OnBoard(r, c)
  {
    g[r][c].Some? && g[r][c].value.kind == King && g[r][c].value.color == color
  }

  /** The first king of `color` at or after `(r, c)` in row-major order. */
  function FindKingFrom(g: Grid, color: Color, r: int, c: int): (res: Option<Square>)
    requires WellFormed(g) && 0 <= r <= 8 && 0 <= c <= 8
    decreases |g| - r, 8 - c
    ensures res.None? <==>
      forall i, j {:trigger IsKingOf(g, i, j, color)} | OnBoard(i, j) && AtOrAfter(Square(i, j), r, c) ::
        !IsKingOf(g, i, j, color)
    ensures res.Some? ==>
      && InBounds(res.value) && AtOrAfter(res.value, r, c)
      && IsKingOf(g, res.value.row, res.value.col, color)
      && forall i, j {:trigger IsKingOf(g, i, j, color)}
           | OnBoard(i, j) && AtOrAfter(Square(i, j), r, c) && Index(Square(i, j)) < Index(res.value) ::
           !IsKingOf(g, i, j, color)
  {
    if r == 8 then None
    else if c == 8 then FindKingFrom(g, color, r + 1, 0)
    else if IsKingOf(g, r, c, color) then Some(Square(r, c))
    else FindKingFrom(g, color, r, c + 1)
  }

  /** `find_king`: the first king of `color` in row-major order, if any. */
  function FindKing(g: Grid, color: Color): (res: Option<Square>)
    requires WellFormed(g)
    ensures res.None? <==> forall i, j {:trigger IsKingOf(g, i, j, color)} | OnBoard(i, j) :: !IsKingOf(g, i, j, color)
    ensures res.Some? ==>
      && InBounds(res.value) && IsKingOf(g, res.value.row, res.value.col, color)
      && forall i, j {:trigger IsKingOf(g, i, j, color)} | OnBoard(i, j) && Index(Square(i, j)) < Index(res.value) ::
           !IsKingOf(g, i, j, color)
  {
    FindKingFrom(g, color, 0, 0)
  }

  /** The piece on `(r, c)` has colour `color` and accepts the square `k`. */
  predicate Attacks(g: Grid, r: int, c: int, color: Color, k: Square)
    requires Consistent(g) && OnBoard(r, c) && InBounds(k)
  {
    g[r][c].Some? && g[r][c].value.color == color && Accepts(g[r][c].value, k.row, k.col, g)
  }

  /** Some piece of `color` at or after `(r, c)` attacks `k`. */
  function AttackerFrom(g: Grid, color: Color, k: Square, r: int, c: int): (res: bool)
    requires Consistent(g) && InBounds(k) && 0 <= r <= 8 && 0 <= c <= 8
    decreases |g| - r, 8 - c
    ensures res <==> exists i, j {:trigger Attacks(g, i, j, color, k)} | OnBoard(i, j) && AtOrAfter(Square(i, j), r, c) ::
      Attacks(g, i, j, color, k)
  {
    if r == 8 then false
    else if c == 8 then AttackerFrom(g, color, k, r + 1, 0)
    else Attacks(g, r, c, color, k) || AttackerFrom(g, color, k, r, c + 1)
  }

  /** `is_in_check`: false without a king, else some opposing piece accepts the king's square. */
  function IsInCheck(g: Grid, color: Color): (res: bool)
    requires Consistent(g)
    ensures FindKing(g, color).None? ==> !res
    ensures FindKing(g, color).Some? ==>
      (res <==> exists i, j {:trigger Attacks(g, i, j, Opponent(color), FindKing(g, color).value)} | OnBoard(i, j) ::
              Attacks(g, i, j, Opponent(color), FindKing(g, color).value))
  {
    match FindKing(g, color)
    case None => false
    case Some(k) => AttackerFrom(g, Opponent(color), k, 0, 0)
  }

  /** `would_be_in_check_after_move`: always tests the king of the side to move. */
  predicate WouldBeInCheck(g: Grid, current: Color, m: Move)
    requires Consistent(g) && Movable(g, m)
  {
    IsInCheck(Apply(g, m), current)
  }

  // ---------------------------------------------------------------------------
  // Move generation

  /** A move the generator lists for `color`: a piece of `color` whose rule accepts
      the destination, and which does not leave `current`'s king attacked. */
  predicate Generated(g: Grid, current: Color, color: Color, m: Move)
    requires Consistent(g)
  {
    && InBounds(m.from) && InBounds(m.to)
    && At(g, m.from).Some? && At(g, m.from).value.color == color
    && Accepts(At(g, m.from).value, m.to.row, m.to.col, g)
    && !WouldBeInCheck(g, current, m)
  }

  /** Row-major order by source, then by destination. */
  predicate MoveBefore(a: Move, b: Move) {
    Index(a.from) < Index(b.from) || (a.from == b.from && Index(a.to) < Index(b.to))
  }

  /** Sorted by source, then by destination, in row-major order. */
  predicate MovesSorted(ms: seq<Move>) {
    forall i, j | 0 <= i < j < |ms| :: MoveBefore(ms[i], ms[j])
  }

  /** The destinations from `from` that keep `current`'s king safe, in their given order. */
  function SafeMoves(g: Grid, current: Color, from: Square, ds: seq<Square>): (ms: seq<Move>)
    requires Consistent(g) && InBounds(from) && At(g, from).Some?
    requires forall d | d in ds :: InBounds(d)
    ensures forall m | m in ms :: m.from == from && m.to in ds
  {
    if |ds| == 0 then []
    else
      var rest := SafeMoves(g, current, from, ds[1..]);
      var m := Move(from, ds[0]);
      if !WouldBeInCheck(g, current, m) then [m] + rest else rest
  }

  /** Exactly the listed destinations that do not leave the king attacked survive. */
  lemma {:induction false} SafeMovesMembers(g: Grid, current: Color, from: Square, ds: seq<Square>)
    requires Consistent(g) && InBounds(from) && At(g, from).Some?
    requires forall d | d in ds :: InBounds(d)
    ensures forall m :: m in SafeMoves(g, current, from, ds) <==>
      m.from == from && m.to in ds && !WouldBeInCheck(g, current, m)
  {
    if |ds| > 0 {
      SafeMovesMembers(g, current, from, ds[1..]);
      assert forall d :: d in ds <==> d == ds[0] || d in ds[1..];
    }
  }

  /** A move before every move of a sorted list, put in front of it, keeps it sorted. */
  lemma ConsSorted(m: Move, rest: seq<Move>)
    requires MovesSorted(rest) && forall x | x in rest :: MoveBefore(m, x)
    ensures MovesSorted([m] + rest)
  {
    forall i, j | 0 <= i < j < |[m] + rest|
      ensures MoveBefore(([m] + rest)[i], ([m] + rest)[j])
    {
      assert ([m] + rest)[j] == rest[j - 1];
      if i > 0 {
        assert ([m] + rest)[i] == rest[i - 1];
      }
    }
  }

  lemma {:induction false} SafeMovesSorted(g: Grid, current: Color, from: Square, ds: seq<Square>)
    requires Consistent(g) && InBounds(from) && At(g, from).Some?
    requires forall d | d in ds :: InBounds(d)
    requires SquaresSorted(ds)
    ensures MovesSorted(SafeMoves(g, current, from, ds))
  {
    if |ds| > 0 {
      SafeMovesSorted(g, current, from, ds[1..]);
      var rest := SafeMoves(g, current, from, ds[1..]);
      var m := Move(from, ds[0]);
      forall x | x in rest
        ensures MoveBefore(m, x)
      {
        var k :| 0 <= k < |ds[1..]| && ds[1..][k] == x.to;
        assert ds[k + 1] == x.to;
      }
      ConsSorted(m, rest);
    }
  }

  /** Generated moves whose source is at or after `(r, c)`. */
  function MovesFrom(g: Grid, current: Color, color: Color, r: int, c: int): (ms: seq<Move>)
    requires Consistent(g) && 0 <= r <= 8 && 0 <= c <= 8
    decreases |g| - r, 8 - c
    ensures forall m | m in ms ::
      Movable(g, m) && At(g, m.from).value.color == color && AtOrAfter(m.from, r, c)
  {
    if r == 8 then []
    else if c == 8 then MovesFrom(g, current, color, r + 1, 0)
    else
      var rest := MovesFrom(g, current, color, r, c + 1);
      var cell := g[r][c];
      if cell.Some? && cell.value.color == color then
        SafeMoves(g, current, Square(r, c), PossibleMoves(cell.value, g)) + rest
      else rest
  }

  lemma {:induction false} MovesFromMembers(g: Grid, current: Color, color: Color, r: int, c: int)
    requires Consistent(g) && 0 <= r <= 8 && 0 <= c <= 8
    decreases |g| - r, 8 - c
    ensures forall m :: m in MovesFrom(g, current, color, r, c) <==>
      AtOrAfter(m.from, r, c) && Generated(g, current, color, m)
  {
    if r < 8 {
      if c == 8 {
        MovesFromMembers(g, current, color, r + 1, 0);
      } else {
        MovesFromMembers(g, current, color, r, c + 1);
        var cell := g[r][c];
        if cell.Some? && cell.value.color == color {
          PossibleMovesMembers(cell.value, g);
          SafeMovesMembers(g, current, Square(r, c), PossibleMoves(cell.value, g));
        }
      }
    }
  }

  lemma {:induction false} MovesFromSorted(g: Grid, current: Color, color: Color, r: int, c: int)
    requires Consistent(g) && 0 <= r <= 8 && 0 <= c <= 8
    decreases |g| - r, 8 - c
    ensures MovesSorted(MovesFrom(g, current, color, r, c))
  {
    if r < 8 {
      if c == 8 {
        MovesFromSorted(g, current, color, r + 1, 0);
      } else {
        MovesFromSorted(g, current, color, r, c + 1);
        var cell := g[r][c];
        if cell.Some? && cell.value.color == color {
          var from := Square(r, c);
          var ds := PossibleMoves(cell.value, g);
          PossibleMovesSorted(cell.value, g);
          SafeMovesSorted(g, current, from, ds);
          SortedBlocks(SafeMoves(g, current, from, ds), MovesFrom(g, current, color, r, c + 1), from);
        }
      }
    }
  }

  /** A sorted block from one source followed by sorted moves from later sources is sorted. */
  lemma SortedBlocks(here: seq<Move>, rest: seq<Move>, from: Square)
    requires forall m | m in here :: m.from == from
    requires forall m | m in rest :: Index(from) < Index(m.from)
    requires MovesSorted(here) && MovesSorted(rest)
    ensures MovesSorted(here + rest)
  {
    forall i, j | 0 <= i < j < |here + rest|
      ensures MoveBefore((here + rest)[i], (here + rest)[j])
    {
      if j < |here| {
        assert (here + rest)[i] == here[i] && (here + rest)[j] == here[j];
      } else if i >= |here| {
        assert (here + rest)[i] == rest[i - |here|] && (here + rest)[j] == rest[j - |here|];
      } else {
        assert (here + rest)[i] in here && (here + rest)[j] in rest;
      }
    }
  }

  /** `get_all_possible_moves(color)` on a grid whose side to move is `current`. */
  function LegalMoves(g: Grid, current: Color, color: Color): (ms: seq<Move>)
    requires Consistent(g)
    ensures forall m | m in ms :: Movable(g, m) && At(g, m.from).value.color == color
  {
    MovesFrom(g, current, color, 0, 0)
  }

  /** Exactly the generated moves are listed: in bounds, of the right colour, accepted by
      the piece's rule, and not leaving the king of the side to move attacked. */
  lemma LegalMovesMembers(g: Grid, current: Color, color: Color)
    requires Consistent(g)
    ensures forall m :: m in LegalMoves(g, current, color) <==> Generated(g, current, color, m)
  {
    MovesFromMembers(g, current, color, 0, 0);
  }

  /** The generated moves come out by source square in row-major order, then by destination. */
  lemma LegalMovesSorted(g: Grid, current: Color, color: Color)
    requires Consistent(g)
    ensures MovesSorted(LegalMoves(g, current, color))
  {
    MovesFromSorted(g, current, color, 0, 0);
  }

  /** `get_all_possible_moves` of the board. */
  function GetAllPossibleMoves(b: Board, color: Color): seq<Move>
    requires Valid(b)
  {
    LegalMoves(b.grid, b.currentPlayer, color)
  }

  /** No generated move leaves the king of the side to move attacked. */
  lemma NoSelfCheck(b: Board, color: Color, m: Move)
    requires Valid(b) && m in GetAllPossibleMoves(b, color)
    ensures Movable(b.grid, m) && !IsInCheck(Apply(b.grid, m), b.currentPlayer)
    ensures At(b.grid, m.from).value.color == color
  {
    LegalMovesMembers(b.grid, b.currentPlayer, color);
  }

  // ---------------------------------------------------------------------------
  // Terminal conditions

  predicate IsCheckmate(b: Board, color: Color)
    requires Valid(b)
  {
    IsInCheck(b.grid, color) && |GetAllPossibleMoves(b, color)| == 0
  }

  predicate IsStalemate(b: Board, color: Color)
    requires Valid(b)
  {
    !IsInCheck(b.grid, color) && |GetAllPossibleMoves(b, color)| == 0
  }

  /** `check_game_end`: checkmate and stalemate both need zero moves and differ on check. */
  function CheckGameEnd(b: Board): (r: Board)
    requires Valid(b)
    ensures r.grid == b.grid && r.currentPlayer == b.currentPlayer && r.history == b.history
    ensures |GetAllPossibleMoves(b, b.currentPlayer)| == 0 && IsInCheck(b.grid, b.currentPlayer) ==>
      r.gameOver && r.winner == Won(Opponent(b.currentPlayer))
    ensures |GetAllPossibleMoves(b, b.currentPlayer)| == 0 && !IsInCheck(b.grid, b.currentPlayer) ==>
      r.gameOver && r.winner == Draw
    ensures |GetAllPossibleMoves(b, b.currentPlayer)| > 0 ==> r == b
  {
    if IsCheckmate(b, b.currentPlayer) then
      b.(gameOver := true, winner := Won(Opponent(b.currentPlayer)))
    else if IsStalemate(b, b.currentPlayer) then
      b.(gameOver := true, winner := Draw)
    else
      b
  }

  // ---------------------------------------------------------------------------
  // make_move

  const MsgNoPiece := "No piece at source position"
  const MsgNotYours := "Not your piece"
  const MsgBadDestination := "Invalid destination"
  const MsgBadShape := "Invalid move for this piece"
  const MsgIntoCheck := "Move would put king in check"
  const MsgSuccess := "Move successful"

  datatype MoveResult = MoveResult(success: bool, message: string, board: Board)

  /** `make_move`: five rejections in order, then the move, the record, the turn flip
      and the game-end check. Nothing refuses a move after the game is over. */
  function MakeMove(b: Board, from: Square, to: Square): (res: MoveResult)
    requires Valid(b)
    ensures !res.success ==> res.board == b
    ensures res.success <==> res.message == MsgSuccess
    ensures res.message == MsgNoPiece <==> GetPiece(b, from.row, from.col).None?
    ensures res.message == MsgNotYours <==>
      GetPiece(b, from.row, from.col).Some? && GetPiece(b, from.row, from.col).value.color != b.currentPlayer
    ensures res.message == MsgBadDestination <==>
      GetPiece(b, from.row, from.col).Some? && GetPiece(b, from.row, from.col).value.color == b.currentPlayer
      && !InBounds(to)
    ensures res.message == MsgBadShape <==>
      && GetPiece(b, from.row, from.col).Some? && GetPiece(b, from.row, from.col).value.color == b.currentPlayer
      && InBounds(to) && !Accepts(At(b.grid, from).value, to.row, to.col, b.grid)
    ensures res.message == MsgIntoCheck <==>
      && GetPiece(b, from.row, from.col).Some? && GetPiece(b, from.row, from.col).value.color == b.currentPlayer
      && InBounds(to) && Accepts(At(b.grid, from).value, to.row, to.col, b.grid)
      && WouldBeInCheck(b.grid, b.currentPlayer, Move(from, to))
    ensures res.success ==>
      && Generated(b.grid, b.currentPlayer, b.currentPlayer, Move(from, to))
      && Valid(res.board)
      && from != to
      && At(res.board.grid, to) == Some(MoveTo(At(b.grid, from).value, to.row, to.col))
      && At(res.board.grid, from).None?
      && (forall i, j | 0 <= i < 8 && 0 <= j < 8 && (i != from.row || j != from.col) && (i != to.row || j != to.col) ::
            res.board.grid[i][j] == b.grid[i][j])
      && res.board.history == b.history + [MoveRecord(from, to, MoveTo(At(b.grid, from).value, to.row, to.col),
                                                      At(b.grid, to), b.currentPlayer)]
      && res.board.currentPlayer == Opponent(b.currentPlayer)
    ensures res.success ==>
      var a := res.board;
      && (|GetAllPossibleMoves(a, a.currentPlayer)| == 0 && IsInCheck(a.grid, a.currentPlayer) ==>
            a.gameOver && a.winner == Won(b.currentPlayer))
      && (|GetAllPossibleMoves(a, a.currentPlayer)| == 0 && !IsInCheck(a.grid, a.currentPlayer) ==>
            a.gameOver && a.winner == Draw)
      && (|GetAllPossibleMoves(a, a.currentPlayer)| > 0 ==> a.gameOver == b.gameOver && a.winner == b.winner)
  {
    var piece := GetPiece(b, from.row, from.col);
    if piece.None? then MoveResult(false, MsgNoPiece, b)
    else if piece.value.color != b.currentPlayer then MoveResult(false, MsgNotYours, b)
    else if !(0 <= to.row < 8 && 0 <= to.col < 8) then MoveResult(false, MsgBadDestination, b)
    else if !Accepts(piece.value, to.row, to.col, b.grid) then MoveResult(false, MsgBadShape, b)
    else if WouldBeInCheck(b.grid, b.currentPlayer, Move(from, to)) then MoveResult(false, MsgIntoCheck, b)
    else
      var p := piece.value;
      var captured := At(b.grid, to);
      var moved := MoveTo(p, to.row, to.col);
      var grid := Place(b.grid, Move(from, to), moved);
      var record := MoveRecord(from, to, moved, captured, b.currentPlayer);
      var next := Board(grid, Opponent(b.currentPlayer), b.gameOver, b.winner, b.history + [record]);
      MoveResult(true, MsgSuccess, CheckGameEnd(next))
  }

}
