/**
  The board part of saving and loading a game: the board is written out as
  JSON-shaped data (an 8x8 array of optional piece records plus the side to
  move, the game-over flag and the winner) and read back into a board. Piece
  kinds and colours are written as the lower-case names the program uses.
  Loading reads the names back strictly: a name the program never writes is an
  error here.
 */
module Serializer {
  import opened Wrappers
  import opened Pieces
  import opened Board

  /** One serialised piece: the JSON object `{type, color, has_moved, row, col}`. */
  datatype PieceData = PieceData(kind: string, color: string, hasMoved: bool, row: int, col: int)

  /** The serialised board: `{board, current_player, game_over, winner}`; `None` is JSON null. */
  datatype BoardData = BoardData(
    cells: seq<seq<Option<PieceData>>>,
    currentPlayer: string,
    gameOver: bool,
    winner: Option<string>)

  // ---------------------------------------------------------------------------
  // Names

  function KindName(k: Kind): string {
    match k
    case Pawn => "pawn"
    case Rook => "rook"
    case Knight => "knight"
    case Bishop => "bishop"
    case Queen => "queen"
    case King => "king"
  }

  /** The lookup in the table of piece classes. */
  function ParseKind(s: string): (r: Option<Kind>)
    ensures r.Some? ==> KindName(r.value) == s
  {
    if s == "pawn" then Some(Pawn)
    else if s == "rook" then Some(Rook)
    else if s == "knight" then Some(Knight)
    else if s == "bishop" then Some(Bishop)
    else if s == "queen" then Some(Queen)
    else if s == "king" then Some(King)
    else None
  }

  function ColorName(c: Color): string {
    if c == White then "white" else "black"
  }

  function ParseColor(s: string): (r: Option<Color>)
    ensures r.Some? ==> ColorName(r.value) == s
  {
    if s == "white" then Some(White) else if s == "black" then Some(Black) else None
  }

  /** The winner field: null while nobody has won, a colour name, or "draw". */
  function WinnerName(w: Winner): Option<string> {
    match w
    case NoWinner => None
    case Won(c) => Some(ColorName(c))
    case Draw => Some("draw")
  }

  function ParseWinner(s: Option<string>): (r: Option<Winner>)
    ensures r.Some? ==> WinnerName(r.value) == s
  {
    match s
    case None => Some(NoWinner)
    case Some(name) =>
      if name == "draw" then Some(Draw)
      else match ParseColor(name)
        case None => None
        case Some(c) => Some(Won(c))
  }

  /** Every name has exactly one reading. */
  lemma NamesRoundTrip(k: Kind, c: Color, w: Winner)
    ensures ParseKind(KindName(k)) == Some(k)
    ensures ParseColor(ColorName(c)) == Some(c)
    ensures ParseWinner(WinnerName(w)) == Some(w)
  {
  }

  // ---------------------------------------------------------------------------
  // Writing

  function PieceToData(p: Piece): PieceData {
    PieceData(KindName(p.kind), ColorName(p.color), p.hasMoved, p.row, p.col)
  }

  function CellToData(cell: Option<Piece>): Option<PieceData> {
    match cell
    case None => None
    case Some(p) => Some(PieceToData(p))
  }

  /** `_serialize_board`. */
  function SerializeBoard(b: Board): (d: BoardData)
    requires WellFormed(b.grid)
    ensures |d.cells| == 8 && forall r | 0 <= r < 8 :: |d.cells[r]| == 8
    ensures forall r, c | 0 <= r < 8 && 0 <= c < 8 :: d.cells[r][c].None? <==> b.grid[r][c].None?
    ensures forall r, c | 0 <= r < 8 && 0 <= c < 8 && b.grid[r][c].Some? ::
      var p := b.grid[r][c].value;
      var pd := d.cells[r][c].value;
      && ParseKind(pd.kind) == Some(p.kind) && ParseColor(pd.color) == Some(p.color)
      && pd.hasMoved == p.hasMoved && pd.row == p.row && pd.col == p.col
    ensures ParseColor(d.currentPlayer) == Some(b.currentPlayer)
    ensures d.gameOver == b.gameOver && ParseWinner(d.winner) == Some(b.winner)
  {
    NamesRoundTrip(Pawn, b.currentPlayer, b.winner);
    forall r, c | 0 <= r < 8 && 0 <= c < 8 && b.grid[r][c].Some?
      ensures ParseKind(KindName(b.grid[r][c].value.kind)) == Some(b.grid[r][c].value.kind)
      ensures ParseColor(ColorName(b.grid[r][c].value.color)) == Some(b.grid[r][c].value.color)
    {
      NamesRoundTrip(b.grid[r][c].value.kind, b.grid[r][c].value.color, NoWinner);
    }
    var cells := seq(8, r requires 0 <= r < 8 => seq(8, c requires 0 <= c < 8 => CellToData(b.grid[r][c])));
    BoardData(cells, ColorName(b.currentPlayer), b.gameOver, WinnerName(b.winner))
  }

  // ---------------------------------------------------------------------------
  // Reading

  /** A new piece of the named class on the recorded square, with `has_moved` then set. */
  function DecodePiece(d: PieceData): (r: Result<Piece>)
    ensures r.Success? <==> ParseKind(d.kind).Some? && ParseColor(d.color).Some?
    ensures r.Success? ==>
      r.value == Piece(ParseKind(d.kind).value, ParseColor(d.color).value, d.row, d.col, d.hasMoved)
  {
    match ParseKind(d.kind)
    case None => Failure("unknown piece type")
    case Some(k) =>
      match ParseColor(d.color)
      case None => Failure("unknown colour")
      case Some(c) => Success(Piece(k, c, d.row, d.col, d.hasMoved))
  }

  /** The cell `(r, c)` of the data can be read: it exists and holds null or a readable piece. */
  predicate CellReadable(cells: seq<seq<Option<PieceData>>>, r: int, c: int)
    requires 0 <= r && 0 <= c
  {
    r < |cells| && c < |cells[r]| && (cells[r][c].Some? ==> DecodePiece(cells[r][c].value).Success?)
  }

  /** The board content the readable cell `(r, c)` stands for. */
  function CellContent(cells: seq<seq<Option<PieceData>>>, r: int, c: int): Option<Piece>
    requires 0 <= r && 0 <= c && CellReadable(cells, r, c)
  {
    match cells[r][c]
    case None => None
    case Some(d) => Some(DecodePiece(d).value)
  }

  /** The double loop of `restore_board_state` from cell `(r, c)` on: each piece record is
      read and placed on its cell; a missing cell or an unknown name stops the loop. */
  function RestoreCells(cells: seq<seq<Option<PieceData>>>, r: int, c: int, g: Grid): (res: Result<Grid>)
    requires WellFormed(g) && 0 <= r <= 8 && 0 <= c <= 8
    decreases 8 - r, 8 - c
    ensures res.Success? <==>
      forall i, j | 0 <= i < 8 && 0 <= j < 8 && AtOrAfter(Square(i, j), r, c) :: CellReadable(cells, i, j)
    ensures res.Success? ==> WellFormed(res.value)
    ensures res.Success? ==> forall i, j | 0 <= i < 8 && 0 <= j < 8 ::
      res.value[i][j] == if AtOrAfter(Square(i, j), r, c) then CellContent(cells, i, j) else g[i][j]
  {
    if r == 8 then Success(g)
    else if c == 8 then RestoreCells(cells, r + 1, 0, g)
    else if !CellReadable(cells, r, c) then Failure("malformed board data")
    else RestoreCells(cells, r, c + 1, SetCell(g, Square(r, c), CellContent(cells, r, c)))
  }

  /** The data can be read back into a board. */
  predicate Readable(d: BoardData) {
    && (forall i, j | 0 <= i < 8 && 0 <= j < 8 :: CellReadable(d.cells, i, j))
    && ParseColor(d.currentPlayer).Some?
    && ParseWinner(d.winner).Some?
  }

  /** `restore_board_state`: the grid is emptied and refilled from the data, the three
      board-level fields are taken from the data and the move history is kept. */
  function RestoreBoardState(b: Board, d: BoardData): (res: Result<Board>)
    ensures res.Success? <==> Readable(d)
    ensures res.Success? ==>
      var nb := res.value;
      && WellFormed(nb.grid)
      && (forall i, j | 0 <= i < 8 && 0 <= j < 8 :: nb.grid[i][j] == CellContent(d.cells, i, j))
      && nb.currentPlayer == ParseColor(d.currentPlayer).value
      && nb.gameOver == d.gameOver
      && nb.winner == ParseWinner(d.winner).value
      && nb.history == b.history
  {
    var cells := RestoreCells(d.cells, 0, 0, EmptyGrid());
    if cells.Failure? then Failure(cells.error)
    else
      match ParseColor(d.currentPlayer)
      case None => Failure("unknown colour")
      case Some(player) =>
        match ParseWinner(d.winner)
        case None => Failure("unknown winner")
        case Some(w) => Success(Board(cells.value, player, d.gameOver, w, b.history))
  }

  /** Every cell of saved data reads back as the cell it was written from. */
  lemma SerializedCells(saved: Board, d: BoardData)
    requires WellFormed(saved.grid) && d == SerializeBoard(saved)
    ensures Readable(d)
    ensures forall i, j | 0 <= i < 8 && 0 <= j < 8 :: CellContent(d.cells, i, j) == saved.grid[i][j]
  {
    forall i, j | 0 <= i < 8 && 0 <= j < 8
      ensures CellReadable(d.cells, i, j) && CellContent(d.cells, i, j) == saved.grid[i][j]
    {
    }
  }

  /** Restoring saved data reproduces every piece and the three board-level fields of the
      saved board; the history is that of the board restored into. */
  lemma RestoreSerialized(saved: Board, b: Board)
    requires WellFormed(saved.grid)
    ensures RestoreBoardState(b, SerializeBoard(saved)) == Success(saved.(history := b.history))
  {
    var d := SerializeBoard(saved);
    SerializedCells(saved, d);
    var res := RestoreBoardState(b, d);
    GridsEqual(res.value.grid, saved.grid);
  }

  /** Two 8x8 grids with the same cells are the same grid. */
  lemma GridsEqual(g: Grid, h: Grid)
    requires WellFormed(g) && WellFormed(h)
    requires forall i, j | 0 <= i < 8 && 0 <= j < 8 :: g[i][j] == h[i][j]
    ensures g == h
  {
    forall i | 0 <= i < 8
      ensures g[i] == h[i]
    {
      assert forall j | 0 <= j < 8 :: g[i][j] == h[i][j];
    }
  }

  /** Every stored piece record names the cell it is stored in. */
  predicate RecordsOwnCells(d: BoardData) {
    forall i, j | 0 <= i < |d.cells| && 0 <= j < |d.cells[i]| && i < 8 && j < 8 && d.cells[i][j].Some? ::
      d.cells[i][j].value.row == i && d.cells[i][j].value.col == j
  }

  /** A restored board satisfies the board invariant exactly when every piece record
      names the cell it is stored in. */
  lemma RestoredConsistent(b: Board, d: BoardData, res: Result<Board>)
    requires res == RestoreBoardState(b, d) && Readable(d)
    ensures res.Success?
    ensures Consistent(res.value.grid) <==> RecordsOwnCells(d)
  {
    var g: Grid := res.value.grid;
    forall i, j | 0 <= i < 8 && 0 <= j < 8 && CellReadable(d.cells, i, j)
      ensures g[i][j].Some? <==> d.cells[i][j].Some?
      ensures g[i][j].Some? ==> g[i][j].value.row == d.cells[i][j].value.row
      ensures g[i][j].Some? ==> g[i][j].value.col == d.cells[i][j].value.col
    {
      assert g[i][j] == CellContent(d.cells, i, j);
    }
  }

  // ---------------------------------------------------------------------------
  // File names

  predicate EndsWith(s: string, suffix: string) {
    |suffix| <= |s| && s[|s| - |suffix|..] == suffix
  }

  /** The suffix rule of `save_game` and `export_pgn`: append the suffix unless it is already there. */
  function EnsureSuffix(name: string, suffix: string): (r: string)
    ensures EndsWith(r, suffix)
    ensures EndsWith(name, suffix) ==> r == name
    ensures !EndsWith(name, suffix) ==> r == name + suffix
  {
    if EndsWith(name, suffix) then name else name + suffix
  }

  function SaveFileName(name: string): string {
    EnsureSuffix(name, ".json")
  }

  function PgnFileName(name: string): string {
    EnsureSuffix(name, ".pgn")
  }

  /** Normalising a file name twice is normalising it once, and the result always keeps the
      original name as its prefix. */
  lemma SuffixIdempotent(name: string, suffix: string)
    ensures EnsureSuffix(EnsureSuffix(name, suffix), suffix) == EnsureSuffix(name, suffix)
    ensures EnsureSuffix(name, suffix)[..|name|] == name
  {
  }

  /** A saved game file ends in ".json" and an exported one in ".pgn". */
  lemma FileNamesHaveSuffix(name: string)
    ensures EndsWith(SaveFileName(name), ".json") && EndsWith(PgnFileName(name), ".pgn")
    ensures EndsWith(name, ".json") ==> SaveFileName(name) == name
    ensures EndsWith(name, ".pgn") ==> PgnFileName(name) == name
  {
  }
}
