/**
  Piece rules: the movement predicate of each piece kind over an 8x8 grid of
  optional pieces, and the row-major scan that lists a piece's accepted
  destinations. The rules are pseudo-legal: they ignore whether the move
  exposes the mover's king. There is no castling, en passant or promotion.
 */
module Pieces {
  import opened Wrappers

  datatype Color = White | Black

  function Opponent(c: Color): Color {
    if c == White then Black else White
  }

  datatype Kind = Pawn | Rook | Knight | Bishop | Queen | King

  /** A piece records its own square; the grid records it too. */
  datatype Piece = Piece(kind: Kind, color: Color, row: int, col: int, hasMoved: bool)

  datatype Square = Square(row: int, col: int)

  /** `grid[row][col]`, row 0 is black's back rank and row 7 is white's. */
  type Grid = seq<seq<Option<Piece>>>

  predicate OnBoard(r: int, c: int) {
    0 <= r < 8 && 0 <= c < 8
  }

  predicate InBounds(s: Square) {
    OnBoard(s.row, s.col)
  }

  /** The cell of a square. */
  function At(g: Grid, s: Square): Option<Piece>
    requires WellFormed(g) && InBounds(s)
  {
    g[s.row][s.col]
  }

  predicate WellFormed(g: Grid) {
    |g| == 8 && forall r | 0 <= r < 8 :: |g[r]| == 8
  }

  /** Every occupied cell holds a piece that records that very cell. */
  predicate Consistent(g: Grid) {
    && WellFormed(g)
    && forall r, c | 0 <= r < 8 && 0 <= c < 8 && g[r][c].Some? ::
         g[r][c].value.row == r && g[r][c].value.col == c
  }

  /** Row-major position of a square: the order every scan of the program uses. */
  function Index(s: Square): int {
    8 * s.row + s.col
  }

  /** `s` is not before `(r, c)` in a row-major scan (`c` may be 8, meaning "next row"). */
  predicate AtOrAfter(s: Square, r: int, c: int) {
    s.row > r || (s.row == r && s.col >= c)
  }

  function Abs(x: int): nat {
    if x < 0 then -x else x
  }

  /** The coordinate `k` steps from `a` towards `b` (stays at `a` when `a == b`). */
  function Walk(a: int, b: int, k: int): int {
    if a < b then a + k else if a > b then a - k else a
  }

  /** Number of unit steps from one square to another along a line. */
  function Steps(r0: int, c0: int, r1: int, c1: int): nat {
    if Abs(r1 - r0) >= Abs(c1 - c0) then Abs(r1 - r0) else Abs(c1 - c0)
  }

  /** Same row, same column, or same diagonal. */
  predicate Aligned(r0: int, c0: int, r1: int, c1: int) {
    r0 == r1 || c0 == c1 || Abs(r1 - r0) == Abs(c1 - c0)
  }

  /** Every cell strictly between the two squares on their common line is empty. */
  predicate PathClear(g: Grid, r0: int, c0: int, r1: int, c1: int)
    requires WellFormed(g) && OnBoard(r0, c0) && OnBoard(r1, c1) && Aligned(r0, c0, r1, c1)
  {
    forall k | 1 <= k < Steps(r0, c0, r1, c1) :: g[Walk(r0, r1, k)][Walk(c0, c1, k)].None?
  }

  /** The destination is empty or holds a piece of the other colour. */
  predicate TargetOk(p: Piece, g: Grid, r: int, c: int)
    requires WellFormed(g) && OnBoard(r, c)
  {
    g[r][c].None? || g[r][c].value.color != p.color
  }

  /** White pawns step +1 in row, black pawns -1. */
  function Direction(c: Color): int {
    if c == White then 1 else -1
  }

  predicate PawnAccepts(p: Piece, nr: int, nc: int, g: Grid)
    requires WellFormed(g) && OnBoard(nr, nc)
  {
    var rowDiff := nr - p.row;
    var colDiff := Abs(nc - p.col);
    var dir := Direction(p.color);
    if colDiff == 0 then
      (rowDiff == dir && g[nr][nc].None?)
      || (!p.hasMoved && rowDiff == 2 * dir && g[nr][nc].None?)
    else if colDiff == 1 && rowDiff == dir then
      g[nr][nc].Some? && g[nr][nc].value.color != p.color
    else
      false
  }

  /** Rook-style move: the path is clear and the target is empty or an enemy. */
  predicate StraightAccepts(p: Piece, nr: int, nc: int, g: Grid)
    requires WellFormed(g) && OnBoard(p.row, p.col) && OnBoard(nr, nc)
    requires nr == p.row || nc == p.col
  {
    PathClear(g, p.row, p.col, nr, nc) && TargetOk(p, g, nr, nc)
  }

  /** Bishop-style move: the diagonal is clear and the target is empty or an enemy. */
  predicate DiagonalAccepts(p: Piece, nr: int, nc: int, g: Grid)
    requires WellFormed(g) && OnBoard(p.row, p.col) && OnBoard(nr, nc)
    requires Abs(nr - p.row) == Abs(nc - p.col)
  {
    PathClear(g, p.row, p.col, nr, nc) && TargetOk(p, g, nr, nc)
  }

  /** `is_valid_move` of each piece kind: one case per kind. */
  function Accepts(p: Piece, nr: int, nc: int, g: Grid): (ok: bool)
    requires WellFormed(g) && OnBoard(p.row, p.col) && OnBoard(nr, nc)
    ensures ok ==> TargetOk(p, g, nr, nc)
    ensures g[p.row][p.col].Some? && g[p.row][p.col].value.color == p.color
            ==> !(ok && nr == p.row && nc == p.col)
  {
    var rd := Abs(nr - p.row);
    var cd := Abs(nc - p.col);
    match p.kind
    case Pawn => PawnAccepts(p, nr, nc, g)
    case Rook =>
      if nr == p.row || nc == p.col then StraightAccepts(p, nr, nc, g) else false
    case Knight =>
      if (rd == 2 && cd == 1) || (rd == 1 && cd == 2) then TargetOk(p, g, nr, nc) else false
    case Bishop =>
      if rd == cd && rd > 0 then DiagonalAccepts(p, nr, nc, g) else false
    case Queen =>
      var rookMove := nr == p.row || nc == p.col;
      var bishopMove := rd == cd;
      if rookMove then StraightAccepts(p, nr, nc, g)
      else if bishopMove then DiagonalAccepts(p, nr, nc, g)
      else false
    case King =>
      if rd <= 1 && cd <= 1 && rd + cd > 0 then TargetOk(p, g, nr, nc) else false
  }

  /** The straight-path loop shared by rooks and queens, as the program walks it. */
  method StraightPathClear(p: Piece, nr: int, nc: int, g: Grid) returns (ok: bool)
    requires WellFormed(g) && OnBoard(p.row, p.col) && OnBoard(nr, nc)
    requires nr == p.row || nc == p.col
    ensures ok == StraightAccepts(p, nr, nc, g)
  {
    var rowStep := if nr == p.row then 0 else if nr > p.row then 1 else -1;
    var colStep := if nc == p.col then 0 else if nc > p.col then 1 else -1;
    var r, c := p.row + rowStep, p.col + colStep;
    ghost var k := 1;
    ghost var n := Steps(p.row, p.col, nr, nc);
    while r != nr || c != nc
      invariant 1 <= k && (k <= n || (n == 0 && k == 1))
      invariant r == Walk(p.row, nr, k) && c == Walk(p.col, nc, k)
      invariant forall j | 1 <= j < k :: g[Walk(p.row, nr, j)][Walk(p.col, nc, j)].None?
      decreases n + 1 - k
    {
      if g[r][c].Some? {
        return false;
      }
      r, c, k := r + rowStep, c + colStep, k + 1;
    }
    ok := g[nr][nc].None? || g[nr][nc].value.color != p.color;
  }

  /** The diagonal-path loop shared by bishops and queens; it stops on the row alone. */
  method DiagonalPathClear(p: Piece, nr: int, nc: int, g: Grid) returns (ok: bool)
    requires WellFormed(g) && OnBoard(p.row, p.col) && OnBoard(nr, nc)
    requires Abs(nr - p.row) == Abs(nc - p.col) > 0
    ensures ok == DiagonalAccepts(p, nr, nc, g)
  {
    var rowStep := if nr > p.row then 1 else -1;
    var colStep := if nc > p.col then 1 else -1;
    var r := p.row + rowStep;
    var c := p.col + colStep;
    ghost var k := 1;
    ghost var n := Steps(p.row, p.col, nr, nc);
    while r != nr
      invariant 1 <= k <= n
      invariant r == Walk(p.row, nr, k) && c == Walk(p.col, nc, k)
      invariant forall j | 1 <= j < k :: g[Walk(p.row, nr, j)][Walk(p.col, nc, j)].None?
      decreases n - k
    {
      if g[r][c].Some? {
        return false;
      }
      r, c, k := r + rowStep, c + colStep, k + 1;
    }
    ok := g[nr][nc].None? || g[nr][nc].value.color != p.color;
  }

  /** Accepted destinations at or after `(r, c)` in row-major order. */
  function MovesFrom(p: Piece, g: Grid, r: int, c: int): (ms: seq<Square>)
    requires WellFormed(g) && OnBoard(p.row, p.col)
    requires 0 <= r <= 8 && 0 <= c <= 8
    decreases |g| - r, 8 - c
    ensures forall s | s in ms :: OnBoard(s.row, s.col) && AtOrAfter(s, r, c)
  {
    if r == 8 then []
    else if c == 8 then MovesFrom(p, g, r + 1, 0)
    else
      var rest := MovesFrom(p, g, r, c + 1);
      if Accepts(p, r, c, g) then [Square(r, c)] + rest else rest
  }

  lemma {:induction false} MovesFromMembers(p: Piece, g: Grid, r: int, c: int)
    requires WellFormed(g) && OnBoard(p.row, p.col)
    requires 0 <= r <= 8 && 0 <= c <= 8
    decreases |g| - r, 8 - c
    ensures forall s :: s in MovesFrom(p, g, r, c) <==>
      OnBoard(s.row, s.col) && AtOrAfter(s, r, c) && Accepts(p, s.row, s.col, g)
  {
    if r < 8 {
      if c == 8 {
        MovesFromMembers(p, g, r + 1, 0);
      } else {
        MovesFromMembers(p, g, r, c + 1);
      }
    }
  }

  /** `get_possible_moves`: every on-board destination the piece accepts, row-major. */
  function PossibleMoves(p: Piece, g: Grid): (ms: seq<Square>)
    requires WellFormed(g) && OnBoard(p.row, p.col)
    ensures forall s | s in ms :: InBounds(s)
  {
    MovesFrom(p, g, 0, 0)
  }

  /** Exactly the on-board squares the piece's rule accepts are listed. */
  lemma PossibleMovesMembers(p: Piece, g: Grid)
    requires WellFormed(g) && OnBoard(p.row, p.col)
    ensures forall s :: s in PossibleMoves(p, g) <==> OnBoard(s.row, s.col) && Accepts(p, s.row, s.col, g)
  {
    MovesFromMembers(p, g, 0, 0);
  }

  /** Strictly increasing in row-major order, so in particular free of repeats. */
  predicate SquaresSorted(ds: seq<Square>) {
    forall i, j | 0 <= i < j < |ds| :: Index(ds[i]) < Index(ds[j])
  }

  lemma {:induction false} MovesFromSorted(p: Piece, g: Grid, r: int, c: int)
    requires WellFormed(g) && OnBoard(p.row, p.col)
    requires 0 <= r <= 8 && 0 <= c <= 8
    decreases |g| - r, 8 - c
    ensures SquaresSorted(MovesFrom(p, g, r, c))
  {
    if r < 8 {
      if c == 8 {
        MovesFromSorted(p, g, r + 1, 0);
      } else {
        MovesFromSorted(p, g, r, c + 1);
        var rest := MovesFrom(p, g, r, c + 1);
        assert forall s | s in rest :: Index(Square(r, c)) < Index(s);
      }
    }
  }

  /** The destinations come out in row-major order, as the nested scan of the program visits them. */
  lemma PossibleMovesSorted(p: Piece, g: Grid)
    requires WellFormed(g) && OnBoard(p.row, p.col)
    ensures SquaresSorted(PossibleMoves(p, g))
  {
    MovesFromSorted(p, g, 0, 0);
  }

  /** `move_to`: the piece records its new square and that it has moved. */
  function MoveTo(p: Piece, r: int, c: int): Piece {
    p.(row := r, col := c, hasMoved := true)
  }

  // ---------------------------------------------------------------------------
  // Reference descriptions of each kind's rule, and their equivalence proofs.

  /** `x` lies strictly between `a` and `b`. */
  predicate Between(a: int, x: int, b: int) {
    (a < x < b) || (b < x < a)
  }

  /** `(r, c)` lies strictly inside the row or column segment from `(r0, c0)` to `(r1, c1)`. */
  predicate StraightBetween(r0: int, c0: int, r1: int, c1: int, r: int, c: int) {
    (r == r0 && r0 == r1 && Between(c0, c, c1)) || (c == c0 && c0 == c1 && Between(r0, r, r1))
  }

  /** `(r, c)` lies strictly inside the diagonal segment from `(r0, c0)` to `(r1, c1)`. */
  predicate DiagonalBetween(r0: int, c0: int, r1: int, c1: int, r: int, c: int) {
    Between(r0, r, r1) && Between(c0, c, c1) && Abs(r - r0) == Abs(c - c0)
  }

  const KnightJumps: set<(int, int)> :=
    {(1, 2), (2, 1), (-1, 2), (-2, 1), (1, -2), (2, -1), (-1, -2), (-2, -1)}

  lemma KnightRule(p: Piece, nr: int, nc: int, g: Grid)
    requires WellFormed(g) && OnBoard(p.row, p.col) && OnBoard(nr, nc)
    requires p.kind == Knight
    ensures Accepts(p, nr, nc, g) <==> (nr - p.row, nc - p.col) in KnightJumps && TargetOk(p, g, nr, nc)
  {
  }

  lemma KingRule(p: Piece, nr: int, nc: int, g: Grid)
    requires WellFormed(g) && OnBoard(p.row, p.col) && OnBoard(nr, nc)
    requires p.kind == King
    ensures Accepts(p, nr, nc, g) <==>
      -1 <= nr - p.row <= 1 && -1 <= nc - p.col <= 1 && (nr, nc) != (p.row, p.col)
      && TargetOk(p, g, nr, nc)
  {
  }

  /** A straight walk is clear exactly when every strictly-between cell is empty. */
  lemma {:induction false} StraightPathIff(g: Grid, r0: int, c0: int, r1: int, c1: int)
    requires WellFormed(g) && OnBoard(r0, c0) && OnBoard(r1, c1)
    requires r0 == r1 || c0 == c1
    ensures PathClear(g, r0, c0, r1, c1) <==>
      forall r, c | OnBoard(r, c) && StraightBetween(r0, c0, r1, c1, r, c) :: g[r][c].None?
  {
    var n := Steps(r0, c0, r1, c1);
    if PathClear(g, r0, c0, r1, c1) {
      forall r, c | OnBoard(r, c) && StraightBetween(r0, c0, r1, c1, r, c)
        ensures g[r][c].None?
      {
        var k := if r == r0 && r0 == r1 then Abs(c - c0) else Abs(r - r0);
        assert 1 <= k < n;
        assert Walk(r0, r1, k) == r && Walk(c0, c1, k) == c;
      }
    }
    if forall r, c | OnBoard(r, c) && StraightBetween(r0, c0, r1, c1, r, c) :: g[r][c].None? {
      forall k | 1 <= k < n
        ensures g[Walk(r0, r1, k)][Walk(c0, c1, k)].None?
      {
        assert StraightBetween(r0, c0, r1, c1, Walk(r0, r1, k), Walk(c0, c1, k));
      }
    }
  }

  /** A diagonal walk is clear exactly when every strictly-between diagonal cell is empty. */
  lemma {:induction false} DiagonalPathIff(g: Grid, r0: int, c0: int, r1: int, c1: int)
    requires WellFormed(g) && OnBoard(r0, c0) && OnBoard(r1, c1)
    requires Abs(r1 - r0) == Abs(c1 - c0)
    ensures PathClear(g, r0, c0, r1, c1) <==>
      forall r, c | OnBoard(r, c) && DiagonalBetween(r0, c0, r1, c1, r, c) :: g[r][c].None?
  {
    var n := Steps(r0, c0, r1, c1);
    if PathClear(g, r0, c0, r1, c1) {
      forall r, c | OnBoard(r, c) && DiagonalBetween(r0, c0, r1, c1, r, c)
        ensures g[r][c].None?
      {
        var k := Abs(r - r0);
        assert 1 <= k < n;
        assert Walk(r0, r1, k) == r && Walk(c0, c1, k) == c;
      }
    }
    if forall r, c | OnBoard(r, c) && DiagonalBetween(r0, c0, r1, c1, r, c) :: g[r][c].None? {
      forall k | 1 <= k < n
        ensures g[Walk(r0, r1, k)][Walk(c0, c1, k)].None?
      {
        assert DiagonalBetween(r0, c0, r1, c1, Walk(r0, r1, k), Walk(c0, c1, k));
      }
    }
  }

  /** A rook accepts exactly same-line destinations with nothing in between. */
  lemma RookRule(p: Piece, nr: int, nc: int, g: Grid)
    requires WellFormed(g) && OnBoard(p.row, p.col) && OnBoard(nr, nc)
    requires p.kind == Rook
    ensures Accepts(p, nr, nc, g) <==>
      && (nr == p.row || nc == p.col)
      && (forall r, c | OnBoard(r, c) && StraightBetween(p.row, p.col, nr, nc, r, c) :: g[r][c].None?)
      && TargetOk(p, g, nr, nc)
  {
    if nr == p.row || nc == p.col {
      StraightPathIff(g, p.row, p.col, nr, nc);
    }
  }

  /** A bishop accepts exactly nonzero diagonal destinations with nothing in between. */
  lemma BishopRule(p: Piece, nr: int, nc: int, g: Grid)
    requires WellFormed(g) && OnBoard(p.row, p.col) && OnBoard(nr, nc)
    requires p.kind == Bishop
    ensures Accepts(p, nr, nc, g) <==>
      && Abs(nr - p.row) == Abs(nc - p.col) > 0
      && (forall r, c | OnBoard(r, c) && DiagonalBetween(p.row, p.col, nr, nc, r, c) :: g[r][c].None?)
      && TargetOk(p, g, nr, nc)
  {
    if Abs(nr - p.row) == Abs(nc - p.col) > 0 {
      DiagonalPathIff(g, p.row, p.col, nr, nc);
    }
  }

  /** The queen accepts exactly what a rook or a bishop on her square would. */
  lemma QueenRule(p: Piece, nr: int, nc: int, g: Grid)
    requires WellFormed(g) && OnBoard(p.row, p.col) && OnBoard(nr, nc)
    requires p.kind == Queen
    ensures Accepts(p, nr, nc, g) <==>
      Accepts(p.(kind := Rook), nr, nc, g) || Accepts(p.(kind := Bishop), nr, nc, g)
  {
  }

  /** Pawn moves: one step forward onto an empty cell, two from an unmoved pawn onto an empty
      cell whatever lies between, and one step diagonally onto an enemy; nothing else. */
  lemma PawnRule(p: Piece, nr: int, nc: int, g: Grid)
    requires WellFormed(g) && OnBoard(p.row, p.col) && OnBoard(nr, nc)
    requires p.kind == Pawn
    ensures Accepts(p, nr, nc, g) && nc == p.col ==>
      g[nr][nc].None? && (nr - p.row == Direction(p.color)
                          || (!p.hasMoved && nr - p.row == 2 * Direction(p.color)))
    ensures Accepts(p, nr, nc, g) && nc != p.col ==>
      Abs(nc - p.col) == 1 && nr - p.row == Direction(p.color)
      && g[nr][nc].Some? && g[nr][nc].value.color != p.color
    ensures g[nr][nc].None? && nc == p.col && nr - p.row == Direction(p.color) ==> Accepts(p, nr, nc, g)
    ensures g[nr][nc].None? && nc == p.col && !p.hasMoved && nr - p.row == 2 * Direction(p.color) ==>
      Accepts(p, nr, nc, g)
    ensures (Abs(nc - p.col) == 1 && nr - p.row == Direction(p.color)
             && g[nr][nc].Some? && g[nr][nc].value.color != p.color) ==> Accepts(p, nr, nc, g)
  {
  }

  function EmptyGrid(): (g: Grid)
    ensures WellFormed(g)
    ensures forall r, c | OnBoard(r, c) :: g[r][c].None?
  {
    seq(8, _ => seq(8, _ => None))
  }

  /** The two-step pawn move does not look at the square it passes over. */
  lemma PawnJumpsOverBlocker()
    ensures
      var pawn := Piece(Pawn, White, 1, 0, false);
      var blocker := Piece(Knight, Black, 2, 0, false);
      var g := EmptyGrid()[1 := EmptyGrid()[1][0 := Some(pawn)]][2 := EmptyGrid()[2][0 := Some(blocker)]];
      WellFormed(g) && g[2][0].Some? && Accepts(pawn, 3, 0, g)
  {
  }
}
