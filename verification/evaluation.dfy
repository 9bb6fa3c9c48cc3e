/**
  Static evaluation of a position from one colour's point of view: integer
  material, the pawn-shield king-safety count, and the fractional positional
  and mobility terms of the advanced evaluator. Fractions are exact `real`s;
  floating-point rounding is not modelled.
 */
module Evaluation {
  import opened Wrappers
  import opened Pieces
  import opened Board

  /** The material table of the AI. */
  function PieceValue(k: Kind): int {
    match k
    case Pawn => 1
    case Knight => 3
    case Bishop => 3
    case Rook => 5
    case Queen => 9
    case King => 100
  }

  /** Material of the cells at or after `(r, c)`: own pieces add, all others subtract. */
  function MaterialFrom(g: Grid, me: Color, r: int, c: int): int
    requires WellFormed(g) && 0 <= r <= 8 && 0 <= c <= 8
    decreases |g| - r, 8 - c
  {
    if r == 8 then 0
    else if c == 8 then MaterialFrom(g, me, r + 1, 0)
    else
      var here := match g[r][c]
        case None => 0
        case Some(p) => if p.color == me then PieceValue(p.kind) else -PieceValue(p.kind);
      here + MaterialFrom(g, me, r, c + 1)
  }

  /** `_evaluate_position`. */
  function EvaluatePosition(g: Grid, me: Color): int
    requires WellFormed(g)
  {
    MaterialFrom(g, me, 0, 0)
  }

  lemma {:induction false} MaterialAntisymmetric(g: Grid, r: int, c: int)
    requires WellFormed(g) && 0 <= r <= 8 && 0 <= c <= 8
    decreases |g| - r, 8 - c
    ensures MaterialFrom(g, White, r, c) == -MaterialFrom(g, Black, r, c)
  {
    if r == 8 {
    } else if c == 8 {
      MaterialAntisymmetric(g, r + 1, 0);
    } else {
      MaterialAntisymmetric(g, r, c + 1);
    }
  }

  /** The material score of one side is the negation of the other side's. */
  lemma EvaluatePositionAntisymmetric(g: Grid, me: Color)
    requires WellFormed(g)
    ensures EvaluatePosition(g, me) == -EvaluatePosition(g, Opponent(me))
  {
    MaterialAntisymmetric(g, 0, 0);
  }

  // ---------------------------------------------------------------------------
  // King safety

  function HomeRow(color: Color): int {
    if color == White then 7 else 0
  }

  function ShieldRow(color: Color): int {
    if color == White then 6 else 1
  }

  predicate IsPawnOf(g: Grid, r: int, c: int, color: Color)
    requires WellFormed(g) && OnBoard(r, c)
  {
    g[r][c].Some? && g[r][c].value.kind == Pawn && g[r][c].value.color == color
  }

  /** 1 when `(row, col)` is on the board and holds a pawn of `color`, else 0. */
  function ShieldAt(g: Grid, row: int, col: int, color: Color): int
    requires WellFormed(g) && 0 <= row < 8
  {
    if 0 <= col < 8 && IsPawnOf(g, row, col, color) then 1 else 0
  }

  /** `_evaluate_king_safety`: -100 without a king, else the pawn-shield count. */
  function KingSafety(g: Grid, color: Color): (r: int)
    requires WellFormed(g)
    ensures FindKing(g, color).None? ==> r == -100
    ensures FindKing(g, color).Some? ==> 0 <= r <= 3
    ensures FindKing(g, color).Some? && r > 0 ==>
      var k := FindKing(g, color).value;
      && k.row == HomeRow(color)
      && exists sc | k.col - 1 <= sc <= k.col + 1 && 0 <= sc < 8 :: IsPawnOf(g, ShieldRow(color), sc, color)
    ensures FindKing(g, color).Some? && FindKing(g, color).value.row == HomeRow(color)
      && (exists sc | FindKing(g, color).value.col - 1 <= sc <= FindKing(g, color).value.col + 1 && 0 <= sc < 8 ::
            IsPawnOf(g, ShieldRow(color), sc, color))
      ==> r > 0
    ensures FindKing(g, color).Some? && FindKing(g, color).value.row != HomeRow(color) ==> r == 0
  {
    var found := FindKing(g, color);
    if found.None? then -100
    else
      var k := found.value;
      if k.row == HomeRow(color) then
        var row := ShieldRow(color);
        var left, mid, right := ShieldAt(g, row, k.col - 1, color), ShieldAt(g, row, k.col, color),
                                ShieldAt(g, row, k.col + 1, color);
        assert left > 0 ==> IsPawnOf(g, row, k.col - 1, color);
        assert mid > 0 ==> IsPawnOf(g, row, k.col, color);
        assert right > 0 ==> IsPawnOf(g, row, k.col + 1, color);
        left + mid + right
      else 0
  }

  /** The columns next to and in front of a king on column `kc` that hold a pawn of `color`
      on its shield row. */
  ghost function ShieldPawns(g: Grid, color: Color, kc: int): set<int>
    requires WellFormed(g)
  {
    set sc | kc - 1 <= sc <= kc + 1 && 0 <= sc < 8 && IsPawnOf(g, ShieldRow(color), sc, color)
  }

  function OneIf(b: bool, x: int): set<int> {
    if b then {x} else {}
  }

  /** Three distinct candidate columns, each kept or not: the count is the number kept. */
  lemma ThreeColumns(x: int, ba: bool, bb: bool, bc: bool)
    ensures |OneIf(ba, x - 1) + OneIf(bb, x) + OneIf(bc, x + 1)|
         == (if ba then 1 else 0) + (if bb then 1 else 0) + (if bc then 1 else 0)
  {
    var a, b, c := OneIf(ba, x - 1), OneIf(bb, x), OneIf(bc, x + 1);
    assert a * b == {};
    assert (a + b) * c == {};
  }

  lemma ShieldPawnsSplit(g: Grid, color: Color, kc: int)
    requires WellFormed(g)
    ensures ShieldPawns(g, color, kc)
         == OneIf(ShieldAt(g, ShieldRow(color), kc - 1, color) == 1, kc - 1)
          + OneIf(ShieldAt(g, ShieldRow(color), kc, color) == 1, kc)
          + OneIf(ShieldAt(g, ShieldRow(color), kc + 1, color) == 1, kc + 1)
  {
  }

  /** A king on its home row scores the number of shield pawns in the three files around it. */
  lemma KingSafetyCount(g: Grid, color: Color)
    requires WellFormed(g) && FindKing(g, color).Some? && FindKing(g, color).value.row == HomeRow(color)
    ensures KingSafety(g, color) == |ShieldPawns(g, color, FindKing(g, color).value.col)|
  {
    var kc := FindKing(g, color).value.col;
    var row := ShieldRow(color);
    ShieldPawnsSplit(g, color, kc);
    ThreeColumns(kc, ShieldAt(g, row, kc - 1, color) == 1, ShieldAt(g, row, kc, color) == 1,
                 ShieldAt(g, row, kc + 1, color) == 1);
  }

  // ---------------------------------------------------------------------------
  // Advanced evaluation (exact rationals in place of floats)

  function AbsReal(x: real): real {
    if x < 0.0 then -x else x
  }

  /** Manhattan distance of a cell from the board centre (3.5, 3.5). */
  function CenterDistance(r: int, c: int): real {
    AbsReal(3.5 - r as real) + AbsReal(3.5 - c as real)
  }

  /** `_get_position_bonus`. */
  function PositionBonus(p: Piece, r: int, c: int): real {
    var d := CenterDistance(r, c);
    match p.kind
    case Pawn => if p.color == White then (7 - r) as real * 0.1 else r as real * 0.1
    case Knight => (4.0 - d) * 0.1
    case Bishop => (7.0 - d) * 0.05
    case King => -d * 0.1
    case _ => 0.0
  }

  /** Material plus positional bonus of the cells at or after `(r, c)`. */
  function PlacementFrom(g: Grid, me: Color, r: int, c: int): real
    requires WellFormed(g) && 0 <= r <= 8 && 0 <= c <= 8
    decreases |g| - r, 8 - c
  {
    if r == 8 then 0.0
    else if c == 8 then PlacementFrom(g, me, r + 1, 0)
    else
      var here := match g[r][c]
        case None => 0.0
        case Some(p) =>
          var total := PieceValue(p.kind) as real + PositionBonus(p, r, c);
          if p.color == me then total else -total;
      here + PlacementFrom(g, me, r, c + 1)
  }

  /** `_evaluate_position_advanced`; move counts are taken with `current` to move. */
  function EvaluateAdvanced(g: Grid, current: Color, me: Color): real
    requires Consistent(g)
  {
    var opp := Opponent(me);
    var mobility := |LegalMoves(g, current, me)| - |LegalMoves(g, current, opp)|;
    PlacementFrom(g, me, 0, 0)
    + (KingSafety(g, me) * 2) as real
    - (KingSafety(g, opp) * 2) as real
    + mobility as real * 0.1
  }

  lemma {:induction false} PlacementAntisymmetric(g: Grid, r: int, c: int)
    requires WellFormed(g) && 0 <= r <= 8 && 0 <= c <= 8
    decreases |g| - r, 8 - c
    ensures PlacementFrom(g, White, r, c) == -PlacementFrom(g, Black, r, c)
  {
    if r == 8 {
    } else if c == 8 {
      PlacementAntisymmetric(g, r + 1, 0);
    } else {
      PlacementAntisymmetric(g, r, c + 1);
    }
  }

  /** The advanced score of one side is the negation of the other side's. */
  lemma EvaluateAdvancedAntisymmetric(g: Grid, current: Color, me: Color)
    requires Consistent(g)
    ensures EvaluateAdvanced(g, current, me) == -EvaluateAdvanced(g, current, Opponent(me))
  {
    PlacementAntisymmetric(g, 0, 0);
  }
}
