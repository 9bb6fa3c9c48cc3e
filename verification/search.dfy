/**
  The computer opponent: tier dispatch, capture-first move ordering, the
  alpha-beta search with in-place apply/restore, and the iterative-deepening
  loop. The wall-clock deadline is an oracle `expired` consulted at the same
  checkpoints as the program; `random.choice` is `moves[pick % |moves|]`; the
  random jitter of the one-ply scorer is a parameter.
 */
module Search {
  import opened Wrappers
  import opened Pieces
  import opened Board
  import opened Evaluation
  import opened GameTrees

  // ---------------------------------------------------------------------------
  // Move ordering

  predicate IsCapture(g: Grid, m: Move)
    requires WellFormed(g) && InBounds(m.to)
  {
    At(g, m.to).Some?
  }

  predicate TargetsOnBoard(ms: seq<Move>) {
    forall m | m in ms :: InBounds(m.to)
  }

  /** The captures of `ms`, in their original order. */
  function Captures(g: Grid, ms: seq<Move>): (r: seq<Move>)
    requires WellFormed(g) && TargetsOnBoard(ms)
    ensures TargetsOnBoard(r)
  {
    if |ms| == 0 then []
    else
      var last := ms[|ms| - 1];
      Captures(g, ms[..|ms| - 1]) + (if IsCapture(g, last) then [last] else [])
  }

  /** The quiet moves of `ms`, in their original order. */
  function Quiets(g: Grid, ms: seq<Move>): (r: seq<Move>)
    requires WellFormed(g) && TargetsOnBoard(ms)
    ensures TargetsOnBoard(r)
  {
    if |ms| == 0 then []
    else
      var last := ms[|ms| - 1];
      Quiets(g, ms[..|ms| - 1]) + (if IsCapture(g, last) then [] else [last])
  }

  lemma {:induction false} PartitionIsPermutation(g: Grid, ms: seq<Move>)
    requires WellFormed(g) && TargetsOnBoard(ms)
    ensures multiset(Captures(g, ms)) + multiset(Quiets(g, ms)) == multiset(ms)
  {
    if |ms| > 0 {
      var init, last := ms[..|ms| - 1], ms[|ms| - 1];
      PartitionIsPermutation(g, init);
      assert ms == init + [last];
      if IsCapture(g, last) {
        assert Captures(g, ms) == Captures(g, init) + [last];
        assert Quiets(g, ms) == Quiets(g, init);
      } else {
        assert Captures(g, ms) == Captures(g, init);
        assert Quiets(g, ms) == Quiets(g, init) + [last];
      }
    }
  }

  lemma {:induction false} PartitionSides(g: Grid, ms: seq<Move>)
    requires WellFormed(g) && TargetsOnBoard(ms)
    ensures forall m | m in Captures(g, ms) :: IsCapture(g, m)
    ensures forall m | m in Quiets(g, ms) :: !IsCapture(g, m)
  {
    if |ms| > 0 {
      PartitionSides(g, ms[..|ms| - 1]);
    }
  }

  /** The loop of `_order_moves`: each move goes onto the capture or the quiet list. */
  function OrderLoop(g: Grid, ms: seq<Move>, i: nat, caps: seq<Move>, quiets: seq<Move>): (r: seq<Move>)
    requires WellFormed(g) && TargetsOnBoard(ms) && i <= |ms|
    requires caps == Captures(g, ms[..i]) && quiets == Quiets(g, ms[..i])
    decreases |ms| - i
    ensures r == Captures(g, ms) + Quiets(g, ms)
  {
    if i == |ms| then
      assert ms[..i] == ms;
      caps + quiets
    else
      var m := ms[i];
      assert ms[..i + 1][..i] == ms[..i];
      if IsCapture(g, m) then OrderLoop(g, ms, i + 1, caps + [m], quiets)
      else OrderLoop(g, ms, i + 1, caps, quiets + [m])
  }

  /** `_order_moves`: a stable partition, captures first. The loop of the program is
      `OrderLoop`, which builds the same two lists. */
  function OrderMoves(g: Grid, ms: seq<Move>): (r: seq<Move>)
    requires WellFormed(g) && TargetsOnBoard(ms)
    ensures forall x | x in r :: x in ms
  {
    PartitionIsPermutation(g, ms);
    var r := Captures(g, ms) + Quiets(g, ms);
    assert forall x | x in r :: x in multiset(ms);
    r
  }

  /** The ordering lists the captures in their generated order, then the quiet moves in
      theirs: a permutation of the input with every capture ahead of every quiet move. */
  lemma OrderMovesPartition(g: Grid, ms: seq<Move>)
    requires WellFormed(g) && TargetsOnBoard(ms)
    ensures OrderMoves(g, ms) == Captures(g, ms) + Quiets(g, ms)
    ensures multiset(OrderMoves(g, ms)) == multiset(ms)
    ensures forall i | 0 <= i < |Captures(g, ms)| :: IsCapture(g, OrderMoves(g, ms)[i])
    ensures forall i | |Captures(g, ms)| <= i < |OrderMoves(g, ms)| :: !IsCapture(g, OrderMoves(g, ms)[i])
  {
    var r := OrderMoves(g, ms);
    PartitionIsPermutation(g, ms);
    PartitionSides(g, ms);
    assert forall i | 0 <= i < |Captures(g, ms)| :: r[i] in Captures(g, ms);
    assert forall i | |Captures(g, ms)| <= i < |r| :: r[i] == Quiets(g, ms)[i - |Captures(g, ms)|];
  }

  // ---------------------------------------------------------------------------
  // Alpha-beta search

  datatype SearchResult = SearchResult(score: Score, grid: Grid)

  /** The replies searched below a node: after the node's move, the opponent's moves on a
      maximizing node and the AI's own moves on a minimizing one, captures first. Move
      generation still filters against the king of `current`, which never changes. */
  function Children(g: Grid, current: Color, me: Color, m: Move, maximizing: bool): (ms: seq<Move>)
    requires Consistent(g) && Movable(g, m)
    ensures forall c | c in ms :: Movable(Apply(g, m), c)
  {
    var applied := Apply(g, m);
    var mover := if maximizing then Opponent(me) else me;
    var legal := LegalMoves(applied, current, mover);
    var ordered := OrderMoves(applied, legal);
    ordered
  }

  /** `_alpha_beta`: the static evaluation at depth 0, else a search below the node. */
  function AlphaBeta(g: Grid, current: Color, me: Color, m: Move, depth: nat,
                     alpha: Score, beta: Score, maximizing: bool): (r: SearchResult)
    requires Consistent(g) && (depth > 0 ==> Movable(g, m))
    decreases depth, 2, 0
    ensures r.grid == g
  {
    if depth == 0 then SearchResult(Fin(EvaluateAdvanced(g, current, me)), g)
    else AlphaBetaNode(g, current, me, m, depth, alpha, beta, maximizing)
  }

  /** The node case of `_alpha_beta`. The move is applied to the grid, the children are
      searched on the grid each child hands back, and the saved piece and occupant are
      put back. */
  function AlphaBetaNode(g: Grid, current: Color, me: Color, m: Move, depth: nat,
                         alpha: Score, beta: Score, maximizing: bool): (r: SearchResult)
    requires Consistent(g) && depth > 0 && Movable(g, m)
    decreases depth, 1, 0
    ensures r.grid == g
  {
    var piece := At(g, m.from).value;
    var captured := At(g, m.to);
    var applied := Apply(g, m);
    var children := Children(g, current, me, m, maximizing);
    var start := if maximizing then NegInf else PosInf;
    var loop := ChildLoop(applied, current, me, children, 0, depth - 1, alpha, beta, maximizing, start);
    ApplyRestore(g, m);
    SearchResult(loop.score, Restore(loop.grid, m, piece, captured))
  }

  /** The child loop of a node: a maximizing node raises `best` and `alpha`, a minimizing
      node lowers `best` and `beta`; the loop stops once `beta <= alpha`. */
  function ChildLoop(g: Grid, current: Color, me: Color, children: seq<Move>, i: nat, d: nat,
                     alpha: Score, beta: Score, maximizing: bool, best: Score): (r: SearchResult)
    requires Consistent(g) && i <= |children|
    requires forall c | c in children :: Movable(g, c)
    decreases d + 1, 0, |children| - i
    ensures r.grid == g
    ensures i == |children| ==> r.score == best
  {
    if i == |children| then SearchResult(best, g)
    else
      var child := AlphaBeta(g, current, me, children[i], d, alpha, beta, !maximizing);
      var s := child.score;
      if maximizing then
        var best' := Max(best, s);
        var alpha' := Max(alpha, s);
        if Le(beta, alpha') then SearchResult(best', child.grid)
        else ChildLoop(child.grid, current, me, children, i + 1, d, alpha', beta, maximizing, best')
      else
        var best' := Min(best, s);
        var beta' := Min(beta, s);
        if Le(beta', alpha) then SearchResult(best', child.grid)
        else ChildLoop(child.grid, current, me, children, i + 1, d, alpha, beta', maximizing, best')
  }

  // ---------------------------------------------------------------------------
  // Pruning does not change the value: the searched game tree as a reference

  /** The tree `AlphaBeta` walks: a leaf at depth 0, else one subtree per child in search order. */
  function GameTree(g: Grid, current: Color, me: Color, m: Move, depth: nat, maximizing: bool): (t: Tree)
    requires Consistent(g) && (depth > 0 ==> Movable(g, m))
    decreases depth, 1
    ensures depth == 0 <==> t.Leaf?
  {
    if depth == 0 then Leaf(EvaluateAdvanced(g, current, me))
    else GameNode(g, current, me, m, depth, maximizing)
  }

  function GameNode(g: Grid, current: Color, me: Color, m: Move, depth: nat, maximizing: bool): (t: Tree)
    requires Consistent(g) && depth > 0 && Movable(g, m)
    decreases depth, 0
    ensures t.Node?
  {
    var applied := Apply(g, m);
    var children := Children(g, current, me, m, maximizing);
    Node(seq(|children|, i requires 0 <= i < |children| =>
      GameTree(applied, current, me, children[i], depth - 1, !maximizing)))
  }

  /** The subtrees of `GameTree` are the trees of the children, in search order. */
  lemma GameTreeKids(g: Grid, current: Color, me: Color, m: Move, depth: nat, maximizing: bool)
    requires Consistent(g) && depth > 0 && Movable(g, m)
    ensures var t := GameTree(g, current, me, m, depth, maximizing);
            var cs := Children(g, current, me, m, maximizing);
            && t.Node? && |t.kids| == |cs|
            && forall k | 0 <= k < |cs| ::
                 t.kids[k] == GameTree(Apply(g, m), current, me, cs[k], depth - 1, !maximizing)
  {
  }

  /** A tree whose subtrees are the game trees of `children` below the grid `g`. */
  predicate KidsOf(t: Tree, g: Grid, current: Color, me: Color, children: seq<Move>, d: nat, reply: bool)
    requires Consistent(g) && forall c | c in children :: Movable(g, c)
  {
    && t.Node? && |t.kids| == |children|
    && forall k | 0 <= k < |children| :: t.kids[k] == GameTree(g, current, me, children[k], d, reply)
  }

  /** The tree of a node has the game trees of the node's children as its subtrees. */
  lemma GameTreeIsKidsOf(g: Grid, current: Color, me: Color, m: Move, depth: nat, maximizing: bool, t: Tree)
    requires Consistent(g) && depth > 0 && Movable(g, m)
    requires t == GameTree(g, current, me, m, depth, maximizing)
    ensures forall c | c in Children(g, current, me, m, maximizing) :: Movable(Apply(g, m), c)
    ensures KidsOf(t, Apply(g, m), current, me, Children(g, current, me, m, maximizing), depth - 1, !maximizing)
  {
    GameTreeKids(g, current, me, m, depth, maximizing);
  }

  /** One level of `AlphaBeta`: the score of a node is the score of its child loop. */
  lemma AlphaBetaStep(g: Grid, current: Color, me: Color, m: Move, depth: nat,
                      alpha: Score, beta: Score, maximizing: bool, r: SearchResult)
    requires Consistent(g) && depth > 0 && Movable(g, m)
    requires r == AlphaBeta(g, current, me, m, depth, alpha, beta, maximizing)
    ensures r.score == ChildLoop(Apply(g, m), current, me, Children(g, current, me, m, maximizing), 0,
                                 depth - 1, alpha, beta, maximizing, Start(maximizing)).score
  {
  }

  /** `AlphaBeta` is the tree search of `GameTree`: for `r` the search result and `t` the
      game tree of the same node, the score is the tree search of `t` in the same window. */
  lemma AlphaBetaIsTreeSearch(g: Grid, current: Color, me: Color, m: Move, depth: nat,
                              alpha: Score, beta: Score, maximizing: bool, r: SearchResult, t: Tree)
    requires Consistent(g) && (depth > 0 ==> Movable(g, m))
    requires r == AlphaBeta(g, current, me, m, depth, alpha, beta, maximizing)
    requires t == GameTree(g, current, me, m, depth, maximizing)
    decreases depth, 1, 0
    ensures r.score == Search(t, alpha, beta, maximizing)
  {
    if depth > 0 {
      AlphaBetaStep(g, current, me, m, depth, alpha, beta, maximizing, r);
      GameTreeIsKidsOf(g, current, me, m, depth, maximizing, t);
      ChildLoopStart(Apply(g, m), current, me, Children(g, current, me, m, maximizing), depth,
                     alpha, beta, maximizing, t);
    }
  }

  /** The child loop of a node at `depth`, started before any child is searched, is the tree
      loop of a tree whose subtrees are the children's game trees. */
  lemma ChildLoopStart(g: Grid, current: Color, me: Color, children: seq<Move>, depth: nat,
                       alpha: Score, beta: Score, maximizing: bool, t: Tree)
    requires Consistent(g) && depth > 0 && forall c | c in children :: Movable(g, c)
    requires KidsOf(t, g, current, me, children, depth - 1, !maximizing)
    decreases depth, 0, |children| + 1
    ensures ChildLoop(g, current, me, children, 0, depth - 1, alpha, beta, maximizing, Start(maximizing)).score
         == SearchLoop(t, 0, alpha, beta, maximizing, Start(maximizing))
  {
    ChildLoopIsSearchLoop(g, current, me, children, 0, depth - 1, alpha, beta, maximizing, Start(maximizing), t,
                          ChildLoop(g, current, me, children, 0, depth - 1, alpha, beta, maximizing, Start(maximizing)));
  }

  /** The child loop over `children` is the tree loop over a tree whose subtrees are the
      children's game trees. */
  lemma ChildLoopIsSearchLoop(g: Grid, current: Color, me: Color, children: seq<Move>, i: nat, d: nat,
                              alpha: Score, beta: Score, maximizing: bool, best: Score, t: Tree, r: SearchResult)
    requires Consistent(g) && i <= |children| && forall c | c in children :: Movable(g, c)
    requires KidsOf(t, g, current, me, children, d, !maximizing)
    requires r == ChildLoop(g, current, me, children, i, d, alpha, beta, maximizing, best)
    decreases d + 1, 0, |children| - i
    ensures r.score == SearchLoop(t, i, alpha, beta, maximizing, best)
  {
    if i < |children| {
      var child := AlphaBeta(g, current, me, children[i], d, alpha, beta, !maximizing);
      AlphaBetaIsTreeSearch(g, current, me, children[i], d, alpha, beta, !maximizing, child, t.kids[i]);
      var s := child.score;
      var alpha' := if maximizing then Max(alpha, s) else alpha;
      var beta' := if maximizing then beta else Min(beta, s);
      var best' := if maximizing then Max(best, s) else Min(best, s);
      if !Le(beta', alpha') {
        ChildLoopIsSearchLoop(g, current, me, children, i + 1, d, alpha', beta', maximizing, best', t, r);
      }
    }
  }

  /** With the full window, `AlphaBeta` returns the minimax value of the game tree it walks. */
  lemma AlphaBetaMatchesMinimax(g: Grid, current: Color, me: Color, m: Move, depth: nat, maximizing: bool)
    requires Consistent(g) && (depth > 0 ==> Movable(g, m))
    ensures AlphaBeta(g, current, me, m, depth, NegInf, PosInf, maximizing).score
         == Value(GameTree(g, current, me, m, depth, maximizing), maximizing)
  {
    AlphaBetaIsTreeSearch(g, current, me, m, depth, NegInf, PosInf, maximizing,
                          AlphaBeta(g, current, me, m, depth, NegInf, PosInf, maximizing),
                          GameTree(g, current, me, m, depth, maximizing));
    SearchFullWindow(GameTree(g, current, me, m, depth, maximizing), maximizing);
  }

  /** At depth 0 the move argument is ignored: the score is the static evaluation of the
      grid as it is, for any move. */
  lemma AlphaBetaLeaf(g: Grid, current: Color, me: Color, m: Move, m': Move,
                      alpha: Score, beta: Score, maximizing: bool)
    requires Consistent(g)
    ensures AlphaBeta(g, current, me, m, 0, alpha, beta, maximizing).score == Fin(EvaluateAdvanced(g, current, me))
    ensures AlphaBeta(g, current, me, m, 0, alpha, beta, maximizing)
         == AlphaBeta(g, current, me, m', 0, alpha, beta, maximizing)
  {
  }

  /** A node without replies scores minus infinity when maximizing and plus infinity when
      minimizing. */
  lemma AlphaBetaNoReplies(g: Grid, current: Color, me: Color, m: Move, depth: nat,
                           alpha: Score, beta: Score, maximizing: bool)
    requires Consistent(g) && depth > 0 && Movable(g, m)
    requires |Children(g, current, me, m, maximizing)| == 0
    ensures AlphaBeta(g, current, me, m, depth, alpha, beta, maximizing).score
         == if maximizing then NegInf else PosInf
  {
    AlphaBetaStep(g, current, me, m, depth, alpha, beta, maximizing,
                  AlphaBeta(g, current, me, m, depth, alpha, beta, maximizing));
  }

  // ---------------------------------------------------------------------------
  // Iterative deepening

  /** The two places the program reads the clock. */
  datatype Checkpoint = BeforeDepth(depth: nat) | BeforeRootMove(depth: nat, index: nat)

  predicate AllMovable(g: Grid, ms: seq<Move>) {
    forall m | m in ms :: Movable(g, m)
  }

  /** The root loop of one depth, over the scores `score(j, alpha)` it asks for the `j`-th
      move with the running `alpha`, stopping before move `j` when `stop(j)`. The best score
      carries over from earlier depths; the move starts empty and is set only by a strictly
      better score. */
  function RootLoopOver(moves: seq<Move>, score: (nat, Score) -> Score, stop: nat -> bool, i: nat,
                        alpha: Score, beta: Score, bestScore: Score, currentBest: Option<Move>): (r: (Score, Option<Move>))
    requires i <= |moves|
    decreases |moves| - i
    ensures (r.0 == bestScore && r.1 == currentBest)
         || (Less(bestScore, r.0) && r.1.Some? && r.1.value in moves)
  {
    if i == |moves| || stop(i) then (bestScore, currentBest)
    else
      var s := score(i, alpha);
      var improved := Less(bestScore, s);
      var bestScore' := if improved then s else bestScore;
      var currentBest' := if improved then Some(moves[i]) else currentBest;
      var alpha' := Max(alpha, s);
      if Le(beta, alpha') then (bestScore', currentBest')
      else RootLoopOver(moves, score, stop, i + 1, alpha', beta, bestScore', currentBest')
  }

  /** The root loop of `_get_minimax_move` for one depth: each move is scored by `_alpha_beta`
      with the running window, and the clock is read before each move. */
  function RootLoop(g: Grid, current: Color, me: Color, moves: seq<Move>, depth: nat, i: nat,
                    alpha: Score, beta: Score, bestScore: Score, currentBest: Option<Move>,
                    expired: Checkpoint -> bool): (r: (Score, Option<Move>))
    requires Consistent(g) && AllMovable(g, moves) && depth >= 1 && i <= |moves|
    ensures (r.0 == bestScore && r.1 == currentBest)
         || (Less(bestScore, r.0) && r.1.Some? && r.1.value in moves)
  {
    RootLoopOver(moves, (j: nat, a: Score) => if j < |moves| then AlphaBeta(g, current, me, moves[j], depth, a, beta, true).score else NegInf,
                 (j: nat) => expired(BeforeRootMove(depth, j)), i, alpha, beta, bestScore, currentBest)
  }

  /** What one round may do with the best score `s` it starts from: keep it with no move, or
      raise it strictly and name a move of the list. */
  predicate RoundKeeps(moves: seq<Move>, s: Score, r: (Score, Option<Move>)) {
    r == (s, None) || (Less(s, r.0) && r.1.Some? && r.1.value in moves)
  }

  /** Depths `depth..maxDepth` of the deepening, over the rounds `round(d, s)` it runs at
      depth `d` from the best score `s`, stopping before depth `d` when `stop(d)`; the running
      best score is never reset between depths. */
  function DeepeningOver(moves: seq<Move>, round: (nat, Score) -> (Score, Option<Move>), stop: nat -> bool,
                         depth: nat, maxDepth: nat, bestScore: Score, bestMove: Option<Move>): (r: (Score, Option<Move>))
    requires forall d: nat, s: Score :: RoundKeeps(moves, s, round(d, s))
    requires bestMove.None? || bestMove.value in moves
    requires bestMove.None? <==> bestScore == NegInf
    decreases maxDepth + 1 - depth
    ensures Le(bestScore, r.0)
    ensures r.1.None? || r.1.value in moves
    ensures r.1.None? <==> r.0 == NegInf
    ensures depth > maxDepth || stop(depth) ==> r == (bestScore, bestMove)
  {
    if depth > maxDepth || stop(depth) then (bestScore, bestMove)
    else
      var result := round(depth, bestScore);
      assert RoundKeeps(moves, bestScore, result);
      var bestMove' := if result.1.Some? then result.1 else bestMove;
      DeepeningOver(moves, round, stop, depth + 1, maxDepth, result.0, bestMove')
  }

  /** The round `_get_minimax_move` runs at depth `d` from the best score `s`: the root loop
      with a fresh window and no move yet. */
  function RootRound(g: Grid, current: Color, me: Color, moves: seq<Move>, expired: Checkpoint -> bool,
                     d: nat, s: Score): (r: (Score, Option<Move>))
    requires Consistent(g) && AllMovable(g, moves)
    ensures RoundKeeps(moves, s, r)
  {
    if d >= 1 then RootLoop(g, current, me, moves, d, 0, NegInf, PosInf, s, None, expired) else (s, None)
  }

  /** Depths `depth..maxDepth` of `_get_minimax_move`, reading the clock before each depth. */
  function Deepening(g: Grid, current: Color, me: Color, moves: seq<Move>, depth: nat, maxDepth: nat,
                     bestScore: Score, bestMove: Option<Move>, expired: Checkpoint -> bool): (r: (Score, Option<Move>))
    requires Consistent(g) && AllMovable(g, moves)
    requires bestMove.None? || bestMove.value in moves
    requires bestMove.None? <==> bestScore == NegInf
    ensures Le(bestScore, r.0)
    ensures r.1.None? || r.1.value in moves
    ensures r.1.None? <==> r.0 == NegInf
    ensures depth > maxDepth || expired(BeforeDepth(depth)) ==> r == (bestScore, bestMove)
  {
    DeepeningOver(moves, (d: nat, s: Score) => RootRound(g, current, me, moves, expired, d, s),
                  (d: nat) => expired(BeforeDepth(d)), depth, maxDepth, bestScore, bestMove)
  }

  function MaxDepth(difficulty: string): nat {
    if difficulty == "hard" then 4 else 3
  }

  /** `_get_minimax_move`: the deepening result, or a random move if none was found. */
  function MinimaxMove(g: Grid, current: Color, me: Color, difficulty: string, moves: seq<Move>,
                       expired: Checkpoint -> bool, pick: nat): (r: Move)
    requires Consistent(g) && AllMovable(g, moves) && |moves| > 0
    ensures r in moves
    ensures expired(BeforeDepth(1)) ==> r == moves[pick % |moves|]
    ensures Deepening(g, current, me, moves, 1, MaxDepth(difficulty), NegInf, None, expired).1.None? ==>
      r == moves[pick % |moves|]
    ensures var found := Deepening(g, current, me, moves, 1, MaxDepth(difficulty), NegInf, None, expired);
      found.0 != NegInf ==> Some(r) == found.1
  {
    var found := Deepening(g, current, me, moves, 1, MaxDepth(difficulty), NegInf, None, expired);
    if found.1.Some? then found.1.value else moves[pick % |moves|]
  }

  // ---------------------------------------------------------------------------
  // What the deepening finds, stated with minimax values

  /** Keep the running best and replace it only by a strictly higher score, so the first
      entry of the highest score wins. */
  function Best(ps: seq<(Score, Move)>, init: (Score, Option<Move>)): (r: (Score, Option<Move>))
    decreases |ps|
    ensures Le(init.0, r.0) && forall k | 0 <= k < |ps| :: Le(ps[k].0, r.0)
    ensures !Less(init.0, r.0) ==> r == init
    ensures Less(init.0, r.0) ==>
      exists k | 0 <= k < |ps| :: && ps[k].0 == r.0 && r.1 == Some(ps[k].1)
                                  && forall j | 0 <= j < k :: Less(ps[j].0, r.0)
  {
    if |ps| == 0 then init
    else
      var init' := if Less(init.0, ps[0].0) then (ps[0].0, Some(ps[0].1)) else init;
      var r := Best(ps[1..], init');
      assert forall k | 0 <= k < |ps[1..]| :: ps[1..][k] == ps[k + 1];
      r
  }

  /** The move of the running best matters only when nothing beats its score. */
  lemma {:induction false} BestInit(ps: seq<(Score, Move)>, s: Score, m: Option<Move>)
    decreases |ps|
    ensures Best(ps, (s, m)) == (if Best(ps, (s, None)).1.Some? then Best(ps, (s, None)) else (s, m))
  {
    if |ps| > 0 {
      if Less(s, ps[0].0) {
        assert Best(ps, (s, m)) == Best(ps, (s, None));
      } else {
        BestInit(ps[1..], s, m);
      }
    }
  }

  /** Running the fold over two lists is running it over the second from the first's result. */
  lemma {:induction false} BestAppend(a: seq<(Score, Move)>, b: seq<(Score, Move)>, init: (Score, Option<Move>))
    decreases |a|
    ensures Best(a + b, init) == Best(b, Best(a, init))
  {
    if |a| > 0 {
      assert (a + b)[1..] == a[1..] + b;
      BestAppend(a[1..], b, if Less(init.0, a[0].0) then (a[0].0, Some(a[0].1)) else init);
    } else {
      assert a + b == b;
    }
  }

  /** The minimax value of a root move, as the root loop asks `_alpha_beta` for it. */
  function MoveValue(g: Grid, current: Color, me: Color, m: Move, depth: nat): Score
    requires Consistent(g) && Movable(g, m)
  {
    Value(GameTree(g, current, me, m, depth, true), true)
  }

  /** With no upper bound on the window, the pruned score of a root move is never below its
      minimax value, and it is that value whenever it is above `alpha`. */
  lemma RootScoreSound(g: Grid, current: Color, me: Color, m: Move, depth: nat, alpha: Score)
    requires Consistent(g) && Movable(g, m) && Less(alpha, PosInf)
    ensures Le(MoveValue(g, current, me, m, depth), AlphaBeta(g, current, me, m, depth, alpha, PosInf, true).score)
    ensures Less(alpha, AlphaBeta(g, current, me, m, depth, alpha, PosInf, true).score) ==>
      AlphaBeta(g, current, me, m, depth, alpha, PosInf, true).score == MoveValue(g, current, me, m, depth)
  {
    var t := GameTree(g, current, me, m, depth, true);
    AlphaBetaIsTreeSearch(g, current, me, m, depth, alpha, PosInf, true,
                          AlphaBeta(g, current, me, m, depth, alpha, PosInf, true), t);
    SearchSound(t, alpha, PosInf, true);
  }

  /** The moves a root loop reaches from index `i`, with their values: the scan stops
      before move `j` when `stop(j)`, and after a move worth +∞, whose score fills the window. */
  function ValueScan(moves: seq<Move>, value: nat -> Score, stop: nat -> bool, i: nat): (ps: seq<(Score, Move)>)
    requires i <= |moves|
    decreases |moves| - i
    ensures forall k | 0 <= k < |ps| :: ps[k].1 in moves
  {
    if i == |moves| || stop(i) then []
    else [(value(i), moves[i])] + (if value(i) == PosInf then [] else ValueScan(moves, value, stop, i + 1))
  }

  /** The root moves one depth of the deepening reaches, with their minimax values. */
  function RootScan(g: Grid, current: Color, me: Color, moves: seq<Move>, depth: nat, i: nat,
                    expired: Checkpoint -> bool): (ps: seq<(Score, Move)>)
    requires Consistent(g) && AllMovable(g, moves) && i <= |moves|
    ensures forall k | 0 <= k < |ps| :: ps[k].1 in moves
  {
    ValueScan(moves, (j: nat) => if j < |moves| then MoveValue(g, current, me, moves[j], depth) else NegInf,
              (j: nat) => expired(BeforeRootMove(depth, j)), i)
  }

  /** Each score is sound for its value under a window with no upper bound: never below the
      value, and equal to it when above `alpha`. */
  ghost predicate ScoresSound(n: nat, score: (nat, Score) -> Score, value: nat -> Score) {
    forall j: nat, a: Score | j < n && Less(a, PosInf) ::
      Le(value(j), score(j, a)) && (Less(a, score(j, a)) ==> score(j, a) == value(j))
  }

  /** One step of the fold: the first entry is compared with the running best. */
  lemma BestCons(p: (Score, Move), rest: seq<(Score, Move)>, init: (Score, Option<Move>))
    ensures Best([p] + rest, init) == Best(rest, if Less(init.0, p.0) then (p.0, Some(p.1)) else init)
  {
    assert ([p] + rest)[1..] == rest;
  }

  /** A pruned root score `s` that is sound for the value `v` makes the same comparison with
      the running best, and fills the window exactly when the value is +∞. */
  lemma RootStepAgrees(v: Score, s: Score, alpha: Score, bestScore: Score)
    requires Le(v, s) && (Less(alpha, s) ==> s == v)
    requires Le(alpha, bestScore) && Less(alpha, PosInf)
    ensures Less(bestScore, v) <==> Less(bestScore, s)
    ensures Less(bestScore, v) ==> s == v
    ensures Le(PosInf, Max(alpha, s)) <==> v == PosInf
    ensures Le(Max(alpha, s), if Less(bestScore, s) then s else bestScore)
  {
  }

  /** A root loop over sound scores keeps the first reached move of highest value: the
      scores it compares pick the same moves as the values would. */
  lemma {:induction false} RootLoopOverIsBest(moves: seq<Move>, score: (nat, Score) -> Score, value: nat -> Score,
                                              stop: nat -> bool, i: nat, alpha: Score,
                                              bestScore: Score, currentBest: Option<Move>)
    requires i <= |moves| && ScoresSound(|moves|, score, value)
    requires Le(alpha, bestScore) && Less(alpha, PosInf)
    decreases |moves| - i
    ensures RootLoopOver(moves, score, stop, i, alpha, PosInf, bestScore, currentBest)
         == Best(ValueScan(moves, value, stop, i), (bestScore, currentBest))
  {
    if i < |moves| && !stop(i) {
      var s, v := score(i, alpha), value(i);
      RootStepAgrees(v, s, alpha, bestScore);
      var init' := if Less(bestScore, s) then (s, Some(moves[i])) else (bestScore, currentBest);
      var rest := if v == PosInf then [] else ValueScan(moves, value, stop, i + 1);
      BestCons((v, moves[i]), rest, (bestScore, currentBest));
      if v != PosInf {
        RootLoopOverIsBest(moves, score, value, stop, i + 1, Max(alpha, s), init'.0, init'.1);
      }
    }
  }

  /** The scores `_alpha_beta` gives the root moves are sound for their minimax values. */
  lemma RootScoresSound(g: Grid, current: Color, me: Color, moves: seq<Move>, depth: nat)
    requires Consistent(g) && AllMovable(g, moves)
    ensures ScoresSound(|moves|,
      (j: nat, a: Score) => if j < |moves| then AlphaBeta(g, current, me, moves[j], depth, a, PosInf, true).score else NegInf,
      (j: nat) => if j < |moves| then MoveValue(g, current, me, moves[j], depth) else NegInf)
  {
    forall j: nat, a: Score | j < |moves| && Less(a, PosInf)
      ensures Le(MoveValue(g, current, me, moves[j], depth), AlphaBeta(g, current, me, moves[j], depth, a, PosInf, true).score)
      ensures Less(a, AlphaBeta(g, current, me, moves[j], depth, a, PosInf, true).score) ==>
        AlphaBeta(g, current, me, moves[j], depth, a, PosInf, true).score == MoveValue(g, current, me, moves[j], depth)
    {
      RootScoreSound(g, current, me, moves[j], depth, a);
    }
  }

  /** The root loop of one depth keeps the first reached move of highest minimax value. */
  lemma RootLoopIsBest(g: Grid, current: Color, me: Color, moves: seq<Move>, depth: nat,
                       bestScore: Score, expired: Checkpoint -> bool)
    requires Consistent(g) && AllMovable(g, moves) && depth >= 1
    ensures RootLoop(g, current, me, moves, depth, 0, NegInf, PosInf, bestScore, None, expired)
         == Best(RootScan(g, current, me, moves, depth, 0, expired), (bestScore, None))
  {
    RootScoresSound(g, current, me, moves, depth);
    RootLoopOverIsBest(moves,
      (j: nat, a: Score) => if j < |moves| then AlphaBeta(g, current, me, moves[j], depth, a, PosInf, true).score else NegInf,
      (j: nat) => if j < |moves| then MoveValue(g, current, me, moves[j], depth) else NegInf,
      (j: nat) => expired(BeforeRootMove(depth, j)), 0, NegInf, bestScore, None);
  }

  /** The scans of depths `depth..maxDepth`, in order, over the scan `scan(d)` of each depth. */
  function ScanOver(scan: nat -> seq<(Score, Move)>, stop: nat -> bool, depth: nat, maxDepth: nat): (ps: seq<(Score, Move)>)
    decreases maxDepth + 1 - depth
    ensures depth > maxDepth || stop(depth) ==> ps == []
    ensures depth <= maxDepth && !stop(depth) ==> scan(depth) <= ps
  {
    if depth > maxDepth || stop(depth) then []
    else scan(depth) + ScanOver(scan, stop, depth + 1, maxDepth)
  }

  /** The root moves every depth reaches, in order, with their minimax values at that depth. */
  function DeepeningScan(g: Grid, current: Color, me: Color, moves: seq<Move>, depth: nat, maxDepth: nat,
                         expired: Checkpoint -> bool): (ps: seq<(Score, Move)>)
    requires Consistent(g) && AllMovable(g, moves)
    ensures depth > maxDepth || expired(BeforeDepth(depth)) ==> ps == []
    ensures depth <= maxDepth && !expired(BeforeDepth(depth)) ==> RootScan(g, current, me, moves, depth, 0, expired) <= ps
  {
    ScanOver((d: nat) => RootScan(g, current, me, moves, d, 0, expired), (d: nat) => expired(BeforeDepth(d)), depth, maxDepth)
  }

  /** One depth of the deepening, on the fold: a round started without a move, whose move
      replaces the carried one only when it found one, and then the later depths. */
  lemma DeepeningStep(scan: seq<(Score, Move)>, later: seq<(Score, Move)>, bestScore: Score,
                      bestMove: Option<Move>, round: (Score, Option<Move>), result: (Score, Option<Move>))
    requires round == Best(scan, (bestScore, None))
    requires result == Best(later, (round.0, if round.1.Some? then round.1 else bestMove))
    ensures result == Best(scan + later, (bestScore, bestMove))
  {
    BestInit(scan, bestScore, bestMove);
    BestAppend(scan, later, (bestScore, bestMove));
  }

  /** A deepening whose every round is the fold of its depth's scan keeps the first move,
      over all depths reached in order, of the highest value. */
  lemma {:induction false} DeepeningOverIsBest(moves: seq<Move>, round: (nat, Score) -> (Score, Option<Move>),
                                               scan: nat -> seq<(Score, Move)>, stop: nat -> bool,
                                               depth: nat, maxDepth: nat, bestScore: Score, bestMove: Option<Move>)
    requires forall d: nat, s: Score :: RoundKeeps(moves, s, round(d, s))
    requires forall d: nat, s: Score | depth <= d :: round(d, s) == Best(scan(d), (s, None))
    requires bestMove.None? || bestMove.value in moves
    requires bestMove.None? <==> bestScore == NegInf
    decreases maxDepth + 1 - depth
    ensures DeepeningOver(moves, round, stop, depth, maxDepth, bestScore, bestMove)
         == Best(ScanOver(scan, stop, depth, maxDepth), (bestScore, bestMove))
  {
    if depth <= maxDepth && !stop(depth) {
      var result := round(depth, bestScore);
      assert RoundKeeps(moves, bestScore, result);
      var bestMove' := if result.1.Some? then result.1 else bestMove;
      DeepeningOverIsBest(moves, round, scan, stop, depth + 1, maxDepth, result.0, bestMove');
      DeepeningStep(scan(depth), ScanOver(scan, stop, depth + 1, maxDepth), bestScore, bestMove,
                    result, DeepeningOver(moves, round, stop, depth + 1, maxDepth, result.0, bestMove'));
    }
  }

  /** Each depth's root loop is the fold of that depth's scan. */
  lemma RootRoundsAreBest(g: Grid, current: Color, me: Color, moves: seq<Move>, expired: Checkpoint -> bool)
    requires Consistent(g) && AllMovable(g, moves)
    ensures forall d: nat, s: Score | 1 <= d ::
      RootRound(g, current, me, moves, expired, d, s) == Best(RootScan(g, current, me, moves, d, 0, expired), (s, None))
  {
    forall d: nat, s: Score | 1 <= d
      ensures RootRound(g, current, me, moves, expired, d, s) == Best(RootScan(g, current, me, moves, d, 0, expired), (s, None))
    {
      RootLoopIsBest(g, current, me, moves, d, s, expired);
    }
  }

  /** Iterative deepening keeps the first move, over all depths reached in order, of the
      highest minimax value, since the best score is carried from depth to depth. */
  lemma DeepeningIsBest(g: Grid, current: Color, me: Color, moves: seq<Move>, depth: nat,
                        maxDepth: nat, bestScore: Score, bestMove: Option<Move>,
                        expired: Checkpoint -> bool)
    requires Consistent(g) && AllMovable(g, moves) && depth >= 1
    requires bestMove.None? || bestMove.value in moves
    requires bestMove.None? <==> bestScore == NegInf
    ensures Deepening(g, current, me, moves, depth, maxDepth, bestScore, bestMove, expired)
         == Best(DeepeningScan(g, current, me, moves, depth, maxDepth, expired), (bestScore, bestMove))
  {
    RootRoundsAreBest(g, current, me, moves, expired);
    DeepeningOverIsBest(moves, (d: nat, s: Score) => RootRound(g, current, me, moves, expired, d, s),
      (d: nat) => RootScan(g, current, me, moves, d, 0, expired),
      (d: nat) => expired(BeforeDepth(d)), depth, maxDepth, bestScore, bestMove);
  }

  /** `_get_minimax_move` plays the first move, over the depths reached, of the highest
      minimax value, and the random pick when no move scored above −∞. */
  lemma MinimaxMoveIsBest(g: Grid, current: Color, me: Color, difficulty: string, moves: seq<Move>,
                          expired: Checkpoint -> bool, pick: nat)
    requires Consistent(g) && AllMovable(g, moves) && |moves| > 0
    ensures var found := Best(DeepeningScan(g, current, me, moves, 1, MaxDepth(difficulty), expired), (NegInf, None));
      MinimaxMove(g, current, me, difficulty, moves, expired, pick)
        == if found.1.Some? then found.1.value else moves[pick % |moves|]
  {
    DeepeningIsBest(g, current, me, moves, 1, MaxDepth(difficulty), NegInf, None, expired);
  }

  // ---------------------------------------------------------------------------
  // One-ply heuristic (medium tier)

  predicate IsCenter(s: Square) {
    s in {Square(3, 3), Square(3, 4), Square(4, 3), Square(4, 4)}
  }

  /** `_evaluate_move`, with the random term supplied as `jitter`. */
  function EvaluateMove(g: Grid, me: Color, m: Move, jitter: real): real
    requires Movable(g, m)
  {
    var piece := At(g, m.from).value;
    var target := At(g, m.to);
    var capture := if target.Some? then PieceValue(target.value.kind) as real else 0.0;
    var center := if IsCenter(m.to) then 0.5 else 0.0;
    var development :=
      if me == Black && m.from.row == 0 && m.to.row > 0 then 0.3
      else if me == White && m.from.row == 7 && m.to.row < 7 then 0.3
      else 0.0;
    var kingPenalty := if piece.kind == King && !piece.hasMoved then 1.0 else 0.0;
    var advance :=
      if piece.kind == Pawn then (if me == White then (7 - m.to.row) as real * 0.1 else m.to.row as real * 0.1)
      else 0.0;
    capture + center + development - kingPenalty + advance + jitter
  }

  function MoveScore(g: Grid, me: Color, moves: seq<Move>, jitter: nat -> real, j: nat): real
    requires AllMovable(g, moves) && j < |moves|
  {
    EvaluateMove(g, me, moves[j], jitter(j))
  }

  /** The loop of `_get_evaluated_move`: index of the first strictly best score so far. */
  function EvaluatedLoop(g: Grid, me: Color, moves: seq<Move>, jitter: nat -> real, i: nat, best: Option<nat>): (r: Option<nat>)
    requires AllMovable(g, moves) && i <= |moves|
    requires best.None? ==> i == 0
    requires best.Some? ==> (
      && best.value < i
      && (forall j | 0 <= j < i :: MoveScore(g, me, moves, jitter, j) <= MoveScore(g, me, moves, jitter, best.value))
      && (forall j | 0 <= j < best.value :: MoveScore(g, me, moves, jitter, j) < MoveScore(g, me, moves, jitter, best.value)))
    decreases |moves| - i
    ensures |moves| > 0 ==> r.Some?
    ensures r.Some? ==> (
      && r.value < |moves|
      && (forall j | 0 <= j < |moves| :: MoveScore(g, me, moves, jitter, j) <= MoveScore(g, me, moves, jitter, r.value))
      && (forall j | 0 <= j < r.value :: MoveScore(g, me, moves, jitter, j) < MoveScore(g, me, moves, jitter, r.value)))
  {
    if i == |moves| then best
    else
      var s := MoveScore(g, me, moves, jitter, i);
      if best.None? || s > MoveScore(g, me, moves, jitter, best.value) then
        EvaluatedLoop(g, me, moves, jitter, i + 1, Some(i))
      else
        EvaluatedLoop(g, me, moves, jitter, i + 1, best)
  }

  /** `_get_evaluated_move`: the first move of highest one-ply score. Every score is
      finite, so the loop always finds a move and the random fallback is never taken. */
  function EvaluatedMove(g: Grid, me: Color, moves: seq<Move>, jitter: nat -> real): (r: Move)
    requires AllMovable(g, moves) && |moves| > 0
    ensures exists k | 0 <= k < |moves| :: (
      && r == moves[k]
      && (forall j | 0 <= j < |moves| :: MoveScore(g, me, moves, jitter, j) <= MoveScore(g, me, moves, jitter, k))
      && (forall j | 0 <= j < k :: MoveScore(g, me, moves, jitter, j) < MoveScore(g, me, moves, jitter, k)))
  {
    var best := EvaluatedLoop(g, me, moves, jitter, 0, None);
    moves[best.value]
  }

  // ---------------------------------------------------------------------------
  // The AI player

  datatype AIConfig = AIConfig(color: Color, difficulty: string)

  /** `ChessAI()` with its default arguments. */
  const DefaultAI := AIConfig(Black, "medium")

  predicate IsDifficulty(level: string) {
    level == "easy" || level == "medium" || level == "hard"
  }

  /** `set_difficulty`: only a known level replaces the current one. */
  function SetDifficulty(ai: AIConfig, level: string): (r: AIConfig)
    ensures r.color == ai.color
    ensures IsDifficulty(level) ==> r.difficulty == level
    ensures !IsDifficulty(level) ==> r == ai
  {
    if IsDifficulty(level) then ai.(difficulty := level) else ai
  }

  /** `get_best_move`: nothing exactly when the AI's colour has no generated move,
      otherwise a generated move chosen by the configured tier. */
  function GetBestMove(b: Board, ai: AIConfig, pick: nat, jitter: nat -> real,
                       expired: Checkpoint -> bool): (r: Option<Move>)
    requires Valid(b)
    ensures r.None? <==> |GetAllPossibleMoves(b, ai.color)| == 0
    ensures r.Some? ==> r.value in GetAllPossibleMoves(b, ai.color)
    ensures r.Some? && ai.difficulty == "easy" ==>
      r.value == GetAllPossibleMoves(b, ai.color)[pick % |GetAllPossibleMoves(b, ai.color)|]
  {
    var moves := GetAllPossibleMoves(b, ai.color);
    if |moves| == 0 then None
    else if ai.difficulty == "easy" then Some(moves[pick % |moves|])
    else if ai.difficulty == "medium" then Some(EvaluatedMove(b.grid, ai.color, moves, jitter))
    else Some(MinimaxMove(b.grid, b.currentPlayer, ai.color, ai.difficulty, moves, expired, pick))
  }
}
