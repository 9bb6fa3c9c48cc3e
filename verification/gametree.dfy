/**
  Search scores and an abstract game tree. The alpha-beta loop of the AI is
  restated here over explicit trees, with the same fail-soft updates and the
  same `beta <= alpha` cutoff, and proved to agree with the plain minimax value.
 */
module GameTrees {

  /** A search score: a finite value or one of the two infinities. */
  datatype Score = NegInf | Fin(v: real) | PosInf

  predicate Le(a: Score, b: Score) {
    a.NegInf? || b.PosInf? || (a.Fin? && b.Fin? && a.v <= b.v)
  }

  predicate Less(a: Score, b: Score) {
    !Le(b, a)
  }

  function Max(a: Score, b: Score): (r: Score)
    ensures Le(a, r) && Le(b, r) && (r == a || r == b)
  {
    if Le(a, b) then b else a
  }

  function Min(a: Score, b: Score): (r: Score)
    ensures Le(r, a) && Le(r, b) && (r == a || r == b)
  {
    if Le(a, b) then a else b
  }

  /** A position evaluated statically, or a position with its replies in search order. */
  datatype Tree = Leaf(value: real) | Node(kids: seq<Tree>)

  function Start(maximizing: bool): Score {
    if maximizing then NegInf else PosInf
  }

  /** The minimax value: the best reply for the side to move, infinite when there is none. */
  function Value(t: Tree, maximizing: bool): Score
    decreases t, 1
  {
    match t
    case Leaf(v) => Fin(v)
    case Node(_) => ValueLoop(t, 0, maximizing, Start(maximizing))
  }

  function ValueLoop(t: Tree, i: nat, maximizing: bool, acc: Score): (r: Score)
    requires t.Node? && i <= |t.kids|
    decreases t, 0, |t.kids| - i
    ensures maximizing ==> Le(acc, r)
    ensures !maximizing ==> Le(r, acc)
  {
    if i == |t.kids| then acc
    else
      var v := Value(t.kids[i], !maximizing);
      ValueLoop(t, i + 1, maximizing, if maximizing then Max(acc, v) else Min(acc, v))
  }

  /** Alpha-beta over the tree, in the shape of the AI's `_alpha_beta`. */
  function Search(t: Tree, alpha: Score, beta: Score, maximizing: bool): Score
    decreases t, 1
  {
    match t
    case Leaf(v) => Fin(v)
    case Node(_) => SearchLoop(t, 0, alpha, beta, maximizing, Start(maximizing))
  }

  function SearchLoop(t: Tree, i: nat, alpha: Score, beta: Score, maximizing: bool, best: Score): Score
    requires t.Node? && i <= |t.kids|
    decreases t, 0, |t.kids| - i
  {
    if i == |t.kids| then best
    else
      var s := Search(t.kids[i], alpha, beta, !maximizing);
      if maximizing then
        var best' := Max(best, s);
        var alpha' := Max(alpha, s);
        if Le(beta, alpha') then best' else SearchLoop(t, i + 1, alpha', beta, maximizing, best')
      else
        var best' := Min(best, s);
        var beta' := Min(beta, s);
        if Le(beta', alpha) then best' else SearchLoop(t, i + 1, alpha, beta', maximizing, best')
  }

  /** The fail-soft window property: a result at or below `alpha` bounds the true value
      from above, one at or above `beta` bounds it from below, and one strictly inside
      the window is the true value. */
  predicate WindowSound(r: Score, v: Score, alpha: Score, beta: Score) {
    && (Le(r, alpha) ==> Le(v, r))
    && (Le(beta, r) ==> Le(r, v))
    && (Less(alpha, r) && Less(r, beta) ==> r == v)
  }

  lemma SearchSound(t: Tree, alpha: Score, beta: Score, maximizing: bool)
    requires Less(alpha, beta)
    decreases t, 1
    ensures WindowSound(Search(t, alpha, beta, maximizing), Value(t, maximizing), alpha, beta)
  {
    if t.Node? {
      if maximizing {
        MaxLoopSound(t, 0, alpha, alpha, beta, NegInf, NegInf);
      } else {
        MinLoopSound(t, 0, alpha, beta, beta, PosInf, PosInf);
      }
    }
  }

  /** The maximizing loop; `best` is the best result so far and `vacc` the best true value. */
  lemma MaxLoopSound(t: Tree, i: nat, alpha0: Score, alpha: Score, beta: Score, best: Score, vacc: Score)
    requires t.Node? && i <= |t.kids|
    requires alpha == Max(alpha0, best) && Less(alpha, beta)
    requires Le(vacc, best)
    requires Less(alpha0, best) ==> Le(best, vacc)
    decreases t, 0, |t.kids| - i
    ensures WindowSound(SearchLoop(t, i, alpha, beta, true, best), ValueLoop(t, i, true, vacc), alpha0, beta)
  {
    if i < |t.kids| {
      var k := t.kids[i];
      SearchSound(k, alpha, beta, false);
      var s := Search(k, alpha, beta, false);
      var alpha' := Max(alpha, s);
      if !Le(beta, alpha') {
        MaxLoopSound(t, i + 1, alpha0, alpha', beta, Max(best, s), Max(vacc, Value(k, false)));
      }
    }
  }

  /** The minimizing loop, the mirror image of `MaxLoopSound`. */
  lemma MinLoopSound(t: Tree, i: nat, alpha: Score, beta0: Score, beta: Score, best: Score, vacc: Score)
    requires t.Node? && i <= |t.kids|
    requires beta == Min(beta0, best) && Less(alpha, beta)
    requires Le(best, vacc)
    requires Less(best, beta0) ==> Le(vacc, best)
    decreases t, 0, |t.kids| - i
    ensures WindowSound(SearchLoop(t, i, alpha, beta, false, best), ValueLoop(t, i, false, vacc), alpha, beta0)
  {
    if i < |t.kids| {
      var k := t.kids[i];
      SearchSound(k, alpha, beta, true);
      var s := Search(k, alpha, beta, true);
      var beta' := Min(beta, s);
      if !Le(beta', alpha) {
        MinLoopSound(t, i + 1, alpha, beta0, beta', Min(best, s), Min(vacc, Value(k, true)));
      }
    }
  }

  /** With the full window, pruning never changes the value of the tree. */
  lemma SearchFullWindow(t: Tree, maximizing: bool)
    ensures Search(t, NegInf, PosInf, maximizing) == Value(t, maximizing)
  {
    SearchSound(t, NegInf, PosInf, maximizing);
  }
}
