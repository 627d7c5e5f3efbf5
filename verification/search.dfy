/** The computer's move chooser: depth-aware minimax over the remaining empty
    cells, and the root scan that keeps the first index with a strictly
    greater score. The computer ("O") is the maximizing side. */
module Search {

  import opened Options
  import opened Boards

  /** The mark placed by the side to move: the computer when maximizing. */
  function Mover(maximizing: bool): (m: Cell)
    ensures m != Empty
  {
    if maximizing then Computer else Player
  }

  /** Keeps the better of a child's score and the best so far; `None` is the
      infinite starting value, which every score beats. */
  function Pick(maximizing: bool, score: int, best: Option<int>): (r: int)
    ensures best.None? ==> r == score
    ensures best.Some? && maximizing ==> r >= score && r >= best.value && (r == score || r == best.value)
    ensures best.Some? && !maximizing ==> r <= score && r <= best.value && (r == score || r == best.value)
  {
    match best
    case None => score
    case Some(s) =>
      if maximizing then (if score > s then score else s)
      else (if score < s then score else s)
  }

  /** The score of a board, `depth` half-moves below the root: `10 - depth` when
      the computer owns a line, `depth - 10` when the human does, 0 on a full
      board, and otherwise the best child score for the side to move. The
      range bound holds whenever the search cannot run past depth 10, as it
      never does from the root call at depth 0. */
  function Minimax(b: Board, depth: nat, maximizing: bool): (r: int)
    ensures HasWinner(b, Computer) ==> r == 10 - depth
    ensures !HasWinner(b, Computer) && HasWinner(b, Player) ==> r == depth - 10
    ensures !HasWinner(b, Computer) && !HasWinner(b, Player) && IsFull(b) ==> r == 0
    ensures depth + Count(b, Empty) <= 10 ==> depth - 10 <= r <= 10 - depth
    decreases Count(b, Empty), 1, 0
  {
    if HasWinner(b, Computer) then 10 - depth
    else if HasWinner(b, Player) then depth - 10
    else if IsFull(b) then 0
    else
      match BestFrom(b, depth, maximizing, 0, None)
      case Some(s) => s
      case None => assert false; 0
  }

  /** The loop over cells `i .. 8` of one minimax node: every empty cell gets
      the mover's mark, is scored one level deeper, and is folded into `best`. */
  function BestFrom(b: Board, depth: nat, maximizing: bool, i: nat, best: Option<int>): (r: Option<int>)
    requires i <= 9
    ensures r.Some? <==> best.Some? || exists j :: i <= j < 9 && b[j] == Empty
    ensures depth + Count(b, Empty) <= 10 && (best.Some? ==> depth - 9 <= best.value <= 9 - depth)
            ==> (r.Some? ==> depth - 9 <= r.value <= 9 - depth)
    decreases Count(b, Empty), 0, 9 - i
  {
    if i == 9 then best
    else if b[i] == Empty then
      CountAfterPlace(b, i, Mover(maximizing));
      var score := Minimax(b[i := Mover(maximizing)], depth + 1, !maximizing);
      BestFrom(b, depth, maximizing, i + 1, Some(Pick(maximizing, score, best)))
    else
      BestFrom(b, depth, maximizing, i + 1, best)
  }

  /** The score of the child reached by the mover taking empty cell `j`. */
  function ChildScore(b: Board, depth: nat, maximizing: bool, j: Pos): int
    requires b[j] == Empty
  {
    Minimax(b[j := Mover(maximizing)], depth + 1, !maximizing)
  }

  /** `a` is at least as good as `c` for the side that is maximizing or minimizing. */
  predicate NoWorse(maximizing: bool, a: int, c: int)
  {
    if maximizing then a >= c else a <= c
  }

  /** One step of the per-node loop: an empty cell folds its child's score
      into the best so far, an occupied cell is skipped. */
  lemma BestFromStep(b: Board, depth: nat, maximizing: bool, i: nat, best: Option<int>)
    requires i < 9
    ensures b[i] == Empty ==>
      BestFrom(b, depth, maximizing, i, best)
        == BestFrom(b, depth, maximizing, i + 1, Some(Pick(maximizing, ChildScore(b, depth, maximizing, i), best)))
    ensures b[i] != Empty ==>
      BestFrom(b, depth, maximizing, i, best) == BestFrom(b, depth, maximizing, i + 1, best)
  {
  }

  /** The scan from `i` returns either the incoming best or the score of one of
      the empty cells it visits. */
  lemma {:induction false} BestFromAttained(b: Board, depth: nat, maximizing: bool, i: nat, best: Option<int>)
    requires i <= 9
    ensures var r := BestFrom(b, depth, maximizing, i, best);
      r.Some? ==>
        || (best.Some? && r.value == best.value)
        || exists j :: i <= j < 9 && b[j] == Empty && r.value == ChildScore(b, depth, maximizing, j)
    decreases 9 - i
  {
    if i < 9 {
      if b[i] == Empty {
        var score := ChildScore(b, depth, maximizing, i);
        var next := Some(Pick(maximizing, score, best));
        BestFromStep(b, depth, maximizing, i, best);
        BestFromAttained(b, depth, maximizing, i + 1, next);
      } else {
        BestFromStep(b, depth, maximizing, i, best);
        BestFromAttained(b, depth, maximizing, i + 1, best);
      }
    }
  }

  /** The scan from `i` never returns anything worse than the incoming best. */
  lemma {:induction false} BestFromKeepsBest(b: Board, depth: nat, maximizing: bool, i: nat, best: Option<int>)
    requires i <= 9
    requires best.Some?
    ensures var r := BestFrom(b, depth, maximizing, i, best);
      r.Some? && NoWorse(maximizing, r.value, best.value)
    decreases 9 - i
  {
    if i < 9 {
      if b[i] == Empty {
        var score := ChildScore(b, depth, maximizing, i);
        var next := Some(Pick(maximizing, score, best));
        BestFromStep(b, depth, maximizing, i, best);
        BestFromKeepsBest(b, depth, maximizing, i + 1, next);
      } else {
        BestFromStep(b, depth, maximizing, i, best);
        BestFromKeepsBest(b, depth, maximizing, i + 1, best);
      }
    }
  }

  /** The scan from `i` never returns anything worse than the score of an
      empty cell it visits. */
  lemma {:induction false} BestFromBeatsChildren(b: Board, depth: nat, maximizing: bool, i: nat, best: Option<int>)
    requires i <= 9
    ensures var r := BestFrom(b, depth, maximizing, i, best);
      forall j {:trigger ChildScore(b, depth, maximizing, j)} :: i <= j < 9 && b[j] == Empty ==>
        r.Some? && NoWorse(maximizing, r.value, ChildScore(b, depth, maximizing, j))
    decreases 9 - i
  {
    var r := BestFrom(b, depth, maximizing, i, best);
    if i < 9 {
      BestFromStep(b, depth, maximizing, i, best);
      if b[i] == Empty {
        var score := ChildScore(b, depth, maximizing, i);
        var next := Some(Pick(maximizing, score, best));
        BestFromBeatsChildren(b, depth, maximizing, i + 1, next);
        BestFromKeepsBest(b, depth, maximizing, i + 1, next);
        forall j | i <= j < 9 && b[j] == Empty
          ensures r.Some? && NoWorse(maximizing, r.value, ChildScore(b, depth, maximizing, j))
        {
          if j == i {
            assert NoWorse(maximizing, next.value, score);
          }
        }
      } else {
        BestFromBeatsChildren(b, depth, maximizing, i + 1, best);
      }
    }
  }

  /** On a board that is not terminal, minimax is the maximum of the children's
      scores when maximizing and their minimum when minimizing: it is attained
      by some empty cell and no empty cell does better. */
  lemma MinimaxIsBestChild(b: Board, depth: nat, maximizing: bool)
    requires !IsTerminal(b)
    ensures exists j {:trigger ChildScore(b, depth, maximizing, j)} :: 0 <= j < 9 && b[j] == Empty && Minimax(b, depth, maximizing) == ChildScore(b, depth, maximizing, j)
    ensures forall j {:trigger ChildScore(b, depth, maximizing, j)} :: 0 <= j < 9 && b[j] == Empty ==> NoWorse(maximizing, Minimax(b, depth, maximizing), ChildScore(b, depth, maximizing, j))
  {
    BestFromAttained(b, depth, maximizing, 0, None);
    BestFromBeatsChildren(b, depth, maximizing, 0, None);
  }

  /** Minimax as the game runs it: the shared board array is marked, searched
      and unmarked again cell by cell. It computes the pure `Minimax` score and
      leaves the caller's board exactly as it found it. */
  method MinimaxInPlace(board: array<Cell>, depth: nat, maximizing: bool) returns (score: int)
    requires board.Length == 9
    modifies board
    ensures board[..] == old(board[..])
    ensures score == Minimax(old(board[..]), depth, maximizing)
    decreases Count(board[..], Empty), 2
  {
    var b: Board := board[..];
    if HasWinner(b, Computer) {
      score := 10 - depth;
    } else if HasWinner(b, Player) {
      score := depth - 10;
    } else if IsFull(b) {
      score := 0;
    } else {
      var best := ScanInPlace(board, depth, maximizing);
      score := best.value;
    }
  }

  /** The loop of one minimax node on the shared board: each empty cell in
      turn is tried by `TryCellInPlace`. */
  method ScanInPlace(board: array<Cell>, depth: nat, maximizing: bool) returns (best: Option<int>)
    requires board.Length == 9
    modifies board
    ensures board[..] == old(board[..])
    ensures best == BestFrom(old(board[..]), depth, maximizing, 0, None)
    decreases Count(board[..], Empty), 1
  {
    var b: Board := board[..];
    best := None;
    for i := 0 to 9
      invariant board[..] == b
      invariant BestFrom(b, depth, maximizing, i, best) == BestFrom(b, depth, maximizing, 0, None)
    {
      best := TryCellInPlace(board, depth, maximizing, i, best);
    }
  }

  /** One pass of that loop: an empty cell gets the mover's mark, is searched
      one level deeper and is cleared again, and its score is folded into
      `best`; an occupied cell is skipped. */
  method TryCellInPlace(board: array<Cell>, depth: nat, maximizing: bool, i: Pos, best: Option<int>)
      returns (best': Option<int>)
    requires board.Length == 9
    modifies board
    ensures board[..] == old(board[..])
    ensures BestFrom(old(board[..]), depth, maximizing, i, best)
         == BestFrom(old(board[..]), depth, maximizing, i + 1, best')
    decreases Count(board[..], Empty), 0
  {
    var b: Board := board[..];
    BestFromStep(b, depth, maximizing, i, best);
    best' := best;
    if board[i] == Empty {
      var mark := Mover(maximizing);
      board[i] := mark;
      assert board[..] == b[i := mark];
      CountAfterPlace(b, i, mark);
      var s := MinimaxInPlace(board, depth + 1, !maximizing);
      board[i] := Empty;
      assert board[..] == b;
      best' := Some(Pick(maximizing, s, best));
    }
  }

  /** The score `computer_move` gives empty cell `i`: the computer takes it and
      the human moves next, at depth 0. */
  function RootScore(b: Board, i: Pos): int
    requires b[i] == Empty
  {
    Minimax(b[i := Computer], 0, false)
  }

  /** `k` is the move the root scan settles on: an empty cell whose score no
      empty cell beats, and which every empty cell before it scores strictly
      below. */
  predicate IsFirstBest(b: Board, k: int)
  {
    && 0 <= k < 9
    && b[k] == Empty
    && (forall j {:trigger RootScore(b, j)} :: 0 <= j < 9 && b[j] == Empty ==> RootScore(b, j) <= RootScore(b, k))
    && (forall j {:trigger RootScore(b, j)} :: 0 <= j < k && b[j] == Empty ==> RootScore(b, j) < RootScore(b, k))
  }

  /** At most one cell is the first best one. */
  lemma FirstBestIsUnique(b: Board, k1: int, k2: int)
    requires IsFirstBest(b, k1) && IsFirstBest(b, k2)
    ensures k1 == k2
  {
    var s1, s2 := RootScore(b, k1), RootScore(b, k2);
    assert s1 <= s2 && s2 <= s1;
  }

  /** The search part of `computer_move`: scan cells 0 .. 8, score each empty
      one, and keep the first whose score is strictly greater than the best so
      far. There is no move exactly when the board has no empty cell. */
  method ChooseMove(b: Board) returns (move: Option<Pos>)
    ensures move.None? <==> IsFull(b)
    ensures move.Some? ==> IsFirstBest(b, move.value)
    ensures move.Some? ==> forall k :: IsFirstBest(b, k) ==> k == move.value
  {
    var bestScore: Option<int> := None;
    move := None;
    for i := 0 to 9
      invariant move.None? <==> bestScore.None?
      invariant move.None? <==> forall j :: 0 <= j < i ==> b[j] != Empty
      invariant move.Some? ==> move.value < i && b[move.value] == Empty && bestScore.value == RootScore(b, move.value)
      invariant move.Some? ==> forall j {:trigger RootScore(b, j)} :: 0 <= j < i && b[j] == Empty ==> RootScore(b, j) <= bestScore.value
      invariant move.Some? ==> forall j {:trigger RootScore(b, j)} :: 0 <= j < move.value && b[j] == Empty ==> RootScore(b, j) < bestScore.value
    {
      if b[i] == Empty {
        var score := RootScore(b, i);
        if bestScore.None? || score > bestScore.value {
          bestScore := Some(score);
          move := Some(i);
        }
      }
    }
    if move.Some? {
      forall k | IsFirstBest(b, k)
        ensures k == move.value
      {
        FirstBestIsUnique(b, k, move.value);
      }
    }
  }

}
