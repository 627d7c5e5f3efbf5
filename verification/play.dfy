/** One turn of the game: the human clicks a cell, and unless that ends the
    game the computer answers with its chosen move. Every game end shows a
    message and resets the board. */
module Play {

  import opened Options
  import opened Boards
  import opened Search

  /** The three game-over dialogs. */
  datatype Message = YouWin | ComputerWins | ItsADraw

  /** The board after a handler has run, and the dialog it showed, if any. */
  datatype Turn = Turn(board: Board, message: Option<Message>)

  /** The board-update part of `player_click`: an empty cell at (row, col)
      gets the human's mark; an occupied cell leaves the board as it is. */
  function PlaceHumanMark(b: Board, row: nat, col: nat): (r: Board)
    requires row < 3 && col < 3
    ensures b[CellIndex(row, col)] != Empty ==> r == b
    ensures b[CellIndex(row, col)] == Empty ==>
      && r[CellIndex(row, col)] == Player
      && (forall j :: 0 <= j < 9 && j != CellIndex(row, col) ==> r[j] == b[j])
      && Count(r, Empty) + 1 == Count(b, Empty)
      && Count(r, Player) == Count(b, Player) + 1
  {
    var i := CellIndex(row, col);
    if b[i] == Empty then
      CountAfterPlace(b, i, Player);
      b[i := Player]
    else
      b
  }

  /** The ending `player_click` and `computer_move` share: after `mover` has
      played, a line for it shows `win` and resets, a full board shows the draw
      and resets, and otherwise play goes on from `b`. */
  function Settle(b: Board, mover: Cell, win: Message): (t: Turn)
    requires win != ItsADraw
    ensures t.message == Some(win) <==> HasWinner(b, mover)
    ensures t.message == Some(ItsADraw) <==> !HasWinner(b, mover) && IsFull(b)
    ensures t.message.Some? ==> t.board == Reset(b)
    ensures t.message.None? ==> t.board == b && !HasWinner(b, mover) && !IsFull(b)
  {
    if HasWinner(b, mover) then Turn(Reset(b), Some(win))
    else if IsFull(b) then Turn(Reset(b), Some(ItsADraw))
    else Turn(b, None)
  }

  /** `computer_move`: choose the first best empty cell, take it, and settle
      the game. A full board is left alone. */
  method ComputerMove(b: Board) returns (t: Turn, move: Option<Pos>)
    ensures move.None? <==> IsFull(b)
    ensures move.Some? ==> IsFirstBest(b, move.value)
    ensures move.None? ==> t == Turn(b, None)
    ensures move.Some? ==>
      var after := b[move.value := Computer];
      && (t.message == Some(ComputerWins) <==> HasWinner(after, Computer))
      && (t.message == Some(ItsADraw) <==> !HasWinner(after, Computer) && IsFull(after))
      && (t.message.Some? ==> t.board == EmptyBoard)
      && (t.message.None? ==> t.board == after)
    ensures t.message != Some(YouWin)
  {
    move := ChooseMove(b);
    match move
    case None =>
      t := Turn(b, None);
    case Some(k) =>
      t := Settle(b[k := Computer], Computer, ComputerWins);
  }

  /** `player_click(row, col)`: a click on an occupied cell does nothing; on an
      empty cell the human's mark is placed, a win or a draw ends the game, and
      otherwise the computer replies. Returns the resulting turn and the
      computer's reply, if it made one. */
  method PlayerClick(b: Board, row: nat, col: nat) returns (t: Turn, reply: Option<Pos>)
    requires row < 3 && col < 3
    ensures b[CellIndex(row, col)] != Empty ==> t == Turn(b, None) && reply.None?
    ensures t.message.Some? ==> t.board == EmptyBoard
    ensures var after := PlaceHumanMark(b, row, col);
      && (t.message == Some(YouWin) <==> b[CellIndex(row, col)] == Empty && HasWinner(after, Player))
      && (reply.Some? <==> b[CellIndex(row, col)] == Empty && !HasWinner(after, Player) && !IsFull(after))
      && (reply.Some? ==> IsFirstBest(after, reply.value))
      && (t.message == Some(ComputerWins) <==> reply.Some? && HasWinner(after[reply.value := Computer], Computer))
      && (t.message == Some(ItsADraw) <==>
            || (b[CellIndex(row, col)] == Empty && !HasWinner(after, Player) && IsFull(after))
            || (reply.Some? && !HasWinner(after[reply.value := Computer], Computer) && IsFull(after[reply.value := Computer])))
      && (t.message.None? && reply.Some? ==> t.board == after[reply.value := Computer])
  {
    var i := CellIndex(row, col);
    if b[i] != Empty {
      return Turn(b, None), None;
    }
    var after := PlaceHumanMark(b, row, col);
    var settled := Settle(after, Player, YouWin);
    if settled.message.Some? {
      return settled, None;
    }
    t, reply := ComputerMove(after);
  }

}
