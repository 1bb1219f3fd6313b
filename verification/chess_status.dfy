/**
 The game-state tests of chess_game.py (`is_check`, `is_checkmate`,
 `is_stalemate`), the legal-move filter written inline in `main`, and the
 two kinds of turn `main` plays: the human's typed move and the computer's
 pick among the legal moves.
 */
module Status {
  import opened Options
  import opened ChessBoard
  import opened PieceMoves
  import opened Attacks
  import opened MoveGen
  import opened Execute
  import opened Notation

  function KingOf(c: Color): Cell {
    Occupied(Piece(c, King))
  }

  /** The first column at or after `col` of row `row` holding `king`. */
  function KingInRow(b: Board, row: int, king: Cell, col: nat): (r: Option<Pos>)
    requires 0 <= row < 8 && col <= 8
    ensures r.Some? ==> r.value.r == row && col <= r.value.c < 8 && Get(b, r.value) == king
    ensures r.Some? ==> forall c | col <= c < r.value.c :: Get(b, Pos(row, c)) != king
    ensures r.None? ==> forall c | col <= c < 8 :: Get(b, Pos(row, c)) != king
    decreases 8 - col
  {
    if col == 8 then None
    else if Get(b, Pos(row, col)) == king then Some(Pos(row, col))
    else KingInRow(b, row, king, col + 1)
  }

  /** No square in row `row` or below holds `king`. */
  ghost predicate NoKingFrom(b: Board, king: Cell, row: int) {
    forall p | InBounds(p) && p.r >= row :: Get(b, p) != king
  }

  /** No square in a later row than `q`, or earlier in its row, holds `king`. */
  ghost predicate NoKingAfter(b: Board, king: Cell, q: Pos) {
    forall p | InBounds(p) && (p.r > q.r || (p.r == q.r && p.c < q.c)) :: Get(b, p) != king
  }

  /**
   The king search of `is_check` from row `row` on. Its `break` leaves only
   the column loop, so a king found in a later row replaces `found`.
   */
  function KingScan(b: Board, king: Cell, row: nat, found: Option<Pos>): (r: Option<Pos>)
    requires row <= 8
    requires found.Some? ==> InBounds(found.value) && found.value.r < row && Get(b, found.value) == king
    ensures r.Some? ==> InBounds(r.value) && Get(b, r.value) == king
    ensures r.None? <==> found.None? && NoKingFrom(b, king, row)
    ensures r.Some? && r.value.r >= row ==> NoKingAfter(b, king, r.value)
    ensures r.Some? && r.value.r < row ==> r == found && NoKingFrom(b, king, row)
    decreases 8 - row
  {
    if row == 8 then found
    else
      var inRow := KingInRow(b, row, king, 0);
      var next := if inRow.Some? then inRow else found;
      var r := KingScan(b, king, row + 1, next);
      assert NoKingFrom(b, king, row) <==> inRow.None? && NoKingFrom(b, king, row + 1) by {
        if inRow.None? && NoKingFrom(b, king, row + 1) {
          forall p | InBounds(p) && p.r >= row
            ensures Get(b, p) != king
          {
            if p.r == row {
              assert p == Pos(row, p.c);
            }
          }
        }
      }
      assert r.Some? && r.value.r == row ==> NoKingAfter(b, king, r.value) by {
        if r.Some? && r.value.r == row {
          assert r == inRow;
          forall p | InBounds(p) && (p.r > row || (p.r == row && p.c < r.value.c))
            ensures Get(b, p) != king
          {
            if p.r == row {
              assert p == Pos(row, p.c);
            }
          }
        }
      }
      r
  }

  /**
   Where `is_check` finds the king of colour `c`: the first such king in the
   last row that holds one, or none when the board has no such king.
   */
  function FindKing(b: Board, c: Color): (r: Option<Pos>)
    ensures r.None? <==> forall p | InBounds(p) :: Get(b, p) != KingOf(c)
    ensures r.Some? ==> InBounds(r.value) && Get(b, r.value) == KingOf(c)
    ensures r.Some? ==>
      forall p | InBounds(p) && (p.r > r.value.r || (p.r == r.value.r && p.c < r.value.c)) :: Get(b, p) != KingOf(c)
  {
    KingScan(b, KingOf(c), 0, None)
  }

  /** The king of colour `c` stands on an attacked square; false when it has no king. */
  function IsCheck(g: Game, c: Color): (r: bool)
    ensures (forall p | InBounds(p) :: Get(g.board, p) != KingOf(c)) ==> !r
    ensures r ==> exists k :: InBounds(k) && Get(g.board, k) == KingOf(c) && IsAttacked(g, k, Opposite(c))
  {
    match FindKing(g.board, c)
    case None => false
    case Some(k) => IsAttacked(g, k, Opposite(c))
  }

  /** With a single king of colour `c` on the board, check means exactly that its square is attacked. */
  lemma SingleKingCheck(g: Game, c: Color, k: Pos)
    requires InBounds(k) && Get(g.board, k) == KingOf(c)
    requires forall p | InBounds(p) && p != k :: Get(g.board, p) != KingOf(c)
    ensures IsCheck(g, c) <==> IsAttacked(g, k, Opposite(c))
  {
  }

  /** A pseudo-legal move of colour `c` that does not leave `c`'s king attacked. */
  ghost predicate IsLegal(g: Game, c: Color, m: Move) {
    InBounds(m.from) && IsOwn(g.board, m.from, c) && m.to in Moves(g, m.from)
    && !IsCheck(MakeMove(g, m.from, m.to), c)
  }

  /**
   The moves from `p` to those of `targets` that pass `safe`, in list order;
   `safe` is the test of the inner loop: make the move on a copy and ask
   whether the mover's king is attacked.
   */
  function SafeMoves(p: Pos, targets: seq<Pos>, safe: Pos -> bool): (r: seq<Move>)
    ensures forall m :: m in r <==> m.from == p && m.to in targets && safe(m.to)
  {
    if targets == [] then []
    else (if safe(targets[0]) then [Move(p, targets[0])] else []) + SafeMoves(p, targets[1..], safe)
  }

  /** The legal moves from the square with index `i`. */
  function LegalAt(g: Game, c: Color, i: nat): (r: seq<Move>)
    requires i < 64
    ensures forall m :: m in r <==> IsLegal(g, c, m) && IndexOf(m.from) == i
  {
    SquareAtInBounds(i);
    var p := SquareAt(i);
    var safe := q => InBounds(q) && !IsCheck(MakeMove(g, p, q), c);
    var here := if IsOwn(g.board, p, c) then SafeMoves(p, Moves(g, p), safe) else [];
    assert forall m | IsLegal(g, c, m) :: IndexOf(m.from) == i ==> m.from == p by {
      forall m | IsLegal(g, c, m)
        ensures IndexOf(m.from) == i ==> m.from == p
      {
        SquareAtIndex(m.from);
      }
    }
    here
  }

  function LegalFrom(g: Game, c: Color, i: nat): (r: seq<Move>)
    requires i <= 64
    ensures forall m :: m in r <==> IsLegal(g, c, m) && IndexOf(m.from) >= i
    decreases 64 - i
  {
    if i == 64 then
      assert forall m | IsLegal(g, c, m) :: IndexOf(m.from) < 64 by {
        forall m | IsLegal(g, c, m)
          ensures IndexOf(m.from) < 64
        {
          SquareAtIndex(m.from);
        }
      }
      []
    else
      LegalAt(g, c, i) + LegalFrom(g, c, i + 1)
  }

  /**
   The filter of the computer's turn: every pseudo-legal move of colour `c`,
   each tried on a copy of the state and kept when `c`'s king is not
   attacked afterwards.
   */
  function LegalMoves(g: Game, c: Color): (r: seq<Move>)
    ensures forall m :: m in r <==> IsLegal(g, c, m)
  {
    assert forall m :: IsLegal(g, c, m) ==> IndexOf(m.from) >= 0;
    LegalFrom(g, c, 0)
  }

  /** Every pseudo-legal move of colour `c`, tried on a copy, leaves `c`'s king attacked. */
  ghost predicate NoEscape(g: Game, c: Color) {
    forall s, e | InBounds(s) && IsOwn(g.board, s, c) && e in Moves(g, s) :: IsCheck(MakeMove(g, s, e), c)
  }

  lemma NoLegalMoveIsNoEscape(g: Game, c: Color)
    ensures LegalMoves(g, c) == [] <==> NoEscape(g, c)
  {
    if LegalMoves(g, c) != [] {
      assert IsLegal(g, c, LegalMoves(g, c)[0]);
    }
    if !NoEscape(g, c) {
      var s, e :| InBounds(s) && IsOwn(g.board, s, c) && e in Moves(g, s) && !IsCheck(MakeMove(g, s, e), c);
      assert IsLegal(g, c, Move(s, e));
    }
  }

  /**
   `is_checkmate`: in check, and every pseudo-legal move of that colour,
   tried on a copy, leaves its king attacked.
   */
  function IsCheckmate(g: Game, c: Color): (r: bool)
    ensures r <==> IsCheck(g, c) && LegalMoves(g, c) == []
    ensures r <==> IsCheck(g, c) && NoEscape(g, c)
  {
    NoLegalMoveIsNoEscape(g, c);
    IsCheck(g, c) && LegalMoves(g, c) == []
  }

  /**
   `is_stalemate`: not in check, and every pseudo-legal move of that colour,
   tried on a copy, leaves its king attacked. It never holds together with
   checkmate.
   */
  function IsStalemate(g: Game, c: Color): (r: bool)
    ensures r <==> !IsCheck(g, c) && LegalMoves(g, c) == []
    ensures r <==> !IsCheck(g, c) && NoEscape(g, c)
    ensures r ==> !IsCheckmate(g, c)
  {
    NoLegalMoveIsNoEscape(g, c);
    !IsCheck(g, c) && LegalMoves(g, c) == []
  }

  datatype HumanOutcome = BadFormat | NotYourPiece | NotAMove | Accepted(next: Game)

  /**
   The human's turn in `main`: the text must parse, the start square must
   hold a piece of the side to move, and the end square must be among that
   piece's `get_moves`. The move is not checked for leaving the king attacked.
   */
  function HumanTurn(g: Game, text: string): (r: HumanOutcome)
    ensures r == BadFormat <==> ParseMove(text).None?
    ensures r.Accepted? ==>
      var m := ParseMove(text).value;
      IsOwn(g.board, m.from, g.turn) && m.to in Moves(g, m.from) && r.next == MakeMove(g, m.from, m.to)
    ensures ParseMove(text).Some? && !r.Accepted? ==>
      var m := ParseMove(text).value;
      !IsOwn(g.board, m.from, g.turn) || m.to !in Moves(g, m.from)
  {
    match ParseMove(text)
    case None => BadFormat
    case Some(m) =>
      if !IsOwn(g.board, m.from, g.turn) then NotYourPiece
      else if m.to !in Moves(g, m.from) then NotAMove
      else Accepted(MakeMove(g, m.from, m.to))
  }

  datatype ComputerOutcome = NoLegalMove | Played(move: Move, next: Game, notation: string)

  /**
   The computer's turn in `main`: `choice` stands for the index
   `random.choice` draws from the legal moves. The move played is legal,
   leaves the mover's king unattacked, and is announced in the notation
   `ParseMove` reads back.
   */
  function ComputerTurn(g: Game, choice: nat): (r: ComputerOutcome)
    requires LegalMoves(g, g.turn) == [] || choice < |LegalMoves(g, g.turn)|
    ensures r.NoLegalMove? <==> LegalMoves(g, g.turn) == []
    ensures r.Played? ==> IsLegal(g, g.turn, r.move) && r.next == MakeMove(g, r.move.from, r.move.to)
    ensures r.Played? ==> !IsCheck(r.next, g.turn) && r.next.turn == Opposite(g.turn)
    ensures r.Played? ==> ParseMove(r.notation) == Some(r.move)
  {
    var moves := LegalMoves(g, g.turn);
    if moves == [] then NoLegalMove
    else
      var m := moves[choice];
      assert IsLegal(g, g.turn, m);
      ParseFormatted(m);
      Played(m, MakeMove(g, m.from, m.to), FormatMove(m))
  }
}
