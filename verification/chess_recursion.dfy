/**
 The source's own `get_moves` / `is_attacked` pair, as written: king
 move generation asks `is_attacked` about its castling squares, and
 `is_attacked` asks `get_moves` of every enemy piece, the enemy king
 included, castling and all. A `fuel` bound on the depth of that recursion
 makes it a total function; `None` means the fuel ran out.

 Two facts are proved: whenever the source's recursion returns, it returns
 what the layered `Moves` / `IsAttacked` do; and on a board holding only the
 two kings with every castling right, no recursion depth suffices (in
 CPython, an uncaught `RecursionError`).
 */
module SourceRecursion {
  import opened Options
  import opened ChessBoard
  import opened PieceMoves
  import opened Attacks
  import opened MoveGen

  /** `get_moves` as written, with castling tested through `SrcIsAttacked`. */
  function SrcMoves(g: Game, p: Pos, fuel: nat): Option<seq<Pos>>
    requires InBounds(p)
    decreases fuel, 0, 0
  {
    if fuel == 0 then None
    else
      var cell := Get(g.board, p);
      if !HasKind(cell, King) then Some(AttackMoves(g, p))
      else
        var c := Side(cell);
        SrcKing(g, p, SrcCastle(g, c, 6, fuel - 1), SrcCastle(g, c, 2, fuel - 1))
  }

  /** A king's list once both castling tests are known; either diverging makes the whole call diverge. */
  function SrcKing(g: Game, p: Pos, kingSide: Option<bool>, queenSide: Option<bool>): Option<seq<Pos>>
    requires InBounds(p)
  {
    match kingSide
    case None => None
    case Some(k) =>
      match queenSide
      case None => None
      case Some(q) => Some(AttackMoves(g, p) + CastleList(HomeRow(Side(Get(g.board, p))), k, q))
  }

  /** The squares between king and rook that must be empty for castling towards column `target`. */
  function Between(row: int, target: int): seq<Pos> {
    if target == 6 then [Pos(row, 5), Pos(row, 6)] else [Pos(row, 1), Pos(row, 2), Pos(row, 3)]
  }

  /** The squares that must not be attacked, in the order the source asks about them. */
  function Passage(row: int, target: int): seq<Pos> {
    if target == 6 then [Pos(row, 4), Pos(row, 5), Pos(row, 6)] else [Pos(row, 4), Pos(row, 3), Pos(row, 2)]
  }

  predicate AllEmpty(b: Board, qs: seq<Pos>)
    requires forall q | q in qs :: InBounds(q)
  {
    forall q | q in qs :: IsEmpty(b, q)
  }

  /** One castling condition, evaluated left to right with Python's short-circuit `and`. */
  function SrcCastle(g: Game, c: Color, target: int, fuel: nat): Option<bool>
    decreases fuel, 3, 0
  {
    var row := HomeRow(c);
    var right := if target == 6 then KingSideRight(g.castling, c) else QueenSideRight(g.castling, c);
    if !(right && AllEmpty(g.board, Between(row, target))) then Some(false)
    else SrcNoneAttacked(g, Passage(row, target), Opposite(c), fuel)
  }

  /** `not is_attacked(q1) and not is_attacked(q2) and ...`. */
  function SrcNoneAttacked(g: Game, qs: seq<Pos>, side: Color, fuel: nat): Option<bool>
    decreases fuel, 2, |qs|
  {
    if qs == [] then Some(true)
    else
      match SrcIsAttacked(g, qs[0], side, fuel)
      case None => None
      case Some(hit) => if hit then Some(false) else SrcNoneAttacked(g, qs[1..], side, fuel)
  }

  /** `is_attacked` as written: the row-major scan, returning at the first piece that reaches `q`. */
  function SrcIsAttacked(g: Game, q: Pos, side: Color, fuel: nat): Option<bool>
    decreases fuel, 1, 65
  {
    SrcScan(g, q, side, 0, fuel)
  }

  function SrcScan(g: Game, q: Pos, side: Color, i: nat, fuel: nat): Option<bool>
    requires i <= 64
    decreases fuel, 1, 64 - i
  {
    if i == 64 then Some(false)
    else
      SquareAtInBounds(i);
      var p := SquareAt(i);
      if !IsOwn(g.board, p, side) then SrcScan(g, q, side, i + 1, fuel)
      else
        match SrcMoves(g, p, fuel)
        case None => None
        case Some(ms) => if q in ms then Some(true) else SrcScan(g, q, side, i + 1, fuel)
  }

  // ---------------------------------------------------------------------
  // Agreement: whenever the source returns, it returns what the layered model does.

  lemma {:induction false} SrcMovesAgrees(g: Game, p: Pos, fuel: nat)
    requires InBounds(p)
    ensures SrcMoves(g, p, fuel).Some? ==> SrcMoves(g, p, fuel).value == Moves(g, p)
    decreases fuel, 0, 1
  {
    if fuel > 0 {
      if HasKind(Get(g.board, p), King) {
        SrcKingMovesAgree(g, p, fuel);
      } else {
        assert SrcMoves(g, p, fuel) == Some(AttackMoves(g, p));
        assert Moves(g, p) == AttackMoves(g, p) + [];
      }
    }
  }

  /** For a king, the source's list is the attack list plus the castling squares its own tests allow. */
  lemma {:induction false} SrcKingMovesAgree(g: Game, p: Pos, fuel: nat)
    requires InBounds(p) && fuel > 0 && HasKind(Get(g.board, p), King)
    ensures SrcMoves(g, p, fuel).Some? ==> SrcMoves(g, p, fuel).value == Moves(g, p)
    decreases fuel, 0, 0
  {
    var c := Side(Get(g.board, p));
    var f: nat := fuel - 1;
    SrcMovesOfKing(g, p, f);
    SrcCastleListAgrees(g, c, f);
    MovesOfKing(g, p);
  }

  lemma SrcMovesOfKing(g: Game, p: Pos, f: nat)
    requires InBounds(p) && HasKind(Get(g.board, p), King)
    ensures var c := Side(Get(g.board, p));
      SrcMoves(g, p, f + 1) == SrcKing(g, p, SrcCastle(g, c, 6, f), SrcCastle(g, c, 2, f))
  {
  }

  lemma MovesOfKing(g: Game, p: Pos)
    requires InBounds(p) && HasKind(Get(g.board, p), King)
    ensures Moves(g, p) == AttackMoves(g, p) + CastleMoves(g, Side(Get(g.board, p)))
  {
  }

  /** When both castling tests of the source return, they give the castling list `CastleMoves` gives. */
  lemma SrcCastleListAgrees(g: Game, c: Color, fuel: nat)
    ensures var kingSide := SrcCastle(g, c, 6, fuel);
      var queenSide := SrcCastle(g, c, 2, fuel);
      kingSide.Some? && queenSide.Some? ==>
        CastleMoves(g, c) == CastleList(HomeRow(c), kingSide.value, queenSide.value)
    decreases fuel, 4, 0
  {
    SrcCastleAgrees(g, c, 6, fuel);
    SrcCastleAgrees(g, c, 2, fuel);
  }

  lemma {:induction false} SrcCastleAgrees(g: Game, c: Color, target: int, fuel: nat)
    requires target == 6 || target == 2
    ensures SrcCastle(g, c, target, fuel).Some? ==>
      SrcCastle(g, c, target, fuel).value == (if target == 6 then CanCastleKingSide(g, c) else CanCastleQueenSide(g, c))
    decreases fuel, 3, 0
  {
    var row := HomeRow(c);
    var qs := Passage(row, target);
    SrcNoneAttackedAgrees(g, qs, Opposite(c), fuel);
    var between := Between(row, target);
    if target == 6 {
      assert between == [Pos(row, 5), Pos(row, 6)];
      assert AllEmpty(g.board, between) <==> IsEmpty(g.board, Pos(row, 5)) && IsEmpty(g.board, Pos(row, 6));
    } else {
      assert between == [Pos(row, 1), Pos(row, 2), Pos(row, 3)];
      assert AllEmpty(g.board, between) <==>
        IsEmpty(g.board, Pos(row, 1)) && IsEmpty(g.board, Pos(row, 2)) && IsEmpty(g.board, Pos(row, 3));
    }
    assert (forall i | 0 <= i < |qs| :: !IsAttacked(g, qs[i], Opposite(c))) <==>
      !IsAttacked(g, qs[0], Opposite(c)) && !IsAttacked(g, qs[1], Opposite(c)) && !IsAttacked(g, qs[2], Opposite(c));
  }

  lemma {:induction false} SrcNoneAttackedAgrees(g: Game, qs: seq<Pos>, side: Color, fuel: nat)
    requires forall q | q in qs :: InBounds(q) && q.r != HomeRow(side)
    ensures SrcNoneAttacked(g, qs, side, fuel).Some? ==>
      (SrcNoneAttacked(g, qs, side, fuel).value <==> forall i | 0 <= i < |qs| :: !IsAttacked(g, qs[i], side))
    decreases fuel, 2, |qs|
  {
    if qs != [] {
      SrcIsAttackedAgrees(g, qs[0], side, fuel);
      SrcNoneAttackedAgrees(g, qs[1..], side, fuel);
      assert forall i | 1 <= i < |qs| :: qs[i] == qs[1..][i - 1];
    }
  }

  /**
   The source's `is_attacked` agrees with `IsAttacked` on every square it is
   asked about: an occupied square (the king's, in `is_check`) or a square
   off the attacker's own back rank (the castling squares of the other side).
   */
  lemma {:induction false} SrcIsAttackedAgrees(g: Game, q: Pos, side: Color, fuel: nat)
    requires InBounds(q)
    requires !IsEmpty(g.board, q) || q.r != HomeRow(side)
    ensures SrcIsAttacked(g, q, side, fuel).Some? ==> SrcIsAttacked(g, q, side, fuel).value == IsAttacked(g, q, side)
    decreases fuel, 1, 65
  {
    SrcScanAgrees(g, q, side, 0, fuel);
    ScanCoversBoard(g, q, side);
  }

  lemma {:induction false} SrcScanAgrees(g: Game, q: Pos, side: Color, i: nat, fuel: nat)
    requires i <= 64 && InBounds(q)
    requires !IsEmpty(g.board, q) || q.r != HomeRow(side)
    ensures SrcScan(g, q, side, i, fuel).Some? ==> SrcScan(g, q, side, i, fuel).value == AttackedFrom(g, q, side, i)
    decreases fuel, 1, 64 - i
  {
    if i < 64 {
      SquareAtInBounds(i);
      var p := SquareAt(i);
      SrcScanAgrees(g, q, side, i + 1, fuel);
      if IsOwn(g.board, p, side) {
        SrcMovesAgrees(g, p, fuel);
        LayersAgree(g, p, q);
      }
    }
  }

  // ---------------------------------------------------------------------
  // Divergence: two kings, all four rights, nothing else on the board.

  const WhiteKingHome := Pos(7, 4)
  const BlackKingHome := Pos(0, 4)

  function KingsOnlyBoard(): (b: Board)
    ensures Get(b, WhiteKingHome) == Occupied(Piece(White, King))
    ensures Get(b, BlackKingHome) == Occupied(Piece(Black, King))
    ensures forall p | InBounds(p) && p != WhiteKingHome && p != BlackKingHome :: IsEmpty(b, p)
  {
    seq(8, r => seq(8, c =>
      if Pos(r, c) == WhiteKingHome then Occupied(Piece(White, King))
      else if Pos(r, c) == BlackKingHome then Occupied(Piece(Black, King))
      else Empty))
  }

  function KingsOnly(): Game {
    Game(KingsOnlyBoard(), White, Rights(true, true, true, true), None, 0, 1)
  }

  /** Squares `i` up to `j` hold no piece of `side`, so the scan passes over them. */
  lemma {:induction false} ScanSkips(g: Game, q: Pos, side: Color, i: nat, j: nat, fuel: nat)
    requires i <= j <= 64
    requires forall k | i <= k < j :: InBounds(SquareAt(k)) && !IsOwn(g.board, SquareAt(k), side)
    ensures SrcScan(g, q, side, i, fuel) == SrcScan(g, q, side, j, fuel)
    decreases j - i
  {
    if i < j {
      ScanSkips(g, q, side, i + 1, j, fuel);
    }
  }

  lemma KingsOnlyPieces()
    ensures forall k | 0 <= k < 64 :: InBounds(SquareAt(k))
    ensures forall k | 0 <= k < 4 :: !IsOwn(KingsOnlyBoard(), SquareAt(k), Black)
    ensures forall k | 0 <= k < 60 :: !IsOwn(KingsOnlyBoard(), SquareAt(k), White)
    ensures SquareAt(4) == BlackKingHome && SquareAt(60) == WhiteKingHome
  {
    forall k | 0 <= k < 64
      ensures InBounds(SquareAt(k))
    {
      SquareAtInBounds(k);
    }
  }

  /** A stalled recursion below the first enemy attacker stalls the attack test. */
  lemma AttackTestStalls(q: Pos, side: Color, fuel: nat)
    requires side == Black ==> SrcMoves(KingsOnly(), BlackKingHome, fuel) == None
    requires side == White ==> SrcMoves(KingsOnly(), WhiteKingHome, fuel) == None
    ensures SrcIsAttacked(KingsOnly(), q, side, fuel) == None
  {
    var g := KingsOnly();
    KingsOnlyPieces();
    if side == Black {
      ScanSkips(g, q, Black, 0, 4, fuel);
    } else {
      ScanSkips(g, q, White, 0, 60, fuel);
    }
  }

  /** A king of the two-kings board stalls as soon as its first castling test does. */
  lemma KingStalls(c: Color, fuel: nat)
    requires SrcIsAttacked(KingsOnly(), Pos(HomeRow(c), 4), Opposite(c), fuel) == None
    ensures c == White ==> SrcMoves(KingsOnly(), WhiteKingHome, fuel + 1) == None
    ensures c == Black ==> SrcMoves(KingsOnly(), BlackKingHome, fuel + 1) == None
  {
    var g := KingsOnly();
    var row := HomeRow(c);
    assert AllEmpty(g.board, Between(row, 6));
    assert SrcNoneAttacked(g, Passage(row, 6), Opposite(c), fuel) == None;
    assert SrcCastle(g, c, 6, fuel) == None;
  }

  /**
   On the two-kings board, generating either king's moves runs out of any
   recursion depth, so CPython ends it with a `RecursionError`: White's castling asks whether Black
   attacks e1, which generates the Black king's moves, whose castling asks
   whether White attacks e8, which generates the White king's moves again.
   */
  lemma {:induction false} KingsOnlyDiverges(fuel: nat)
    ensures SrcMoves(KingsOnly(), WhiteKingHome, fuel) == None
    ensures SrcMoves(KingsOnly(), BlackKingHome, fuel) == None
    decreases fuel
  {
    if fuel > 0 {
      var f := fuel - 1;
      KingsOnlyDiverges(f);
      AttackTestStalls(Pos(7, 4), Black, f);
      KingStalls(White, f);
      AttackTestStalls(Pos(0, 4), White, f);
      KingStalls(Black, f);
    }
  }
}
