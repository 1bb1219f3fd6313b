/**
 The per-piece destinations of `get_moves` in chess_game.py without the
 castling additions: this is the layer the attack test is built on. The
 module also states the movement rules declaratively (`MoveRule`) and proves
 that the generated lists hold exactly the squares the rules allow.
 */
module PieceMoves {
  import opened Options
  import opened ChessBoard

  datatype Dir = Dir(dr: int, dc: int)

  function Step(p: Pos, d: Dir): Pos {
    Pos(p.r + d.dr, p.c + d.dc)
  }

  /** One of the eight unit directions of a sliding piece. */
  predicate IsUnit(d: Dir) {
    -1 <= d.dr <= 1 && -1 <= d.dc <= 1 && d != Dir(0, 0)
  }

  predicate Orthogonal(d: Dir) {
    IsUnit(d) && (d.dr == 0 || d.dc == 0)
  }

  predicate Diagonal(d: Dir) {
    IsUnit(d) && d.dr != 0 && d.dc != 0
  }

  /** `k * x` for a unit component `x`, written without multiplication. */
  function Scale(k: int, x: int): int {
    if x > 0 then k else if x < 0 then -k else 0
  }

  /** The square `k` steps from `p` along the unit direction `d`. */
  function Offset(p: Pos, d: Dir, k: int): Pos {
    Pos(p.r + Scale(k, d.dr), p.c + Scale(k, d.dc))
  }

  const RookDirs: seq<Dir> := [Dir(-1, 0), Dir(1, 0), Dir(0, -1), Dir(0, 1)]
  const BishopDirs: seq<Dir> := [Dir(-1, -1), Dir(-1, 1), Dir(1, -1), Dir(1, 1)]
  const QueenDirs: seq<Dir> := RookDirs + BishopDirs
  const KnightJumps: seq<Dir> :=
    [Dir(-2, -1), Dir(-2, 1), Dir(-1, -2), Dir(-1, 2), Dir(1, -2), Dir(1, 2), Dir(2, -1), Dir(2, 1)]
  const KingSteps: seq<Dir> :=
    [Dir(-1, 0), Dir(1, 0), Dir(0, -1), Dir(0, 1), Dir(-1, -1), Dir(-1, 1), Dir(1, -1), Dir(1, 1)]

  predicate AllUnit(dirs: seq<Dir>) {
    forall i | 0 <= i < |dirs| :: IsUnit(dirs[i])
  }

  /** Distance to the board edge along one axis; it shrinks with every step. */
  function Span(x: int, dx: int): int {
    if dx > 0 then 8 - x else if dx < 0 then x + 1 else 0
  }

  /**
   The walk of a sliding piece from `sq` onward: empty squares are taken and
   the walk goes on, an enemy square is taken and ends it, an own piece or the
   edge ends it.
   */
  function Ray(b: Board, color: Color, sq: Pos, d: Dir): (r: seq<Pos>)
    requires IsUnit(d)
    ensures forall q | q in r :: InBounds(q) && !IsOwn(b, q, color)
    decreases Span(sq.r, d.dr) + Span(sq.c, d.dc)
  {
    if !InBounds(sq) then []
    else if IsEmpty(b, sq) then [sq] + Ray(b, color, Step(sq, d), d)
    else if IsEnemy(b, sq, color) then [sq]
    else []
  }

  function Slides(b: Board, color: Color, p: Pos, dirs: seq<Dir>): (r: seq<Pos>)
    requires AllUnit(dirs)
    ensures forall q | q in r :: InBounds(q) && !IsOwn(b, q, color)
  {
    if dirs == [] then []
    else Ray(b, color, Step(p, dirs[0]), dirs[0]) + Slides(b, color, p, dirs[1..])
  }

  /** Single jumps (knight) or single steps (king) onto squares not held by `color`. */
  function Leaps(b: Board, color: Color, p: Pos, offsets: seq<Dir>): (r: seq<Pos>)
    ensures forall q | q in r :: InBounds(q) && !IsOwn(b, q, color)
  {
    if offsets == [] then []
    else
      var q := Step(p, offsets[0]);
      (if InBounds(q) && !IsOwn(b, q, color) then [q] else []) + Leaps(b, color, p, offsets[1..])
  }

  function Forward(c: Color): int {
    if c == White then -1 else 1
  }

  function PawnStartRow(c: Color): int {
    if c == White then 6 else 1
  }

  function PawnCapture(g: Game, color: Color, q: Pos): seq<Pos> {
    if InBounds(q) && (IsEnemy(g.board, q, color) || Some(q) == g.enPassant) then [q] else []
  }

  function PawnMoves(g: Game, p: Pos, color: Color): (r: seq<Pos>)
    ensures forall q | q in r :: InBounds(q)
    ensures forall q | q in r && q.c == p.c :: IsEmpty(g.board, q)
    ensures forall q | q in r && Some(q) != g.enPassant :: !IsOwn(g.board, q, color)
  {
    var dir := Forward(color);
    var one := Pos(p.r + dir, p.c);
    var two := Pos(p.r + 2 * dir, p.c);
    var pushes :=
      if InBounds(one) && IsEmpty(g.board, one) then
        [one] + (if p.r == PawnStartRow(color) && InBounds(two) && IsEmpty(g.board, two) then [two] else [])
      else [];
    pushes + PawnCapture(g, color, Pos(p.r + dir, p.c - 1)) + PawnCapture(g, color, Pos(p.r + dir, p.c + 1))
  }

  /**
   `get_moves` without castling: every destination is on the board, and none
   holds a piece of the mover's colour unless it is the en-passant square.
   */
  function AttackMoves(g: Game, p: Pos): (r: seq<Pos>)
    requires InBounds(p)
    ensures Get(g.board, p) == Empty ==> r == []
    ensures forall q | q in r :: InBounds(q)
    ensures forall q | q in r && Some(q) != g.enPassant :: !IsOwn(g.board, q, Side(Get(g.board, p)))
  {
    match Get(g.board, p)
    case Empty => []
    case Occupied(Piece(color, kind)) =>
      match kind
      case Pawn => PawnMoves(g, p, color)
      case Rook => Slides(g.board, color, p, RookDirs)
      case Bishop => Slides(g.board, color, p, BishopDirs)
      case Queen => Slides(g.board, color, p, QueenDirs)
      case Knight => Leaps(g.board, color, p, KnightJumps)
      case King => Leaps(g.board, color, p, KingSteps)
  }

  // ---------------------------------------------------------------------
  // The movement rules stated declaratively, and their agreement with the lists.

  function Abs(x: int): nat {
    if x < 0 then -x else x
  }

  /** Every square strictly between `from` (exclusive, index `i`) and index `k` is empty. */
  ghost predicate ClearFrom(b: Board, p: Pos, d: Dir, i: int, k: int) {
    forall j :: i <= j < k ==> InBounds(Offset(p, d, j)) && IsEmpty(b, Offset(p, d, j))
  }

  /** `q` lies `k >= 1` steps along `d` with nothing in between and is not an own piece. */
  ghost predicate SlideRule(b: Board, color: Color, p: Pos, d: Dir, q: Pos) {
    exists k :: 1 <= k && q == Offset(p, d, k) && InBounds(q) && !IsOwn(b, q, color) && ClearFrom(b, p, d, 1, k)
  }

  ghost predicate PawnRule(g: Game, p: Pos, color: Color, q: Pos) {
    var dir := Forward(color);
    InBounds(q) &&
    ( (q == Pos(p.r + dir, p.c) && IsEmpty(g.board, q))
      || (q == Pos(p.r + 2 * dir, p.c) && p.r == PawnStartRow(color)
          && InBounds(Pos(p.r + dir, p.c)) && IsEmpty(g.board, Pos(p.r + dir, p.c)) && IsEmpty(g.board, q))
      || (q.r == p.r + dir && Abs(q.c - p.c) == 1 && (IsEnemy(g.board, q, color) || g.enPassant == Some(q))))
  }

  ghost predicate KnightRule(b: Board, color: Color, p: Pos, q: Pos) {
    InBounds(q) && !IsOwn(b, q, color) &&
    ((Abs(q.r - p.r) == 1 && Abs(q.c - p.c) == 2) || (Abs(q.r - p.r) == 2 && Abs(q.c - p.c) == 1))
  }

  ghost predicate KingStepRule(b: Board, color: Color, p: Pos, q: Pos) {
    InBounds(q) && !IsOwn(b, q, color) && Abs(q.r - p.r) <= 1 && Abs(q.c - p.c) <= 1 && q != p
  }

  /** Where the piece on `p` may go by its movement rule, castling aside. */
  ghost predicate MoveRule(g: Game, p: Pos, q: Pos)
    requires InBounds(p)
  {
    match Get(g.board, p)
    case Empty => false
    case Occupied(Piece(color, kind)) =>
      match kind
      case Pawn => PawnRule(g, p, color, q)
      case Rook => exists d :: Orthogonal(d) && SlideRule(g.board, color, p, d, q)
      case Bishop => exists d :: Diagonal(d) && SlideRule(g.board, color, p, d, q)
      case Queen => exists d :: IsUnit(d) && SlideRule(g.board, color, p, d, q)
      case Knight => KnightRule(g.board, color, p, q)
      case King => KingStepRule(g.board, color, p, q)
  }

  /** `q` is `k >= i` steps along `d` from `p`, not an own piece, with the squares from index `i` up to it empty. */
  ghost predicate ReachedAt(b: Board, color: Color, p: Pos, d: Dir, i: int, k: int, q: Pos) {
    i <= k && q == Offset(p, d, k) && InBounds(q) && !IsOwn(b, q, color) && ClearFrom(b, p, d, i, k)
  }

  lemma {:induction false} RaySound(b: Board, color: Color, p: Pos, d: Dir, i: int, q: Pos) returns (k: int)
    requires IsUnit(d) && q in Ray(b, color, Offset(p, d, i), d)
    ensures ReachedAt(b, color, p, d, i, k, q)
    decreases Span(Offset(p, d, i).r, d.dr) + Span(Offset(p, d, i).c, d.dc)
  {
    var sq := Offset(p, d, i);
    if q == sq {
      k := i;
    } else {
      assert InBounds(sq) && IsEmpty(b, sq);
      var next := Step(sq, d);
      assert Ray(b, color, sq, d) == [sq] + Ray(b, color, next, d);
      assert next == Offset(p, d, i + 1);
      k := RaySound(b, color, p, d, i + 1, q);
      forall j | i <= j < k
        ensures InBounds(Offset(p, d, j)) && IsEmpty(b, Offset(p, d, j))
      {
        if j > i {
          assert i + 1 <= j < k;
        }
      }
    }
  }

  lemma {:induction false} RayComplete(b: Board, color: Color, p: Pos, d: Dir, i: int, k: int, q: Pos)
    requires IsUnit(d) && ReachedAt(b, color, p, d, i, k, q)
    ensures q in Ray(b, color, Offset(p, d, i), d)
    decreases k - i
  {
    var sq := Offset(p, d, i);
    if k > i {
      assert InBounds(sq) && IsEmpty(b, sq);
      assert Step(sq, d) == Offset(p, d, i + 1);
      assert ReachedAt(b, color, p, d, i + 1, k, q);
      RayComplete(b, color, p, d, i + 1, k, q);
    }
  }

  lemma RayReaches(b: Board, color: Color, p: Pos, d: Dir, i: int, q: Pos)
    requires IsUnit(d)
    ensures q in Ray(b, color, Offset(p, d, i), d) <==>
      exists k :: i <= k && q == Offset(p, d, k) && InBounds(q) && !IsOwn(b, q, color) && ClearFrom(b, p, d, i, k)
  {
    if q in Ray(b, color, Offset(p, d, i), d) {
      var k := RaySound(b, color, p, d, i, q);
      assert ReachedAt(b, color, p, d, i, k, q);
    }
    if exists k :: i <= k && q == Offset(p, d, k) && InBounds(q) && !IsOwn(b, q, color) && ClearFrom(b, p, d, i, k) {
      var k :| i <= k && q == Offset(p, d, k) && InBounds(q) && !IsOwn(b, q, color) && ClearFrom(b, p, d, i, k);
      RayComplete(b, color, p, d, i, k, q);
    }
  }

  lemma RayIsSlide(b: Board, color: Color, p: Pos, d: Dir, q: Pos)
    requires IsUnit(d)
    ensures q in Ray(b, color, Step(p, d), d) <==> SlideRule(b, color, p, d, q)
  {
    assert Step(p, d) == Offset(p, d, 1);
    RayReaches(b, color, p, d, 1, q);
  }

  lemma {:induction false} SlidesMember(b: Board, color: Color, p: Pos, dirs: seq<Dir>, q: Pos)
    requires AllUnit(dirs)
    ensures q in Slides(b, color, p, dirs) <==> exists i :: 0 <= i < |dirs| && SlideRule(b, color, p, dirs[i], q)
  {
    if dirs != [] {
      RayIsSlide(b, color, p, dirs[0], q);
      SlidesMember(b, color, p, dirs[1..], q);
      if exists i :: 0 <= i < |dirs| && SlideRule(b, color, p, dirs[i], q) {
        var i :| 0 <= i < |dirs| && SlideRule(b, color, p, dirs[i], q);
        if i > 0 {
          assert dirs[1..][i - 1] == dirs[i];
        }
      }
      if q in Slides(b, color, p, dirs[1..]) {
        var i :| 0 <= i < |dirs[1..]| && SlideRule(b, color, p, dirs[1..][i], q);
        assert dirs[i + 1] == dirs[1..][i];
      }
    }
  }

  lemma {:induction false} LeapsMember(b: Board, color: Color, p: Pos, offsets: seq<Dir>, q: Pos)
    ensures q in Leaps(b, color, p, offsets) <==>
      InBounds(q) && !IsOwn(b, q, color) && exists i :: 0 <= i < |offsets| && Step(p, offsets[i]) == q
  {
    if offsets != [] {
      LeapsMember(b, color, p, offsets[1..], q);
      if InBounds(q) && !IsOwn(b, q, color) && exists i :: 0 <= i < |offsets| && Step(p, offsets[i]) == q {
        var i :| 0 <= i < |offsets| && Step(p, offsets[i]) == q;
        if i > 0 {
          assert offsets[1..][i - 1] == offsets[i];
        }
      }
      if q in Leaps(b, color, p, offsets[1..]) {
        var i :| 0 <= i < |offsets[1..]| && Step(p, offsets[1..][i]) == q;
        assert offsets[i + 1] == offsets[1..][i];
      }
    }
  }

  lemma RookDirections(b: Board, color: Color, p: Pos, q: Pos)
    ensures (exists i :: 0 <= i < |RookDirs| && SlideRule(b, color, p, RookDirs[i], q)) <==>
            (exists d :: Orthogonal(d) && SlideRule(b, color, p, d, q))
  {
    if exists d :: Orthogonal(d) && SlideRule(b, color, p, d, q) {
      var d :| Orthogonal(d) && SlideRule(b, color, p, d, q);
      assert d == RookDirs[0] || d == RookDirs[1] || d == RookDirs[2] || d == RookDirs[3];
    }
  }

  lemma BishopDirections(b: Board, color: Color, p: Pos, q: Pos)
    ensures (exists i :: 0 <= i < |BishopDirs| && SlideRule(b, color, p, BishopDirs[i], q)) <==>
            (exists d :: Diagonal(d) && SlideRule(b, color, p, d, q))
  {
    if exists d :: Diagonal(d) && SlideRule(b, color, p, d, q) {
      var d :| Diagonal(d) && SlideRule(b, color, p, d, q);
      assert d == BishopDirs[0] || d == BishopDirs[1] || d == BishopDirs[2] || d == BishopDirs[3];
    }
  }

  lemma QueenDirections(b: Board, color: Color, p: Pos, q: Pos)
    ensures (exists i :: 0 <= i < |QueenDirs| && SlideRule(b, color, p, QueenDirs[i], q)) <==>
            (exists d :: IsUnit(d) && SlideRule(b, color, p, d, q))
  {
    if exists d :: IsUnit(d) && SlideRule(b, color, p, d, q) {
      var d :| IsUnit(d) && SlideRule(b, color, p, d, q);
      assert d in QueenDirs;
      var i :| 0 <= i < |QueenDirs| && QueenDirs[i] == d;
    }
  }

  lemma KnightShape(b: Board, color: Color, p: Pos, q: Pos)
    ensures q in Leaps(b, color, p, KnightJumps) <==> KnightRule(b, color, p, q)
  {
    LeapsMember(b, color, p, KnightJumps, q);
    if KnightRule(b, color, p, q) {
      var d := Dir(q.r - p.r, q.c - p.c);
      assert d in KnightJumps;
      var i :| 0 <= i < |KnightJumps| && KnightJumps[i] == d;
      assert Step(p, KnightJumps[i]) == q;
    }
  }

  /** Where a unit direction sits in the king's step list. */
  lemma KingStepIndex(d: Dir) returns (i: nat)
    requires IsUnit(d)
    ensures i < |KingSteps| && KingSteps[i] == d
  {
    if d.dr == -1 {
      i := if d.dc == -1 then 4 else if d.dc == 0 then 0 else 5;
    } else if d.dr == 0 {
      i := if d.dc == -1 then 2 else 3;
    } else {
      i := if d.dc == -1 then 6 else if d.dc == 0 then 1 else 7;
    }
  }

  lemma KingShape(b: Board, color: Color, p: Pos, q: Pos)
    ensures q in Leaps(b, color, p, KingSteps) <==> KingStepRule(b, color, p, q)
  {
    LeapsMember(b, color, p, KingSteps, q);
    if q in Leaps(b, color, p, KingSteps) {
      var i :| 0 <= i < |KingSteps| && Step(p, KingSteps[i]) == q;
      assert IsUnit(KingSteps[i]);
    }
    if KingStepRule(b, color, p, q) {
      var i := KingStepIndex(Dir(q.r - p.r, q.c - p.c));
      assert Step(p, KingSteps[i]) == q;
    }
  }

  lemma PawnShape(g: Game, p: Pos, color: Color, q: Pos)
    requires InBounds(p)
    ensures q in PawnMoves(g, p, color) <==> PawnRule(g, p, color, q)
  {
  }

  /**
   The generated list is exactly the set of squares the movement rule of the
   piece on `p` allows: generation is sound and complete.
   */
  lemma AttackMovesMatchRules(g: Game, p: Pos, q: Pos)
    requires InBounds(p)
    ensures q in AttackMoves(g, p) <==> MoveRule(g, p, q)
  {
    match Get(g.board, p)
    case Empty =>
    case Occupied(Piece(color, kind)) =>
      match kind
      case Pawn => PawnShape(g, p, color, q);
      case Rook =>
        SlidesMember(g.board, color, p, RookDirs, q);
        RookDirections(g.board, color, p, q);
      case Bishop =>
        SlidesMember(g.board, color, p, BishopDirs, q);
        BishopDirections(g.board, color, p, q);
      case Queen =>
        SlidesMember(g.board, color, p, QueenDirs, q);
        QueenDirections(g.board, color, p, q);
      case Knight => KnightShape(g.board, color, p, q);
      case King => KingShape(g.board, color, p, q);
  }

  /** Pawn pushes only ever land on empty squares. */
  lemma PawnPushesLandOnEmpty(g: Game, p: Pos, q: Pos)
    requires InBounds(p) && HasKind(Get(g.board, p), Pawn)
    requires q in AttackMoves(g, p) && q.c == p.c
    ensures IsEmpty(g.board, q)
  {
  }
}
