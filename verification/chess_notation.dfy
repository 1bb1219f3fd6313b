/**
 The four-character move notation of chess_game.py: `parse_move` reads it
 (file letter a-h in either case, rank digit 1-8, row = 8 - rank) and the
 computer's move is printed in it.
 */
module Notation {
  import opened Options
  import opened ChessBoard

  /** `str.lower()` on the ASCII letters; every other character is kept. */
  function LowerAscii(ch: char): char {
    if 'A' <= ch <= 'Z' then (ch as int + 32) as char else ch
  }

  predicate IsFile(ch: char) {
    'a' <= ch <= 'h' || 'A' <= ch <= 'H'
  }

  predicate IsRank(ch: char) {
    '1' <= ch <= '8'
  }

  /** `int()` of a single character: the value of a decimal digit, or failure. */
  function DigitValue(ch: char): Option<int> {
    if '0' <= ch <= '9' then Some(ch as int - '0' as int) else None
  }

  /** `ord(ch.lower()) - ord('a')`. */
  function FileIndex(ch: char): int {
    LowerAscii(ch) as int - 'a' as int
  }

  /** The notation of the move, as printed for the computer's move. */
  function FormatMove(m: Move): (s: string)
    requires InBounds(m.from) && InBounds(m.to)
    ensures |s| == 4 && 'a' <= s[0] <= 'h' && 'a' <= s[2] <= 'h' && IsRank(s[1]) && IsRank(s[3])
  {
    [(m.from.c + 'a' as int) as char, (8 - m.from.r + '0' as int) as char,
     (m.to.c + 'a' as int) as char, (8 - m.to.r + '0' as int) as char]
  }

  /**
   `parse_move`: a move exactly when the text has four characters, files
   a-h in either case and ranks 1-8; the move read is the one whose notation
   is the text with its file letters in lower case.
   */
  function ParseMove(s: string): (r: Option<Move>)
    ensures r.Some? <==> |s| == 4 && IsFile(s[0]) && IsRank(s[1]) && IsFile(s[2]) && IsRank(s[3])
    ensures r.Some? ==> InBounds(r.value.from) && InBounds(r.value.to)
    ensures r.Some? ==> FormatMove(r.value) == [LowerAscii(s[0]), s[1], LowerAscii(s[2]), s[3]]
  {
    if |s| != 4 then None
    else
      match (DigitValue(s[1]), DigitValue(s[3]))
      case (Some(d1), Some(d3)) =>
        var startCol := FileIndex(s[0]);
        var startRow := 8 - d1;
        var endCol := FileIndex(s[2]);
        var endRow := 8 - d3;
        if 0 <= startCol < 8 && 0 <= startRow < 8 && 0 <= endCol < 8 && 0 <= endRow < 8 then
          Some(Move(Pos(startRow, startCol), Pos(endRow, endCol)))
        else None
      case _ => None
  }

  /** Parsing inverts formatting for every move on the board. */
  lemma ParseFormatted(m: Move)
    requires InBounds(m.from) && InBounds(m.to)
    ensures ParseMove(FormatMove(m)) == Some(m)
  {
    var s := FormatMove(m);
    assert LowerAscii(s[0]) == s[0] && LowerAscii(s[2]) == s[2];
  }
}
