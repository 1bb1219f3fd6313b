# Chess rules engine, to-do list and study alarm — a Dafny model

This project models three small Python programs as pure Dafny functions and proves
properties of them.

**The chess rules engine (`chess_game.py`)** is the main part. A `ChessBoard` holds:
- an 8×8 grid of piece letters;
- the side to move;
- four castling flags;
- an en-passant square;
- the halfmove and fullmove counters.

The model covers:
- the initial position (`ChessBoard`);
- per-piece move generation (`PieceMoves`, `MoveGen`);
- attack detection (`Attacks`);
- move application (`Execute`);
- check, checkmate and stalemate, and the legal-move filter the computer player uses (`Status`);
- the four-character move notation (`Notation`).

Each position is an immutable `Game` value, and `MakeMove` returns the next one.

The source generates castling moves by calling `is_attacked`, which calls `get_moves` on every enemy piece, including the enemy king. That recursion has no bound. The model therefore splits move generation into two layers:
- `AttackMoves` has no castling and is what `IsAttacked` uses;
- `Moves` adds the castling squares.

The source's own unbounded recursion is modelled separately, with fuel, in `SourceRecursion`. That module proves two things:
- the split model agrees with the source whenever the source returns;
- there is a position where no recursion depth suffices for the source; CPython stops there with an uncaught `RecursionError`, so the game crashes (see Findings).

**The to-do list (`to_do_list.py`)** covers:
- adding a task, and removing one with `list.pop(index - 1)`;
- the tasks file, modelled as a string: `Save` writes one task per line, and `Load` strips every line and drops blank ones;
- the menu's input guard.

The state is an `App` pair of the list in memory and the file contents. The proved invariant is that the list is what the file loads as, as long as no entry typed holds a carriage return. `PyText` models the Python text behaviour this depends on:
- `str.strip()` with Python's whitespace set;
- iterating a text file line by line;
- newline translation on reading.

**The study alarm (`study_alarm.py`)** covers:
- conversion between `H:M` text and seconds since midnight (`ClockText`);
- the schedule kept sorted by Python's ordering of string tuples (`Schedule`);
- one pass of the `run_alarm` loop, as a pure function of the schedule and the current time (`AlarmScan`).

## Model

| member | source | states |
|---|---|---|
| ChessBoard.Set | chess_game.py:31-33 | writing a square changes that square and no other |
| ChessBoard.InBounds | chess_game.py:46-48 | definition, no contract: row and column both in 0..7 |
| ChessBoard.Get | chess_game.py:27-29 | definition, no contract: the cell at row `r`, column `c` |
| ChessBoard.IsEmpty | chess_game.py:35-36 | definition, no contract: the cell is the empty string |
| ChessBoard.IsEnemy | chess_game.py:38-40 | definition, no contract: a piece whose colour differs from the given one |
| ChessBoard.IsOwn | chess_game.py:42-44 | definition, no contract: a piece of the given colour |
| ChessBoard.InitialBoardSymmetric | chess_game.py:12-18 | rows 0-1 and 6-7 are full and rows 2-5 empty; square (7-r, c) holds the piece on (r, c) in the other colour |
| ChessBoard.InitialWhiteRanks | chess_game.py:15-17 | row 6 is White pawns; row 7 is White rook, knight, bishop on columns 0-2, mirrored on 7-5, with the queen on column 3 and the king on column 4 |
| ChessBoard.Init | chess_game.py:4-18 | White to move, no en-passant square, all four castling rights, counters 0 and 1, kings on e1 and e8, rows 2 to 5 empty, Black on rows 0-1 and White on rows 6-7 |
| PieceMoves.Ray | chess_game.py:77-88 | every square a sliding walk yields is on the board and not occupied by the mover's colour |
| PieceMoves.Slides | chess_game.py:71-88 | the rook, bishop and queen destinations are on the board and never an own piece |
| PieceMoves.Leaps | chess_game.py:89-98 | knight jumps and king steps land on the board and never on an own piece |
| PieceMoves.PawnMoves | chess_game.py:58-70 | pawn destinations are on the board; a destination in the pawn's own column is empty; only the en-passant square can be an own piece |
| PieceMoves.AttackMoves | chess_game.py:50-98 | an empty square has no moves; every destination is on the board and is never an own piece unless it is the en-passant square |
| PieceMoves.RayReaches | chess_game.py:77-88 | the walk from step `i` reaches exactly the squares further along the direction whose path is clear and that are not own pieces |
| PieceMoves.RaySound | chess_game.py:77-88 | a square the walk yields lies some number of steps along the direction, is not an own piece, and every square before it from the walk's start is empty |
| PieceMoves.RayComplete | chess_game.py:77-88 | a square along the direction that is not an own piece and has only empty squares before it is yielded by the walk |
| PieceMoves.RayIsSlide | chess_game.py:77-88 | a ray's squares are exactly the squares the sliding rule allows in that direction |
| PieceMoves.SlidesMember | chess_game.py:77-88 | a square is in the slides of a direction list iff some direction of the list allows it |
| PieceMoves.LeapsMember | chess_game.py:89-98 | a square is a leap iff it is on the board, not an own piece, and one of the offsets away |
| PieceMoves.RookDirections | chess_game.py:72-77 | the rook's four listed directions reach exactly what any orthogonal slide reaches |
| PieceMoves.BishopDirections | chess_game.py:72-77 | the bishop's four listed directions reach exactly what any diagonal slide reaches |
| PieceMoves.QueenDirections | chess_game.py:72-77 | the queen's eight listed directions reach exactly what any slide reaches |
| PieceMoves.KnightShape | chess_game.py:89-93 | knight destinations are exactly the on-board, non-own squares a (1,2) or (2,1) jump away |
| PieceMoves.KingShape | chess_game.py:94-98 | king steps are exactly the on-board, non-own squares at distance one in both axes |
| PieceMoves.PawnShape | chess_game.py:58-70 | pawn destinations are exactly the single push to an empty square, the double push from the start row over two empty squares, and the diagonal onto an enemy or the en-passant square |
| PieceMoves.AttackMovesMatchRules | chess_game.py:50-98 | generated non-castling moves are exactly the squares each piece's movement rule allows (sound and complete) |
| PieceMoves.PawnPushesLandOnEmpty | chess_game.py:61-65 | a pawn destination in its own column is always empty, so pushes only ever "attack" empty squares |
| Attacks.AttackedFrom | chess_game.py:111-117 | the board scan from square index `i` answers true iff some later square holds a piece of the side whose moves contain the target |
| Attacks.ScanCoversBoard | chess_game.py:111-112 | the 64 scanned indices are exactly the squares of the board |
| Attacks.IsAttacked | chess_game.py:110-117 | a square is attacked by a side iff some piece of that side has it among its moves |
| MoveGen.CastleMoves | chess_game.py:99-107 | castling destinations are empty squares on the mover's home row, column 6 iff the king-side conditions hold and column 2 iff the queen-side conditions hold, nothing else |
| MoveGen.Moves | chess_game.py:50-108 | the full move list is the non-castling moves plus, for a king, the castling squares; all on the board and never an own piece unless the en-passant square |
| MoveGen.CastleOnlyDestinations | chess_game.py:99-107 | a move the full list adds over the attack list is a king's move to an empty square in column 6 or 2 of its home row |
| MoveGen.LayersAgree | chess_game.py:99-117 | for a square that is occupied, or not on the mover's home row, the full and the attack move lists agree, so `is_attacked` on a king square is unaffected by castling |
| Execute.MakeMove | chess_game.py:119-170 | the start is emptied; the end gets the mover, or a queen when it promotes; only the en-passant victim and the castling rook squares may change besides; rook relocation on a two-column king move; each castling flag's exact new value; no en-passant square afterwards; the turn flips; halfmove resets iff a pawn moved or something was captured and otherwise grows by one; fullmove grows iff the mover is black |
| Execute.PromotionRowIsHomeRow | chess_game.py:132-134 | a pawn becomes a queen iff it ends on its own side's back row, the opposite of the direction it walks |
| Execute.PawnsNeverPromote | chess_game.py:58-70 | no pawn move the generator offers ends on the row where `make_move` would promote it |
| Notation.FormatMove | chess_game.py:257 | the notation is four characters: file a-h, rank 1-8, file a-h, rank 1-8 |
| Notation.ParseMove | chess_game.py:215-227 | a move is returned iff the text has length 4 with files a-h in either case and ranks 1-8; both squares are on the board; formatting the result gives back the text with its files lower-cased |
| Notation.ParseFormatted | chess_game.py:215-227 | parsing the notation of any on-board move gives that move back |
| Status.KingInRow | chess_game.py:176-179 | the inner loop finds the first column in the row holding the king, or reports none |
| Status.KingScan | chess_game.py:175-179 | the scan keeps the king found in the last row that has one (the `break` leaves only the inner loop), first column in that row |
| Status.FindKing | chess_game.py:173-180 | no king is found iff the colour has no king on the board; otherwise a king square with no king in any later row or earlier in its row |
| Status.IsCheck | chess_game.py:172-183 | no king means not in check; in check means some king of that colour is attacked by the other side |
| Status.SingleKingCheck | chess_game.py:172-183 | with exactly one king of the colour, in check iff that king's square is attacked |
| Status.SafeMoves | chess_game.py:249-253 | the moves kept from one square are exactly the moves from it to the destinations that pass the test |
| Status.LegalAt | chess_game.py:246-253 | the moves kept for the square with index `i` are exactly the legal moves starting on it: an own piece, one of its destinations, the mover's king not attacked after the move on a copy |
| Status.LegalFrom | chess_game.py:244-253 | the filter from square index `i` on keeps exactly the legal moves starting at or after `i` |
| Status.LegalMoves | chess_game.py:243-253 | the list holds exactly the moves of an own piece to one of its destinations that do not leave the mover in check |
| Status.NoLegalMoveIsNoEscape | chess_game.py:188-198 | the legal list is empty iff every move of every own piece leaves the mover in check |
| Status.IsCheckmate | chess_game.py:185-198 | checkmate iff in check and no move escapes |
| Status.IsStalemate | chess_game.py:200-213 | stalemate iff not in check and no move escapes; never both stalemate and checkmate |
| Status.HumanTurn | chess_game.py:263-276 | bad notation iff unparsable; a move is accepted only from an own piece to one of its destinations (not filtered for self-check) and yields `make_move`'s state |
| Status.ComputerTurn | chess_game.py:241-261 | no move iff the legal list is empty; a move played is legal, leaves the mover out of check, flips the turn, and its printed notation parses back to it |
| Play.PlayKeepsEnPassantEmpty | chess_game.py:164 | after any non-empty sequence of moves the en-passant square is empty |
| Play.PlayOnlyDropsRights | chess_game.py:148-163 | over any sequence of moves no castling flag goes from false to true |
| Play.PlayAlternatesTurns | chess_game.py:170 | after an even number of moves the same side is to move, after an odd number the other |
| Play.PawnDiagonalsNeedEnemy | chess_game.py:67-70 | with no en-passant square a pawn's diagonal destination holds an enemy piece |
| Play.EnPassantIsDead | chess_game.py:128-131 | in every position reached from the start, no en-passant square exists, pawn diagonals need an enemy, and the en-passant capture branch is never taken |
| Play.RightsNeverRegained | chess_game.py:148-163 | castling flags lost in play are never restored by later moves |
| SourceRecursion.SrcMoves | chess_game.py:50-108 | definition, no contract: `get_moves` as written, castling tested through the source's own `is_attacked`, with a fuel bound on the recursion depth |
| SourceRecursion.SrcKing | chess_game.py:94-108 | definition, no contract: a king's list once both castling tests have returned |
| SourceRecursion.SrcCastle | chess_game.py:100-107 | definition, no contract: one castling condition, evaluated left to right with short-circuit `and` |
| SourceRecursion.SrcNoneAttacked | chess_game.py:100-106 | definition, no contract: the chained `not is_attacked(...)` tests, stopping at the first attacked square |
| SourceRecursion.SrcIsAttacked | chess_game.py:110-117 | definition, no contract: `is_attacked` as written |
| SourceRecursion.SrcScan | chess_game.py:111-117 | definition, no contract: the row-major scan, returning at the first piece of the side whose moves reach the square |
| SourceRecursion.SrcMovesAgrees | chess_game.py:50-108 | whenever the source's recursive generator returns, it returns the two-layer `Moves` list |
| SourceRecursion.SrcKingMovesAgree | chess_game.py:99-108 | whenever the source's generator returns for a king, it returns the attack moves plus the castling squares of `Moves` |
| SourceRecursion.SrcCastleListAgrees | chess_game.py:99-107 | whenever both castling tests of the source return, the squares they add are those of `CastleMoves` |
| SourceRecursion.SrcCastleAgrees | chess_game.py:99-107 | whenever the source's castling test returns, it equals the layered castling condition |
| SourceRecursion.SrcNoneAttackedAgrees | chess_game.py:100-106 | whenever the chained `not is_attacked` tests on the other side's back row return, they equal the layered answer |
| SourceRecursion.SrcIsAttackedAgrees | chess_game.py:110-117 | whenever the source's `is_attacked` returns on an occupied square or one off the attacking side's home row, it equals `IsAttacked` |
| SourceRecursion.SrcScanAgrees | chess_game.py:111-117 | the source's board scan from index `i`, when it returns, equals the layered scan |
| SourceRecursion.AttackTestStalls | chess_game.py:110-117 | in the kings-only position an attack query by a side runs out of fuel whenever that side's king's move generation does |
| SourceRecursion.KingStalls | chess_game.py:99-107 | a king whose first castling attack test runs out of fuel cannot finish its move generation with that fuel either |
| SourceRecursion.KingsOnlyDiverges | chess_game.py:99-117 | with only the two kings on their home squares and all rights, `get_moves` on either king runs out of fuel for every fuel; in CPython this is an uncaught `RecursionError` |
| PyText.SkipSpaces | to_do_list.py:4 | the first index at or after `i` that is not whitespace, or the length; everything skipped is whitespace |
| PyText.TrimEnd | to_do_list.py:4 | the last cut point down from `j` and not below `lo` with no whitespace before it; everything cut is whitespace |
| PyText.Strip | to_do_list.py:4 | the result neither starts nor ends with whitespace |
| PyText.StripSlice | to_do_list.py:4 | `strip()` is the contiguous slice between the leading and the trailing whitespace |
| PyText.StripIdempotent | to_do_list.py:48-49 | stripping twice is stripping once |
| PyText.StripNoLineBreak | to_do_list.py:48-49 | stripping a line without line breaks yields one without line breaks |
| PyText.StripReadLine | to_do_list.py:4 | a line as file iteration yields it strips to a text with no line break |
| PyText.StripLine | to_do_list.py:4 | a stripped line read back with its newline strips to itself |
| PyText.StripUnique | to_do_list.py:4 | a trimmed text surrounded only by whitespace strips to exactly that text |
| PyText.StripNewline | to_do_list.py:4 | a line's `\n` is stripped with the rest: the line strips as it would without it |
| PyText.Translate | to_do_list.py:3 | the text the program sees after text-mode reading holds no carriage return |
| PyText.TranslateUnits | to_do_list.py:3 | `\r\n` and a lone `\r` each read as `\n`; any other character reads as itself |
| PyText.TranslateAppend | to_do_list.py:3 | text reads piece by piece, except across the middle of a `\r\n`, so with `TranslateUnits` every line end becomes `\n` and every other character is kept in order |
| PyText.TranslateNoCarriageReturn | to_do_list.py:3 | text without carriage returns is read unchanged |
| PyText.LineEnd | to_do_list.py:4 | the end of the current line lies after its start, no newline occurs before its last character, and a line ending before the text does ends with a newline |
| PyText.Lines | to_do_list.py:4 | the lines join back to the text, none is empty, each has a newline only at its end, and none has a carriage return if the text has none |
| PyText.LinesOfLine | to_do_list.py:4 | a line without a newline, followed by a newline and more text, is read first, with its newline |
| TodoList.Save | to_do_list.py:8-11 | the file is empty iff there are no tasks, otherwise it ends with a newline; well-formed tasks give a file without carriage returns |
| TodoList.Kept | to_do_list.py:4 | at most one task per line, every task non-empty and stripped; the strip of every non-blank line is kept, and every task is the strip of some line |
| TodoList.KeptAppend | to_do_list.py:4 | lines are kept one at a time, in file order: the tasks of two stretches of lines follow each other |
| TodoList.KeptOneLine | to_do_list.py:1-6 | lines as text-mode file iteration yields them keep as tasks that are also on one line each |
| TodoList.Load | to_do_list.py:1-6 | a missing file loads as no tasks; whatever the file holds, every loaded task is non-empty, stripped and on one line |
| TodoList.LoadFirstLine | to_do_list.py:1-6 | any file's first line, ended by `\n`, `\r\n` or a lone `\r`, loads as its stripped text unless that is blank, followed by what the rest of the file loads as |
| TodoList.LoadLastLine | to_do_list.py:1-6 | a final line without a line end loads as its stripped text unless that is blank |
| TodoList.KeptSaved | to_do_list.py:1-11 | keeping the stripped lines of a saved file gives the saved tasks |
| TodoList.LoadSave | to_do_list.py:1-11 | loading what was saved gives back exactly the saved tasks, when every task is non-empty, stripped and on one line |
| TodoList.AddTask | to_do_list.py:13-14 | the list grows by one, earlier tasks unchanged, the new task last |
| TodoList.PopPosition | to_do_list.py:20 | `pop(k)` removes a position iff `-len <= k < len`, position `k` or `len + k` |
| TodoList.RemoveTask | to_do_list.py:18-24 | a task is removed iff `index - 1` lies in `[-len, len)`; the list shrinks by one, and putting the removed task back at its position gives the original list |
| TodoList.RemoveInRange | to_do_list.py:18-20 | a number from 1 to len removes exactly task number `index` and keeps the rest in order |
| TodoList.RemoveFromEnd | to_do_list.py:20 | a number from `1 - len` to 0 counts from the end; 0 removes the last task |
| TodoList.RemoveUndoesAdd | to_do_list.py:13-20 | removing the just-added task by its number or by 0 gives back the list before the add |
| TodoList.RemoveKeepsWellFormed | to_do_list.py:18-20 | removing keeps every remaining task non-empty, stripped and on one line |
| TodoList.Start | to_do_list.py:35 | at start-up the list in memory is what the file loads as |
| TodoList.AddCommand | to_do_list.py:46-51 | a blank entry changes nothing; otherwise the stripped entry is appended and the file rewritten with the new list; an entry without a carriage return keeps the list equal to what the file loads as |
| TodoList.CarriageReturnSplitsTask | to_do_list.py:46-49 | the entry `a\rb` is kept whole in the list, but the file written for it loads back (lines 3-4) as the two tasks `a` and `b` |
| TodoList.RemoveCommand | to_do_list.py:52-59 | an invalid number changes nothing; otherwise the task is removed and the file rewritten with the new list; a list that was what its file loads as stays so |
| ClockText.DigitChar | study_alarm.py:143 | the digit written for a value below ten reads back as that value |
| ClockText.FieldValue | study_alarm.py:137 | a one- or two-digit field is below 100, and below 10 with one digit |
| ClockText.ColonIndex | study_alarm.py:137 | the position of the first colon, or the length when there is none |
| ClockText.TimeToSeconds | study_alarm.py:136-138 | a valid time gives a whole number of minutes within one day, whose hours and minutes are the ones the text spells |
| ClockText.Decimal | study_alarm.py:143 | decimal digits only, a single one exactly for values below ten |
| ClockText.Pad2 | study_alarm.py:143 | at least two digits; for values below 100 exactly the tens digit and the units digit |
| ClockText.SecondsToTime | study_alarm.py:140-143 | for a time within one day the text is five characters, a valid time, and reads back as the seconds with the sub-minute part dropped |
| ClockText.FormattedIsValid | study_alarm.py:140-143 | an hour up to 23 and a minute up to 59 formatted with two digits each make a valid time spelling that hour and minute |
| ClockText.ClockParts | study_alarm.py:140-142 | the seconds split into hours, minutes below 60 and seconds below 60; dropping the seconds keeps the hours and minutes |
| ClockText.SplitSeconds | study_alarm.py:140-142 | the hour is at most 23 and the minute at most 59, and together they give the seconds rounded down to the minute |
| ClockText.PaddedRoundTrip | study_alarm.py:136-143 | a valid time written `HH:MM` is exactly the text its seconds format back to |
| ClockText.SubMinuteIgnored | study_alarm.py:140-143 | seconds within the same minute format the same |
| Schedule.StrLtIrreflexive | study_alarm.py:53 | no string orders strictly before itself |
| Schedule.StrLtTrichotomy | study_alarm.py:53 | any two strings are equal or one orders strictly before the other, never both ways |
| Schedule.StrLtTransitive | study_alarm.py:53 | string order is transitive |
| Schedule.PeriodLeTotal | study_alarm.py:53 | the tuple order is total, and two periods ordered both ways are equal |
| Schedule.PeriodLeTransitive | study_alarm.py:53 | the tuple order is transitive |
| Schedule.Insert | study_alarm.py:52-53 | inserting into a sorted schedule keeps it sorted and adds exactly the one period |
| Schedule.InsertSplits | study_alarm.py:52-53 | insertion moves no entry: the result is the schedule cut in two with the new period in between |
| Schedule.Sort | study_alarm.py:53 | the result is sorted and a rearrangement of the input |
| Schedule.SortedHeadLeast | study_alarm.py:53 | the first entry of a sorted schedule orders before or equal to every entry |
| Schedule.SortedUnique | study_alarm.py:53 | two sorted rearrangements of the same periods are equal, so `list.sort()` gives this result whatever its algorithm |
| Schedule.AddPeriod | study_alarm.py:42-56 | with both answers given and valid, the result is sorted and holds the old entries plus the new one; a cancelled, empty or invalid answer leaves the schedule unchanged; all entries stay valid times |
| Schedule.AddIsInsert | study_alarm.py:52-53 | on a sorted schedule, adding is inserting in place |
| Schedule.RemovePeriod | study_alarm.py:58-62 | no selection changes nothing; otherwise one entry fewer, and putting the selected entry back at its index gives the schedule back; sortedness and validity are kept |
| Schedule.DeleteKeepsSorted | study_alarm.py:61 | deleting one entry of a sorted schedule leaves it sorted |
| Schedule.DeleteKeepsValid | study_alarm.py:61 | deleting one entry keeps all times valid |
| Schedule.RemoveUndoesAdd | study_alarm.py:52-61 | after adding a period to a sorted schedule, removing the row where it landed gives back the schedule |
| AlarmScan.Earlier | study_alarm.py:99-101 | the slot kept starts no later than either candidate and is one of them; on an equal start the earlier-seen slot, with its end, is kept |
| AlarmScan.ScanFrom | study_alarm.py:95-110 | a break happens only at an entry in progress; a next start found is still to come or the one carried in |
| AlarmScan.StepNewEarliest | study_alarm.py:98-101 | an entry still ahead that starts strictly before the best so far becomes the earliest |
| AlarmScan.ScanStep | study_alarm.py:95-110 | one more entry not in progress keeps the loop's bookkeeping correct |
| AlarmScan.ScanFromBreaksFirst | study_alarm.py:95-110 | the loop breaks only when no earlier entry is in progress, and runs to the end only when no entry at all is in progress |
| AlarmScan.ScanFromFindsEarliest | study_alarm.py:95-101 | a loop that runs to the end ends with no start iff no entry is still ahead, and otherwise with the least start ahead and the end of the first entry that has it |
| AlarmScan.ScanFromCorrect | study_alarm.py:95-110 | the loop breaks iff some entry is in progress, at the first one; otherwise it ends with no start iff none is ahead, else the least start ahead with the end of the first entry having it |
| AlarmScan.Scan | study_alarm.py:95-110 | in study iff some period has start <= now < end, reported at the first such; otherwise the earliest start still ahead with the end of the first entry having it, or none iff nothing is ahead |
| AlarmScan.Decide | study_alarm.py:95-133 | studying iff a period is in progress, until its end; otherwise the least later start, waiting at most a minute; otherwise the first entry's start plus one day, waiting at most an hour; idle iff the schedule is empty |
| AlarmScan.EarliestUnique | study_alarm.py:98-101 | the earliest start still ahead, and its end, are determined by the schedule |

## Left out

- Printing the board, the `input`/`print` game loop and its messages: these are I/O. `HumanTurn` and `ComputerTurn` model one turn of that loop.
- `random.choice`: it is replaced by a `choice` index into the legal-move list.
- `Status.ComputerTurn`: requires that index to be inside the list, as `random.choice` picks one.
- `copy.deepcopy`: positions are immutable values, so copying is passing the value.
- `Notation.ParseMove`: only ASCII digits and letters are modelled.
  - Python's `int()` also accepts other Unicode decimal digits.
  - `str.lower()` also maps non-ASCII capitals.
  - The model therefore rejects a move whose ranks are written in non-ASCII decimal digits, which the source accepts: `e٢e٤`, with Arabic-Indic digits, parses to the move from (6, 4) to (4, 4) in the source.
  - The `str.lower()` difference changes nothing: the non-ASCII capitals either lower to a letter off the board (KELVIN SIGN to `k`) or to two characters, where `ord` raises and the source returns `None` too.
- `Status.IsCheck`: with several kings of one colour, the contract only says that some king is attacked. Which king the source tests is stated by `Status.FindKing`, and `Status.SingleKingCheck` gives the exact answer for one king.
- `Execute.MakeMove`: the end square is not described for an en-passant capture along the mover's own row. There the victim clearing empties the end square again.
- `Execute.MakeMove`: rook relocation is stated only for a king leaving column 4. For other two-column king moves, the contract only bounds which squares may change.
- `SourceRecursion.SrcMovesAgrees`: agreement is claimed only where the fuelled source returns. Where no fuel suffices, CPython raises `RecursionError`, which nothing catches (see Findings).
- `TodoList.AddCommand`: the list in memory is promised to equal what the file loads as only for an entry without a carriage return. `input()` can return a line holding `\r` (piped text, or Ctrl-V Ctrl-M at a terminal); `strip()` keeps an inner `\r`, and reading the file back treats it as a line end, so the two differ (`TodoList.CarriageReturnSplitsTask`).
- `view_tasks`, the menu dispatch and the messages in `to_do_list.py`: these are I/O.
- The `ValueError` path for a non-numeric task number (`to_do_list.py:55-59`): `RemoveCommand` takes the number already read. A non-number changes nothing in the source.
- File access in `to_do_list.py`: the file is a string, and a missing file is `None`.
  - Character decoding is left out, so the file is already text.
  - The save is written with `\n`, which is what a POSIX text-mode write produces. On Windows the written `\r\n` is translated back on reading, which `Translate` covers.
- tkinter widgets, `root.after`, `threading`, `time.sleep`, `winsound.Beep`, `start_alarm` and `stop_alarm`: these are UI, threads and sound.
  - `Decide` returns the sleep lengths instead of sleeping.
  - The status label texts are not modelled.
  - Time spent sleeping, and the schedule changing under the running thread, are not modelled.
- `datetime.now()`: "now" is a parameter, in seconds since midnight, below one day.
- `time.strptime` is modelled by `ValidTime` with ASCII digits only: one or two digits for an hour up to 23, a colon, and one or two digits for a minute up to 59.
- `Schedule.AddPeriod`: a time is accepted only when written in ASCII digits. The source's `strptime` matches `\d`, which takes any Unicode decimal digit, and `int()` reads them, so the source adds `1٩:30` or `٩:٣` (Arabic-Indic digits) and later reads them as 19:30 and 9:03, where the model leaves the schedule unchanged.
- `update_listbox`: display only.
- `Schedule.RemovePeriod`: requires the selected index to be inside the schedule. The listbox rows always mirror the schedule, so a selection is always a valid index.

## Findings

| source | as written | input that shows it | evidently intended | confidence | as-written member | corrected member |
|---|---|---|---|---|---|---|
| chess_game.py:99-117 | A king's castling test asks `is_attacked`, which generates the moves of every enemy piece, including the enemy king's castling moves. Those ask `is_attacked` about the first side again, with no bound. | Only the two kings, on e1 and e8, with all four castling rights. `get_moves` on either king needs more than any finite recursion depth, so CPython raises an uncaught `RecursionError` and the game crashes. | Castling squares are never needed to decide whether a square is attacked. Attack detection should use moves without castling. | not executed | SourceRecursion.KingsOnlyDiverges | MoveGen.Moves |

The corrected generator is the two-layer `Moves`/`AttackMoves` pair, and the rest of the model uses it. `SourceRecursion.SrcMovesAgrees` proves that it returns what the source returns whenever the source returns. `MoveGen.LayersAgree` shows why the split is safe. Castling destinations are empty squares on the mover's own back row. So they never coincide with:
- a king square that `is_check` asks about;
- a back-row square of the other side that a castling test asks about.

Other behaviour the model reproduces as written:

- **En passant is dead.** Line 128 records the square a pawn skipped, but line 164 clears it in the same call. From the initial position no en-passant square ever exists, and the capture branch at lines 129-131 is never taken (`Play.EnPassantIsDead`). In chess an en-passant capture removes the passed pawn, as the comment at line 130 intends. The model follows the code.
- **Promotion is inverted.** Line 132 promotes a white pawn on row 7 and a black pawn on row 0. Those are each side's own back rows, but pawns walk away from them (lines 59-60). A white pawn reaching row 0 stays a pawn, and no generated pawn move ever promotes (`Execute.PromotionRowIsHomeRow`, `Execute.PawnsNeverPromote`). In chess pawns promote on the far rank. The model follows the code.
- **Pawn pushes count as attacks.** `is_attacked` uses the pawn's forward moves. These always land on empty squares (`PieceMoves.PawnPushesLandOnEmpty`). So they only matter for empty castling squares, never for a king's square.
- **Human moves are not filtered for self-check.** Only the computer's moves go through the legal-move filter.
- **The king search keeps the last row.** The `break` at line 179 leaves only the inner loop, so `is_check` tests the king found in the last row holding one.
- **Rook corners clear rights whatever the rook's colour.** A rook leaving any of the four corners clears the flag of that corner, whichever colour the rook is.
- **A carriage return splits a task on reload.** The task `a\rb` stays one task in memory, but after a restart the file gives the two tasks `a` and `b` (`TodoList.CarriageReturnSplitsTask`).
- **The schedule is sorted as text.** "9:00" sorts after "10:00", and the "tomorrow" wake-up uses the first entry in that order.
- **The start announcement can come early.** When a start is more than a minute away, the loop still announces "Study time start!" after waiting one minute.
