# Chess application core, modelled in Dafny

This project models the rules engine and the AI of a small desktop chess program:

- the piece movement rules;
- the 8×8 board with move execution, check, checkmate and stalemate detection;
- the three AI tiers: random, one-ply evaluation, and iterative deepening over alpha-beta;
- the mode and configuration record;
- the board part of the save file, and the PGN text export.

The model follows the program as written, including its quirks:

- White pawns step with direction +1, towards row 7. That is their own back rank, because white starts on rows 6 and 7. So in the initial position no pawn of either colour can move (`Board.InitialPawnsCannotMove`).
- The two-square pawn move looks only at the destination square, never at the square it passes over (`Pieces.PawnJumpsOverBlocker`).
- `would_be_in_check_after_move` always tests the king of the side to move, whatever colour the moving piece is.
- In alpha-beta:
  - a maximizing node searches the replies of the AI's opponent, and a minimizing node the AI's own moves;
  - depth 0 ignores the move it was given (`Search.AlphaBetaLeaf`);
  - a node with no replies scores −∞ or +∞ (`Search.AlphaBetaNoReplies`).
- The root loop of iterative deepening never resets its best score between depths. So the hard tier plays the first move, over all depths and moves reached, of the highest minimax value (`Search.MinimaxMoveIsBest`), and a later depth can replace the move only with a strictly higher value.
- `make_move` keeps accepting moves after the game is over.
- There is no castling, no en passant and no promotion.
- The PGN notation prints knights with the letter `K`, like kings (`Pgn.KnightPrintsAsKing`).

Module layout, one file each:

| file | module | source |
|---|---|---|
| wrappers.dfy | Wrappers | `Option`, `Result` |
| pieces.dfy | Pieces | chess_pieces.py |
| board.dfy | Board | chess_board.py |
| evaluation.dfy | Evaluation | the evaluation half of chess_ai.py |
| gametree.dfy | GameTrees | abstract game trees: minimax value and the alpha-beta recurrence |
| search.dfy | Search | the search half of chess_ai.py |
| game_state.dfy | GameStates | game_state.py |
| serializer.dfy | Serializer | board (de)serialisation and file suffixes of game_serializer.py |
| pgn.dfy | Pgn | the PGN text builder of game_serializer.py |

How the model represents the program:

- Pieces are values `Piece(kind, color, row, col, hasMoved)`. A board is a `seq<seq<Option<Piece>>>`.
- The board invariant `Board.Valid` says two things: the grid is 8×8, and every piece records its own cell.
- The transient move-and-restore that the program performs in place becomes `Board.Apply` and `Board.Restore`, proved inverse (`Board.ApplyRestore`). `Search.AlphaBeta` returns the grid it was given alongside the score.
- The values the program reads from its surroundings are parameters:
  - the wall clock of the 5-second search budget is an oracle `expired: Checkpoint -> bool`, asked at the two places the program reads the clock;
  - `random.choice` is `moves[pick % |moves|]`;
  - the `random.uniform(-0.1, 0.1)` term of `_evaluate_move` is a function `jitter: nat -> real`, indexed by move position;
  - the date of the PGN header is a string argument.

## Model

| member | source | states |
|---|---|---|
| Pieces.Accepts | chess_pieces.py:44-191 | an accepted target is empty or holds an enemy piece; a piece standing on its recorded square never accepts that square |
| Pieces.StraightPathClear | chess_pieces.py:75-90 | the step-by-step path loop answers exactly the straight path rule: every square strictly between is empty and the target is empty or an enemy |
| Pieces.DiagonalPathClear | chess_pieces.py:115-131 | the diagonal path loop answers exactly the diagonal path rule |
| Pieces.StraightPathIff | chess_pieces.py:75-90 | a straight path is clear iff every square strictly between the two ends is empty |
| Pieces.DiagonalPathIff | chess_pieces.py:115-131 | a diagonal path is clear iff every square strictly between the two ends is empty |
| Pieces.PawnRule | chess_pieces.py:44-65 | a straight pawn move goes one step in the colour's direction, or two from an unmoved pawn, onto an empty square; a diagonal one goes one column and one step onto an enemy; and conversely the free single step, the unmoved two-step onto an empty square (whatever stands in between) and the one-column diagonal step onto an enemy are all accepted |
| Pieces.PawnJumpsOverBlocker | chess_pieces.py:56 | an unmoved pawn accepts the two-step target even when the square in between is occupied |
| Pieces.RookRule | chess_pieces.py:67-90 | a rook accepts exactly the other squares of its row or column with empty squares between and no own piece on the target |
| Pieces.KnightRule | chess_pieces.py:92-102 | a knight accepts exactly the eight (1,2)/(2,1) jumps onto a square without an own piece |
| Pieces.BishopRule | chess_pieces.py:104-131 | a bishop accepts exactly the other squares of its diagonals with empty squares between and no own piece on the target |
| Pieces.QueenRule | chess_pieces.py:133-178 | a queen accepts exactly what a rook or a bishop on its square accepts |
| Pieces.KingRule | chess_pieces.py:180-191 | a king accepts exactly the adjacent squares without an own piece |
| Pieces.MovesFrom | chess_pieces.py:32-39 | the scan from `(r, c)` lists only on-board squares at or after `(r, c)` |
| Pieces.MovesFromMembers | chess_pieces.py:32-39 | the scan from `(r, c)` lists exactly the accepted squares at or after `(r, c)` |
| Pieces.MovesFromSorted | chess_pieces.py:35-38 | the scan from `(r, c)` lists its squares in strictly increasing row-major order |
| Pieces.PossibleMoves | chess_pieces.py:32-39 | `get_possible_moves` lists only on-board squares |
| Pieces.PossibleMovesMembers | chess_pieces.py:32-39 | `get_possible_moves` lists exactly the squares the piece accepts |
| Pieces.PossibleMovesSorted | chess_pieces.py:35-38 | `get_possible_moves` lists squares in row-major order without repetition |
| Pieces.EmptyGrid | chess_board.py:11 | the starting grid is 8×8 and every cell is empty |
| Board.InitialBoard | chess_board.py:10-30 | back ranks in the order R N B Q K B N R, black on rows 0-1, white on rows 6-7, rows 2-5 empty, white to move, no history, every piece on its own cell |
| Board.InitialPawnsCannotMove | chess_pieces.py:49 | in the initial position no pawn accepts any square, because each steps towards its own back rank |
| Board.GetPiece | chess_board.py:32-40 | off-board squares hold nothing; on-board squares give the grid cell, whose piece records that square |
| Board.SetCell | chess_board.py:64-65 | writing one cell changes that cell and no other |
| Board.Place | chess_board.py:63-66 | after placing the mover, the source is empty, the destination holds the mover, every other cell is unchanged, and pieces still record their own cells |
| Board.Apply | chess_board.py:89-95 | the transient move keeps the grid well formed and the board invariant |
| Board.Restore | chess_board.py:100-103 | restoring keeps the grid well formed |
| Board.ApplyRestore | chess_board.py:86-105 | restoring with the saved piece and saved occupant gives back exactly the grid before the transient move |
| Board.FindKingFrom | chess_board.py:125-132 | the search from `(r, c)` finds nothing iff no king of the colour is at or after `(r, c)`; otherwise it finds the first such king |
| Board.FindKing | chess_board.py:125-132 | `find_king` returns nothing iff the colour has no king; otherwise it returns the row-major first king of that colour |
| Board.AttackerFrom | chess_board.py:116-123 | true iff some piece of the colour at or after `(r, c)` accepts the target square |
| Board.IsInCheck | chess_board.py:107-123 | without a king there is no check; with one, check holds iff some opposing piece accepts the king's square |
| Board.SafeMoves | chess_board.py:141-144 | the kept moves come from the given source, to the given destinations |
| Board.SafeMovesMembers | chess_board.py:141-144 | a destination is kept iff it is listed and the transient move leaves the king of the side to move unattacked |
| Board.SafeMovesSorted | chess_board.py:141-144 | sorted destinations give moves sorted by destination |
| Board.MovesFrom | chess_board.py:134-145 | the moves from sources at or after `(r, c)` are on the board and start from a piece of the colour |
| Board.MovesFromMembers | chess_board.py:134-145 | the moves from sources at or after `(r, c)` are exactly the generated moves from those sources |
| Board.MovesFromSorted | chess_board.py:137-144 | those moves are ordered by source, then by destination |
| Board.LegalMoves | chess_board.py:134-145 | every listed move starts from a piece of the requested colour and stays on the board |
| Board.LegalMovesMembers | chess_board.py:134-145 | a move is listed iff it is on the board, from a piece of the colour, accepted by the piece, and does not leave the king of the side to move attacked |
| Board.LegalMovesSorted | chess_board.py:137-144 | the moves come out by source in row-major order, then by destination |
| Board.NoSelfCheck | chess_board.py:143 | a listed move never leaves the side to move in check |
| Board.CheckGameEnd | chess_board.py:147-166 | with no moves and in check the opponent wins; with no moves and not in check it is a draw; otherwise nothing changes; grid, turn and history are never touched |
| Board.MakeMove | chess_board.py:42-84 | each of the five rejections happens exactly under its condition, in order, and leaves the board unchanged; a success moves the piece, empties the source, leaves the other cells unchanged, appends the record with the captured occupant, passes the turn and runs the game-end check |
| Evaluation.MaterialAntisymmetric | chess_ai.py:201-215 | the material count for white is the negation of the count for black, from every scan position |
| Evaluation.EvaluatePositionAntisymmetric | chess_ai.py:201-215 | the material evaluation for a colour is the negation of the evaluation for its opponent |
| Evaluation.KingSafety | chess_ai.py:270-293 | a missing king scores −100; otherwise 0 to 3; a king off its home row scores 0; a king on its home row scores above 0 exactly when an own pawn stands on the shield row in one of the three files around it |
| Evaluation.KingSafetyCount | chess_ai.py:279-293 | a king on its home row scores exactly the number of files among its own and the two neighbouring ones (on the board) that hold an own pawn on the shield row |
| Evaluation.PlacementAntisymmetric | chess_ai.py:222-235 | the material-plus-placement sum for white is the negation of the sum for black, from every scan position |
| Evaluation.EvaluateAdvancedAntisymmetric | chess_ai.py:217-246 | the advanced evaluation for a colour is the negation of the evaluation for its opponent |
| GameTrees.Max | chess_ai.py:162-163 | the maximum of two extended scores is one of them and bounds both |
| GameTrees.Min | chess_ai.py:173-174 | the minimum of two extended scores is one of them and is bounded by both |
| GameTrees.ValueLoop | chess_ai.py:152-177 | the minimax fold over the subtrees from index `i` never falls below its running value when maximizing, and never rises above it when minimizing |
| GameTrees.SearchSound | chess_ai.py:152-177 | the cut-off search inside a window is exact when the minimax value lies inside the window, and is on the same side of the window otherwise |
| GameTrees.MaxLoopSound | chess_ai.py:160-165 | the maximizing child loop with cut-offs is sound for the window |
| GameTrees.MinLoopSound | chess_ai.py:171-176 | the minimizing child loop with cut-offs is sound for the window |
| GameTrees.SearchFullWindow | chess_ai.py:136-184 | with the window (−∞, +∞) the cut-off search returns the minimax value |
| Search.Captures | chess_ai.py:191-197 | the captures selected from a list have their targets on the board |
| Search.Quiets | chess_ai.py:191-197 | the quiet moves selected from a list have their targets on the board |
| Search.PartitionIsPermutation | chess_ai.py:186-199 | the captures and the quiet moves together are a permutation of the input |
| Search.PartitionSides | chess_ai.py:186-199 | every capture lands on an occupied square and every quiet move on an empty one |
| Search.OrderLoop | chess_ai.py:191-199 | the loop of `_order_moves` ends with all captures, in input order, then all quiet moves |
| Search.OrderMoves | chess_ai.py:186-199 | the ordered list contains only input moves |
| Search.OrderMovesPartition | chess_ai.py:186-199 | the ordering is a permutation of the input with the captures first, in generated order, then the quiet moves |
| Search.Children | chess_ai.py:152-169 | the replies searched below a node are movable on the grid after the node's move |
| Search.AlphaBeta | chess_ai.py:136-184 | the search gives back the grid it was given, so the transient moves below it are all undone |
| Search.AlphaBetaNode | chess_ai.py:141-184 | the node case gives back the grid it was given |
| Search.ChildLoop | chess_ai.py:160-177 | the child loop keeps the grid and returns the running best once all children are searched |
| Search.GameTree | chess_ai.py:138-139 | the tree walked by the search is a leaf exactly at depth 0 |
| Search.AlphaBetaIsTreeSearch | chess_ai.py:136-184 | the board search returns the cut-off tree search of the game tree it walks, for every window |
| Search.ChildLoopIsSearchLoop | chess_ai.py:160-177 | the board child loop returns the cut-off tree loop over the children's game trees |
| Search.AlphaBetaMatchesMinimax | chess_ai.py:136-184 | with the full window the board search returns the minimax value of its game tree |
| Search.AlphaBetaLeaf | chess_ai.py:138-139 | at depth 0 the score is the advanced evaluation, whatever move is passed |
| Search.AlphaBetaNoReplies | chess_ai.py:152-177 | a node with no replies scores −∞ when maximizing and +∞ when minimizing |
| Search.RootLoopOver | chess_ai.py:116-129 | a root loop over any scores either keeps its incoming best score and move, or ends with a strictly higher score and a move taken from the list |
| Search.RootLoop | chess_ai.py:116-129 | the root loop of one depth either keeps its incoming best score and move, or ends with a strictly higher score and a best move taken from the list |
| Search.Best | chess_ai.py:123-125 | folding strict improvements over scored moves ends at a score no scanned score exceeds and not below the initial one; the initial pair is kept when nothing beat it, and otherwise the move is that of the first scanned pair reaching the final score, every earlier one being strictly lower |
| Search.BestAppend | chess_ai.py:108-131 | folding a concatenation is folding the second part from the result of the first, which is why the best score can be carried across depths |
| Search.BestInit | chess_ai.py:112-132 | starting a fold with no move and putting back the old move when none was found is the same as starting from the old move |
| Search.RootScoreSound | chess_ai.py:121 | the score of a root move under the window (alpha, +∞) is never below the move's minimax value, and equals it when above alpha |
| Search.ValueScan | chess_ai.py:116-118 | the moves a root loop reaches, stopping on the clock or after a move worth +∞, are moves of the list |
| Search.RootScan | chess_ai.py:116-121 | the moves one depth reaches, with their minimax values, are moves of the list |
| Search.RootLoopOverIsBest | chess_ai.py:116-129 | with scores sound for the values, the root loop equals the fold of the reached values: the running alpha and the cut-off at +∞ change no decision |
| Search.RootScoresSound | chess_ai.py:121 | every root move's `_alpha_beta` score is sound for its minimax value, whatever the running alpha below +∞ |
| Search.RootLoopIsBest | chess_ai.py:112-129 | the root loop of one depth ends with the highest minimax value among the reached moves and the first reached move attaining it, or keeps its incoming score with no move when none beat it |
| Search.RootRound | chess_ai.py:112-129 | the round of one depth keeps the best score with no move, or raises it strictly and names a move of the list |
| Search.DeepeningOver | chess_ai.py:108-132 | over any rounds that keep or strictly raise the score, the best score never decreases; the best move is one of the moves, absent iff the score is −∞; with no depth left or a stop, nothing changes |
| Search.Deepening | chess_ai.py:108-132 | the best score never decreases over depths; the best move is one of the moves, and it is absent iff no score beat −∞; with no depth left, or an expired clock, nothing changes |
| Search.ScanOver | chess_ai.py:108-110 | the scan of the depths is empty when no depth is left or it stops, and otherwise starts with the current depth's scan |
| Search.DeepeningScan | chess_ai.py:108-121 | the moves all depths reach, in order, are empty when no depth is left or the clock expired, and otherwise start with the current depth's root scan |
| Search.DeepeningStep | chess_ai.py:112-132 | one depth followed by the later ones is the fold of the concatenated scans from the carried best |
| Search.DeepeningOverIsBest | chess_ai.py:108-132 | a deepening whose every round is the fold of its depth's scan is the fold of all depths' scans |
| Search.RootRoundsAreBest | chess_ai.py:112-129 | every round from depth 1 on is the fold of that depth's root scan |
| Search.DeepeningIsBest | chess_ai.py:108-132 | iterative deepening ends with the highest minimax value over all moves and depths reached, and the first move in that order attaining it |
| Search.MinimaxMove | chess_ai.py:98-134 | the chosen move is one of the moves: the deepening result when a move was found, else the random pick, in particular when the clock expired before depth 1 |
| Search.MinimaxMoveIsBest | chess_ai.py:98-134 | the move played is the first move, over the depths and moves reached, of the highest minimax value, or the random pick when none scored above −∞ |
| Search.EvaluatedLoop | chess_ai.py:47-53 | a non-empty list yields an index whose score is at least every score in the list and strictly above every earlier one |
| Search.EvaluatedMove | chess_ai.py:42-55 | the chosen move is the first move of highest one-ply score |
| Search.SetDifficulty | chess_ai.py:295-298 | a known level replaces the difficulty; any other string changes nothing; the colour is kept |
| Search.GetBestMove | chess_ai.py:24-40 | there is no move iff the AI's colour has no generated move; otherwise the move is a generated one, and the random pick on "easy" |
| GameStates.Init | game_state.py:8-14 | a fresh state is human vs human, medium, AI black, no moves, not started |
| GameStates.SetGameMode | game_state.py:16-22 | accepted iff the mode is known; the mode changes only then, and nothing else changes |
| GameStates.SetAiDifficulty | game_state.py:24-30 | accepted iff the level is known; the level changes only then, and nothing else changes |
| GameStates.SetAiColor | game_state.py:32-37 | accepted iff the colour is known; the colour changes only then, and nothing else changes |
| GameStates.IncrementMoveCount | game_state.py:44-46 | the counter goes up by one and nothing else changes |
| GameStates.ResetGameState | game_state.py:48-51 | the counter is zero and the game not started; the configuration is kept |
| GameStates.OperationsPreserveValid | game_state.py:16-51 | every operation keeps the fields within their accepted values |
| GameStates.ResetForgetsMoves | game_state.py:44-51 | a reset is idempotent, forgets a preceding move count, and leaves a fresh state fresh |
| GameStates.AiTurnFollowsColor | game_state.py:32-42 | in a game against the AI, after an accepted colour, it is the AI's turn exactly for that colour |
| GameStates.NoAiTurnBetweenHumans | game_state.py:39-42 | in a human-only game no colour is the AI's |
| Serializer.ParseKind | game_serializer.py:104-121 | an accepted type name is the name of the kind it yields |
| Serializer.ParseColor | game_serializer.py:122-131 | an accepted colour name is the name of the colour it yields |
| Serializer.ParseWinner | game_serializer.py:133 | an accepted winner entry is the stored form of the winner it yields |
| Serializer.NamesRoundTrip | game_serializer.py:58-133 | reading the stored names of a kind, a colour or a winner gives them back |
| Serializer.SerializeBoard | game_serializer.py:58-84 | the written grid is 8×8; a cell is null iff the board cell is empty; each written piece reads back to the same kind, colour, moved flag and square; the turn, the game-over flag and the winner read back |
| Serializer.DecodePiece | game_serializer.py:120-127 | a stored piece is read iff its type and colour are known, giving a piece of those, on the stored square, with the stored moved flag |
| Serializer.RestoreCells | game_serializer.py:113-128 | the cell loop succeeds iff every cell from `(r, c)` on is readable; then those cells hold what the data says and the earlier cells are untouched |
| Serializer.RestoreBoardState | game_serializer.py:100-133 | the restore succeeds iff every cell, the turn and the winner are readable; then the grid, turn, flag and winner are the stored ones and the history is the board's own |
| Serializer.SerializedCells | game_serializer.py:58-127 | every written cell is readable and reads back as the original cell |
| Serializer.RestoreSerialized | game_serializer.py:58-133 | restoring the written data of any well-formed board reproduces that board, keeping the target board's history |
| Serializer.RestoredConsistent | game_serializer.py:100-133 | a restored board satisfies the board invariant iff every stored piece records the cell it is stored in |
| Serializer.EnsureSuffix | game_serializer.py:22-23 | the result ends with the suffix; a name already ending with it is kept; any other name gets it appended |
| Serializer.SuffixIdempotent | game_serializer.py:22-23 | adding the suffix twice is the same as once, and the original name is a prefix of the result |
| Serializer.FileNamesHaveSuffix | game_serializer.py:162-163 | save files end in ".json" and exports in ".pgn", and a name that already has the suffix is kept |
| Pgn.ResultToken | game_serializer.py:171-179 | the token is "*" iff the game is not over |
| Pgn.ResultTokenSeparates | game_serializer.py:171-179 | equal tokens mean the same game-over flag and, for a finished game, the same white win, black win or neither |
| Pgn.NatToString | game_serializer.py:187 | the move number is a non-empty string of digits, one digit long iff below 10, with no leading zero |
| Pgn.NatToStringValue | game_serializer.py:187 | reading the printed move number gives back the number |
| Pgn.SquareName | game_serializer.py:194-195 | a square prints as a file letter a-h followed by a rank digit 1-8 |
| Pgn.ParseSquare | game_serializer.py:194-195 | an accepted square name denotes a square on the board |
| Pgn.SquareNameInjective | game_serializer.py:194-195 | the printed name reads back to the same square, so distinct squares print differently |
| Pgn.KnightPrintsAsKing | game_serializer.py:200 | knight and king both print as `K`; rook, bishop and queen print as `R`, `B`, `Q` |
| Pgn.Notation | game_serializer.py:195-202 | the notation ends with the destination square; it is just that square iff the piece is a pawn, otherwise the piece letter followed by the square, three characters in all |
| Pgn.MoveTextNumbered | game_serializer.py:185-202 | a white move's text is a decimal numeral without leading zeros whose value is `i/2 + 1`, a period and a space, then the notation and a space; a black move's text is the notation and a space |
| Pgn.MoveTextNoNewline | game_serializer.py:186-202 | a move's text has no line break |
| Pgn.StripNewlines | game_serializer.py:204-206 | removing line breaks from text without any leaves it unchanged |
| Pgn.WrapLoopKeepsText | game_serializer.py:184-209 | with the line breaks removed, the wrapped output is the concatenated move texts |
| Pgn.WrapLoopLineLengths | game_serializer.py:204-209 | a line break only follows a line longer than 70 characters, and the unfinished last line has at most 70 |
| Pgn.MoveSectionLayout | game_serializer.py:184-209 | the move section is the move texts with line breaks added only after lines longer than 70, and its last line has at most 70 characters |
| Pgn.ExportPgnLayout | game_serializer.py:165-220 | the export starts with the header (event, date, the two players, the result tag and an empty line), continues with the wrapped move section, and ends with a space and the result token |

## Left out

- The Tk GUI, the network play, the game timer and `main` are not part of this model.
- `save_game`, `load_game`, `get_saved_games` and the `export_pgn` file write are not modelled: files and JSON text are I/O. The model stops at the dictionary-shaped `BoardData` and the PGN string.
- `_serialize_game_state`, `restore_game_state` and the timer part of a save file are not modelled.
- The version and timestamp entries of a save file are not modelled.
- The default file names built from the current time are not modelled. Only the suffix rule is.
- `get_symbol`, `get_board_state` and `get_status_info` are display helpers and are left out.
- `reset_game` re-runs the constructor, so its result is `Board.InitialBoard`. It is not a separate member.
- The `time_control` field of the game state is set to `None` (game_state.py:12). It is used only by the game-state part of a save file, which is left out, so `GameStates.GameState` leaves it out too.
- Floating point: scores are exact `real`s. Rounding of `0.1`-style constants is not modelled.
- Floating point: the infinities of `float('inf')` are the `NegInf`/`PosInf` cases of `GameTrees.Score`.
- The clock, `random.choice` and `random.uniform` are parameters, as described above. The model does not state their distributions.
- Serializer.RestoreBoardState: the program stores any string as a colour or winner. The model accepts only the names the program writes, and fails on anything else.
- Serializer.RestoreBoardState: on an unknown piece type the program raises after it has already replaced part of the board. The model returns a failure and no partial board.
- Serializer.DecodePiece: the program keeps every other field of a restored piece as stored, without any check. The model does the same, so a restored board need not satisfy the board invariant (`Serializer.RestoredConsistent` says when it does).
- Pieces.Accepts: requires both squares on the board. Every caller in the program passes such squares, so Python's negative indexing is never reached.
- Pgn.SquareName: requires the square on the board, for the same reason. Printing a square with an out-of-range row would produce other characters.
- The unused `from_square` of the PGN loop is not modelled, since it never reaches the output.
- `_get_evaluated_move` has a `random.choice` fallback. It is unreachable because a non-empty move list always sets a best move, so it is not modelled.
- `Search.EvaluateMove`, `Search.MoveScore`, `Evaluation.EvaluatePosition`, `Evaluation.EvaluateAdvanced` and `Evaluation.PositionBonus` have no contract of their own. They are the scoring formulas themselves. Their properties are stated by the antisymmetry lemmas and by `Search.EvaluatedMove`.
- `Board.WouldBeInCheck`, `Board.GetAllPossibleMoves`, `Board.IsCheckmate`, `Board.IsStalemate`, `GameStates.IsAiTurn`, `Search.MaxDepth` and `Pgn.ExportPgnText` are definitions with no contract of their own. Their properties are stated by `Board.SafeMovesMembers`, `Board.LegalMovesMembers`, `Board.NoSelfCheck`, `Board.CheckGameEnd`, `GameStates.AiTurnFollowsColor`, `GameStates.NoAiTurnBetweenHumans`, `Search.MinimaxMove` and `Pgn.ExportPgnLayout`.
- `Pgn.MoveText`, `Pgn.MoveTexts` and `Search.GameTreeKids` only unfold their definitions for the proofs, and `Search.BestCons` and `Search.RootStepAgrees` are steps of `Search.RootLoopOverIsBest`. `Pgn.MoveTextNumbered`, `Pgn.MoveSectionLayout` and `Search.AlphaBetaIsTreeSearch` carry their content.
- `Pieces.MoveTo`, the effect of `move_to`, has no contract of its own. `Board.MakeMove` states the resulting piece.
- History entries hold piece values. The program stores a reference to the live piece, which later moves may change. Only the kind and colour are read downstream, and neither ever changes.
- `is_valid_position` is the `Pieces.OnBoard` predicate, not a separate member.
