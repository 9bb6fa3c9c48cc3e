/**
  The mode and configuration record of the application: game mode, AI strength and
  colour, and a move counter. Modes, difficulties and colours are the strings the
  program stores; each setter reports whether it accepted its argument.
 */
module GameStates {
  import Search

  datatype GameState = GameState(
    gameMode: string,
    aiDifficulty: string,
    aiColor: string,
    moveCount: nat,
    gameStarted: bool)

  predicate IsMode(mode: string) {
    mode == "human_vs_human" || mode == "human_vs_ai"
  }

  predicate IsColorName(color: string) {
    color == "white" || color == "black"
  }

  /** Every field holds one of the values the setters accept. */
  predicate Valid(s: GameState) {
    IsMode(s.gameMode) && Search.IsDifficulty(s.aiDifficulty) && IsColorName(s.aiColor)
  }

  /** The state of a fresh application. */
  function Init(): (s: GameState)
    ensures Valid(s) && s.moveCount == 0 && !s.gameStarted
    ensures s.gameMode == "human_vs_human" && s.aiDifficulty == "medium" && s.aiColor == "black"
  {
    GameState("human_vs_human", "medium", "black", 0, false)
  }

  /** `set_game_mode`. */
  function SetGameMode(s: GameState, mode: string): (r: (bool, GameState))
    ensures r.0 <==> IsMode(mode)
    ensures r.1.gameMode == (if IsMode(mode) then mode else s.gameMode)
    ensures r.1 == s.(gameMode := r.1.gameMode)
  {
    if IsMode(mode) then (true, s.(gameMode := mode)) else (false, s)
  }

  /** `set_ai_difficulty`. */
  function SetAiDifficulty(s: GameState, level: string): (r: (bool, GameState))
    ensures r.0 <==> Search.IsDifficulty(level)
    ensures r.1.aiDifficulty == (if Search.IsDifficulty(level) then level else s.aiDifficulty)
    ensures r.1 == s.(aiDifficulty := r.1.aiDifficulty)
  {
    if Search.IsDifficulty(level) then (true, s.(aiDifficulty := level)) else (false, s)
  }

  /** `set_ai_color`. */
  function SetAiColor(s: GameState, color: string): (r: (bool, GameState))
    ensures r.0 <==> IsColorName(color)
    ensures r.1.aiColor == (if IsColorName(color) then color else s.aiColor)
    ensures r.1 == s.(aiColor := r.1.aiColor)
  {
    if IsColorName(color) then (true, s.(aiColor := color)) else (false, s)
  }

  /** `is_ai_turn`: only a game against the AI has AI turns, and only for the AI's colour. */
  predicate IsAiTurn(s: GameState, player: string) {
    s.gameMode == "human_vs_ai" && player == s.aiColor
  }

  /** `increment_move_count`. */
  function IncrementMoveCount(s: GameState): (r: GameState)
    ensures r.moveCount == s.moveCount + 1
    ensures r == s.(moveCount := r.moveCount)
  {
    s.(moveCount := s.moveCount + 1)
  }

  /** `reset_game_state`: the counters go back to a fresh game, the configuration stays. */
  function ResetGameState(s: GameState): (r: GameState)
    ensures r.moveCount == 0 && !r.gameStarted
    ensures r.gameMode == s.gameMode && r.aiDifficulty == s.aiDifficulty && r.aiColor == s.aiColor
  {
    s.(moveCount := 0, gameStarted := false)
  }

  /** Every operation keeps a valid state valid. */
  lemma OperationsPreserveValid(s: GameState, arg: string)
    requires Valid(s)
    ensures Valid(SetGameMode(s, arg).1)
    ensures Valid(SetAiDifficulty(s, arg).1)
    ensures Valid(SetAiColor(s, arg).1)
    ensures Valid(IncrementMoveCount(s))
    ensures Valid(ResetGameState(s))
  {
  }

  /** Resetting a fresh state, or any state twice, gives the same state as resetting once;
      and a reset after any number of moves is the reset of the state before them. */
  lemma ResetForgetsMoves(s: GameState)
    ensures ResetGameState(ResetGameState(s)) == ResetGameState(s)
    ensures ResetGameState(IncrementMoveCount(s)) == ResetGameState(s)
    ensures ResetGameState(Init()) == Init()
  {
  }

  /** Setting the AI colour decides whose turn the AI has: in a game against the AI, the
      AI moves exactly for the colour that was accepted. */
  lemma AiTurnFollowsColor(s: GameState, color: string, player: string)
    requires s.gameMode == "human_vs_ai" && IsColorName(color)
    ensures IsAiTurn(SetAiColor(s, color).1, player) <==> player == color
  {
  }

  /** In a human-only game no colour is ever the AI's. */
  lemma NoAiTurnBetweenHumans(s: GameState, player: string)
    requires s.gameMode == "human_vs_human"
    ensures !IsAiTurn(s, player)
  {
  }
}
