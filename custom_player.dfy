/** The custom player's search: alpha-beta with the plain liberty
    difference, leaves valued for the player the agent plays as, and a root
    that only replaces its best move on a strictly better score. */
module CustomPlayer {
  import opened Values
  import opened Game
  import opened AlphaBeta

  /** `CustomPlayer.alpha_beta_search(state, depth)` for the agent playing as
      `playerId` (`self.player_id`). It returns the first action whose
      depth-limited minimax value is the maximum, and `None` when there is no
      action or every action loses (-inf). */
  method AlphaBetaSearch(s: State, playerId: PlayerId, depth: int) returns (move: Option<Action>)
    ensures move.None? <==>
      forall j :: 0 <= j < |s.moves| ==> ChildValue(CustomEval(playerId), s, j, depth, true) == NegInf
    ensures move.Some? ==>
      exists j :: 0 <= j < |s.moves| && move.value == Actions(s)[j]
                  && IsFirstBest(CustomEval(playerId), s, depth, j)
  {
    move := AlphaBeta.AlphaBetaSearch(CustomEval(playerId), Strict, s, depth);
    StrictRootContract(CustomEval(playerId), s, depth);
  }
}
