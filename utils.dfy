/** The utility module's search: alpha-beta with the distance-weighted score,
    leaves valued for the player `play_id`, and a root that replaces its best
    move on any score at least as good. */
module Utils {
  import opened Values
  import opened Game
  import opened AlphaBeta

  /** `alpha_beta_search(state, play_id, depth)`. It returns `None` exactly
      when there is no action; otherwise the last action whose returned value
      reached the best so far, which is then the maximum child value. */
  method AlphaBetaSearch(s: State, playId: PlayerId, depth: int) returns (move: Option<Action>)
    ensures move.None? <==> Terminal(s)
    ensures move.Some? ==>
      exists j :: 0 <= j < |s.moves| && move.value == Actions(s)[j]
                  && IsLastRise(UtilsEval(playId), s, depth, j)
  {
    move := AlphaBeta.AlphaBetaSearch(UtilsEval(playId), Lenient, s, depth);
    LenientRootContract(UtilsEval(playId), s, depth);
  }
}
