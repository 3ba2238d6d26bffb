/** The static evaluators used when the alpha-beta search is cut off:
    the plain liberty difference of the custom player, and the
    distance-weighted score shared by the opening-book builder and the
    utility module. */
module Heuristics {
  import opened Game

  /** The isolation library's board: `_WIDTH` playable columns plus two
      sentinel columns per row, `_HEIGHT` rows. */
  const BoardWidth: int := 11
  const BoardHeight: int := 9

  /** The row and the column of a position: `loc // (W + 2)`, `loc % (W + 2)`.
      The divisor is positive, so Dafny's Euclidean `/` and `%` agree with
      Python's flooring ones, negative positions included. */
  function Row(loc: Loc): int {
    loc / (BoardWidth + 2)
  }

  function Column(loc: Loc): int {
    loc % (BoardWidth + 2)
  }

  /** A cell of the playable board (not a sentinel column). */
  predicate OnBoard(loc: Loc) {
    0 <= loc < (BoardWidth + 2) * BoardHeight && Column(loc) < BoardWidth
  }

  /** The custom player's `score`: own liberties minus the opponent's. */
  function LibertyDifference(s: State, p: PlayerId): (r: int)
    ensures r + LibertyCount(s, 1 - p) == LibertyCount(s, p)
  {
    LibertyCount(s, p) - LibertyCount(s, 1 - p)
  }

  /** `distance(state)`: the smallest of four "distances to a wall" of the
      player to move. The row is compared with the width bound and the column
      with the height bound, exactly as the code does. */
  function Distance(s: State): (r: int)
    ensures var loc := s.locs(SideToMove(s));
      && r <= Row(loc) && r <= BoardWidth + 1 - Row(loc)
      && r <= Column(loc) && r <= BoardHeight - 1 - Column(loc)
      && (r == Row(loc) || r == BoardWidth + 1 - Row(loc)
          || r == Column(loc) || r == BoardHeight - 1 - Column(loc))
  {
    var loc := s.locs(SideToMove(s));
    var x, y := Row(loc), Column(loc);
    IntMin(IntMin(x, BoardWidth + 1 - x), IntMin(y, BoardHeight - 1 - y))
  }

  function IntMin(a: int, b: int): int {
    if a <= b then a else b
  }

  /** The utility module's `score(state, play_id)`: liberties are counted for
      `p` and `1 - p`, the weighting is decided by `distance`, which looks at
      the player to move. Near a wall it is the plain liberty difference;
      elsewhere it never falls below it. */
  function WeightedScore(s: State, p: PlayerId): (r: int)
    ensures r >= LibertyDifference(s, p)
    ensures Distance(s) < 2 ==> r == LibertyDifference(s, p)
  {
    if Distance(s) >= 2 then 2 * LibertyCount(s, p) - LibertyCount(s, 1 - p)
    else LibertyCount(s, p) - LibertyCount(s, 1 - p)
  }

  /** The opening book's `score(state)`: the same formula, from the point of
      view of the player to move. */
  function BookScore(s: State): (r: int)
    ensures var p := SideToMove(s);
      r == LibertyCount(s, p) - LibertyCount(s, 1 - p) + (if Distance(s) >= 2 then LibertyCount(s, p) else 0)
  {
    WeightedScore(s, SideToMove(s))
  }

  /** The weighted score is the plain liberty difference plus a bonus of the
      own liberty count exactly when the player to move is at distance two
      or more; so it never falls below the plain difference. */
  lemma WeightedScoreAddsBonus(s: State, p: PlayerId)
    ensures WeightedScore(s, p) == LibertyDifference(s, p)
                                   + (if Distance(s) >= 2 then LibertyCount(s, p) else 0)
    ensures WeightedScore(s, p) >= LibertyDifference(s, p)
    ensures WeightedScore(s, p) == LibertyDifference(s, p) <==> Distance(s) < 2 || LibertyCount(s, p) == 0
  {
  }

  /** The plain score is antisymmetric between the two players. */
  lemma LibertyDifferenceAntisymmetric(s: State, p: PlayerId)
    ensures LibertyDifference(s, p) == -LibertyDifference(s, 1 - p)
  {
  }

  /** The cells where the doubled weight applies: rows 2 to `W - 1` and
      columns 2 to `H - 3`. */
  lemma WeightZone(s: State)
    ensures var loc := s.locs(SideToMove(s));
      Distance(s) >= 2 <==>
        2 <= Row(loc) <= BoardWidth - 1 && 2 <= Column(loc) <= BoardHeight - 3
  {
  }

  /** Because rows and columns are compared with each other's bounds, a
      player to move standing in a playable column at or beyond `H` is at a
      negative "distance", although it is on the board. */
  lemma DistanceNegativeOnRightColumns(s: State)
    requires OnBoard(s.locs(SideToMove(s)))
    requires Column(s.locs(SideToMove(s))) >= BoardHeight
    ensures Distance(s) < 0
  {
  }
}
