/** Depth-limited alpha-beta search, as written (three times, nearly
    identically) in the custom player, the opening-book builder and the utility
    module: the nested `min_value` / `max_value` pair and the root loop.

    The copies differ in how a leaf is valued (`Evaluator`) and in the root's
    comparison (`TieBreak`); everything else is shared. Each search is given
    twice: as functions (`AbMax`, `AbMin` and their scans), which are what
    lemmas reason about, and as the loops of the source (`MaxValue`,
    `MinValue`, `AlphaBetaSearch`), which are proved to compute them. */
module AlphaBeta {
  import opened Values
  import opened Game
  import opened Heuristics

  /** How each copy values a state where the search stops. */
  datatype Evaluator =
    | CustomEval(playerId: PlayerId)  // utility(self.player_id); liberty difference
    | BookEval                        // utility(state.ply_count % 2); book score
    | UtilsEval(playId: PlayerId)     // utility(play_id); weighted score of play_id

  /** The root's comparison against the best score so far:
      `v > best_score` (Strict) or `v >= best_score` (Lenient). */
  datatype TieBreak = Strict | Lenient

  /** The value returned at a terminal state. */
  function TerminalValue(e: Evaluator, s: State): Ext {
    match e
    case CustomEval(p) => Utility(s, p)
    case BookEval => Utility(s, SideToMove(s))
    case UtilsEval(p) => Utility(s, p)
  }

  /** The value returned when the depth budget is spent. */
  function CutoffValue(e: Evaluator, s: State): Ext {
    match e
    case CustomEval(p) => Fin(LibertyDifference(s, p))
    case BookEval => Fin(BookScore(s))
    case UtilsEval(p) => Fin(WeightedScore(s, p))
  }

  /** The custom player's cut-off value is its liberty difference, and the
      two players' cut-off values are each other's negation: the custom
      evaluation is zero-sum. */
  lemma CustomCutoffZeroSum(s: State, p: PlayerId)
    ensures CutoffValue(CustomEval(p), s) == Fin(LibertyDifference(s, p))
    ensures CutoffValue(CustomEval(p), s) == Fin(-CutoffValue(CustomEval(1 - p), s).n)
  {
    LibertyDifferenceAntisymmetric(s, p);
  }

  /** `state.result(state.actions()[i])`. */
  function Succ(s: State, i: nat): (r: State)
    requires i < |s.moves|
    ensures Height(r) < Height(s)
  {
    Result(s, Actions(s)[i])
  }

  // ---------------------------------------------------------------------------
  // The specification: depth-limited minimax.

  /** The depth-limited minimax value of `s`, maximising or minimising. */
  function Minimax(e: Evaluator, s: State, depth: int, maximizing: bool): Ext
    decreases Height(s), 1, 0
  {
    if Terminal(s) then TerminalValue(e, s)
    else if depth <= 0 then CutoffValue(e, s)
    else Best(e, s, |s.moves|, depth, maximizing)
  }

  /** The minimax value of successor `i`, searched one ply shallower by the
      other side. */
  function ChildValue(e: Evaluator, s: State, i: nat, depth: int, maximizing: bool): Ext
    requires i < |s.moves|
    decreases Height(s), 0, 0
  {
    Minimax(e, Succ(s, i), depth - 1, !maximizing)
  }

  /** The best child value among the first `n` successors (starting from
      -inf for the maximiser, +inf for the minimiser). */
  function Best(e: Evaluator, s: State, n: nat, depth: int, maximizing: bool): Ext
    requires n <= |s.moves|
    decreases Height(s), 0, n
  {
    if n == 0 then (if maximizing then NegInf else PosInf)
    else if maximizing then Max(Best(e, s, n - 1, depth, maximizing), ChildValue(e, s, n - 1, depth, maximizing))
    else Min(Best(e, s, n - 1, depth, maximizing), ChildValue(e, s, n - 1, depth, maximizing))
  }

  lemma {:induction false} BestBound(e: Evaluator, s: State, depth: int, maximizing: bool, i: nat, n: nat)
    requires i < n <= |s.moves|
    ensures maximizing ==> Le(ChildValue(e, s, i, depth, maximizing), Best(e, s, n, depth, maximizing))
    ensures !maximizing ==> Le(Best(e, s, n, depth, maximizing), ChildValue(e, s, i, depth, maximizing))
    decreases n
  {
    if i < n - 1 {
      BestBound(e, s, depth, maximizing, i, n - 1);
    }
  }

  // ---------------------------------------------------------------------------
  // The search, as functions.

  /** `max_value(state, alpha, beta, depth)`. */
  function AbMax(e: Evaluator, s: State, alpha: Ext, beta: Ext, depth: int): Ext
    decreases Height(s), 1, 0
  {
    if Terminal(s) then TerminalValue(e, s)
    else if depth <= 0 then CutoffValue(e, s)
    else MaxScan(e, s, 0, NegInf, alpha, beta, depth)
  }

  /** The loop of `max_value` from action `i` on, with running `value` v. */
  function MaxScan(e: Evaluator, s: State, i: nat, v: Ext, alpha: Ext, beta: Ext, depth: int): Ext
    requires i <= |s.moves|
    decreases Height(s), 0, |s.moves| - i
  {
    if i == |s.moves| then v
    else
      var v' := Max(v, AbMin(e, Succ(s, i), alpha, beta, depth - 1));
      if Le(beta, v') then v'
      else MaxScan(e, s, i + 1, v', Max(alpha, v'), beta, depth)
  }

  /** `min_value(state, alpha, beta, depth)`. */
  function AbMin(e: Evaluator, s: State, alpha: Ext, beta: Ext, depth: int): Ext
    decreases Height(s), 1, 0
  {
    if Terminal(s) then TerminalValue(e, s)
    else if depth <= 0 then CutoffValue(e, s)
    else MinScan(e, s, 0, PosInf, alpha, beta, depth)
  }

  /** The loop of `min_value` from action `i` on, with running `value` v. */
  function MinScan(e: Evaluator, s: State, i: nat, v: Ext, alpha: Ext, beta: Ext, depth: int): Ext
    requires i <= |s.moves|
    decreases Height(s), 0, |s.moves| - i
  {
    if i == |s.moves| then v
    else
      var v' := Min(v, AbMax(e, Succ(s, i), alpha, beta, depth - 1));
      if Le(v', alpha) then v'
      else MinScan(e, s, i + 1, v', alpha, Min(beta, v'), depth)
  }

  // ---------------------------------------------------------------------------
  // Fail-soft correctness.

  /** What a fail-soft search with window (alpha, beta) promises about its
      result `r` and the true value `m`: exact inside the window, an upper
      bound when it fails low, a lower bound when it fails high. */
  predicate FailSoft(r: Ext, m: Ext, alpha: Ext, beta: Ext) {
    && (Lt(alpha, r) && Lt(r, beta) ==> r == m)
    && (Le(r, alpha) ==> Le(m, r))
    && (Le(beta, r) ==> Le(r, m))
  }

  lemma {:induction false} MaxWindow(e: Evaluator, s: State, alpha: Ext, beta: Ext, depth: int)
    requires Lt(alpha, beta)
    ensures FailSoft(AbMax(e, s, alpha, beta, depth), Minimax(e, s, depth, true), alpha, beta)
    decreases Height(s), 1, 0
  {
    if !Terminal(s) && depth > 0 {
      MaxScanWindow(e, s, 0, NegInf, alpha, alpha, beta, depth);
    }
  }

  lemma {:induction false} MinWindow(e: Evaluator, s: State, alpha: Ext, beta: Ext, depth: int)
    requires Lt(alpha, beta)
    ensures FailSoft(AbMin(e, s, alpha, beta, depth), Minimax(e, s, depth, false), alpha, beta)
    decreases Height(s), 1, 0
  {
    if !Terminal(s) && depth > 0 {
      MinScanWindow(e, s, 0, PosInf, alpha, beta, beta, depth);
    }
  }

  /** The loop invariant of `max_value`: the running value bounds the best of
      the children seen so far from above, and equals it once above alpha. */
  lemma {:induction false} MaxScanWindow(e: Evaluator, s: State, i: nat, v: Ext,
                                         alpha0: Ext, alpha: Ext, beta: Ext, depth: int)
    requires i <= |s.moves|
    requires Lt(alpha0, beta) && alpha == Max(alpha0, v) && Lt(v, beta)
    requires Le(Best(e, s, i, depth, true), v)
    requires Lt(alpha0, v) ==> Le(v, Best(e, s, i, depth, true))
    ensures FailSoft(MaxScan(e, s, i, v, alpha, beta, depth), Best(e, s, |s.moves|, depth, true), alpha0, beta)
    decreases Height(s), 0, |s.moves| - i
  {
    if i < |s.moves| {
      var r := AbMin(e, Succ(s, i), alpha, beta, depth - 1);
      MinWindow(e, Succ(s, i), alpha, beta, depth - 1);
      var v' := Max(v, r);
      if Le(beta, v') {
        BestBound(e, s, depth, true, i, |s.moves|);
      } else {
        MaxScanWindow(e, s, i + 1, v', alpha0, Max(alpha, v'), beta, depth);
      }
    }
  }

  lemma {:induction false} MinScanWindow(e: Evaluator, s: State, i: nat, v: Ext,
                                         alpha: Ext, beta0: Ext, beta: Ext, depth: int)
    requires i <= |s.moves|
    requires Lt(alpha, beta0) && beta == Min(beta0, v) && Lt(alpha, v)
    requires Le(v, Best(e, s, i, depth, false))
    requires Lt(v, beta0) ==> Le(Best(e, s, i, depth, false), v)
    ensures FailSoft(MinScan(e, s, i, v, alpha, beta, depth), Best(e, s, |s.moves|, depth, false), alpha, beta0)
    decreases Height(s), 0, |s.moves| - i
  {
    if i < |s.moves| {
      var r := AbMax(e, Succ(s, i), alpha, beta, depth - 1);
      MaxWindow(e, Succ(s, i), alpha, beta, depth - 1);
      var v' := Min(v, r);
      if Le(v', alpha) {
        BestBound(e, s, depth, false, i, |s.moves|);
      } else {
        MinScanWindow(e, s, i + 1, v', alpha, beta0, Min(beta, v'), depth);
      }
    }
  }

  /** Searched with the full window (-inf, +inf), both procedures return the
      exact depth-limited minimax value. */
  lemma FullWindowIsMinimax(e: Evaluator, s: State, depth: int)
    ensures AbMax(e, s, NegInf, PosInf, depth) == Minimax(e, s, depth, true)
    ensures AbMin(e, s, NegInf, PosInf, depth) == Minimax(e, s, depth, false)
  {
    MaxWindow(e, s, NegInf, PosInf, depth);
    MinWindow(e, s, NegInf, PosInf, depth);
  }

  // ---------------------------------------------------------------------------
  // The search, as the loops of the source.

  /** One iteration of the `max_value` loop. */
  lemma MaxScanStep(e: Evaluator, s: State, i: nat, v: Ext, alpha: Ext, beta: Ext, depth: int, child: Ext)
    requires i < |s.moves| && child == AbMin(e, Succ(s, i), alpha, beta, depth - 1)
    ensures MaxScan(e, s, i, v, alpha, beta, depth)
            == if Le(beta, Max(v, child)) then Max(v, child)
               else MaxScan(e, s, i + 1, Max(v, child), Max(alpha, Max(v, child)), beta, depth)
  {
  }

  /** One iteration of the `min_value` loop. */
  lemma MinScanStep(e: Evaluator, s: State, i: nat, v: Ext, alpha: Ext, beta: Ext, depth: int, child: Ext)
    requires i < |s.moves| && child == AbMax(e, Succ(s, i), alpha, beta, depth - 1)
    ensures MinScan(e, s, i, v, alpha, beta, depth)
            == if Le(Min(v, child), alpha) then Min(v, child)
               else MinScan(e, s, i + 1, Min(v, child), alpha, Min(beta, Min(v, child)), depth)
  {
  }

  /** `max_value` as a loop. Its `return value` on a cutoff becomes a
      `break` to the single exit, which returns the same value. */
  method MaxValue(e: Evaluator, s: State, alpha: Ext, beta: Ext, depth: int) returns (r: Ext)
    ensures r == AbMax(e, s, alpha, beta, depth)
    ensures Lt(alpha, beta) ==> FailSoft(r, Minimax(e, s, depth, true), alpha, beta)
    decreases Height(s), 1
  {
    if Terminal(s) {
      r := TerminalValue(e, s);
    } else if depth <= 0 {
      r := CutoffValue(e, s);
    } else {
      var value := NegInf;
      var a := alpha;
      var acts := Actions(s);
      for i := 0 to |acts|
        invariant MaxScan(e, s, i, value, a, beta, depth) == AbMax(e, s, alpha, beta, depth)
      {
        var child := MinValue(e, Result(s, acts[i]), a, beta, depth - 1);
        MaxScanStep(e, s, i, value, a, beta, depth, child);
        value := Max(value, child);
        if Le(beta, value) {
          break;
        }
        a := Max(a, value);
      }
      r := value;
    }
    if Lt(alpha, beta) {
      MaxWindow(e, s, alpha, beta, depth);
    }
  }

  /** `min_value`, the dual loop. */
  method MinValue(e: Evaluator, s: State, alpha: Ext, beta: Ext, depth: int) returns (r: Ext)
    ensures r == AbMin(e, s, alpha, beta, depth)
    ensures Lt(alpha, beta) ==> FailSoft(r, Minimax(e, s, depth, false), alpha, beta)
    decreases Height(s), 1
  {
    if Terminal(s) {
      r := TerminalValue(e, s);
    } else if depth <= 0 {
      r := CutoffValue(e, s);
    } else {
      var value := PosInf;
      var b := beta;
      var acts := Actions(s);
      for i := 0 to |acts|
        invariant MinScan(e, s, i, value, alpha, b, depth) == AbMin(e, s, alpha, beta, depth)
      {
        var child := MaxValue(e, Result(s, acts[i]), alpha, b, depth - 1);
        MinScanStep(e, s, i, value, alpha, b, depth, child);
        value := Min(value, child);
        if Le(value, alpha) {
          break;
        }
        b := Min(b, value);
      }
      r := value;
    }
    if Lt(alpha, beta) {
      MinWindow(e, s, alpha, beta, depth);
    }
  }

  // ---------------------------------------------------------------------------
  // The root loop.

  /** The value `min_value` returns for successor `k` at the root, where
      `alpha` is then the best of the first `k` child values. */
  function Returned(e: Evaluator, s: State, k: nat, depth: int): Ext
    requires k < |s.moves|
  {
    AbMin(e, Succ(s, k), Best(e, s, k, depth, true), PosInf, depth - 1)
  }

  /** Whether the root's comparison lets successor `k` replace the best move. */
  predicate Rises(e: Evaluator, tie: TieBreak, s: State, depth: int, k: nat)
    requires k < |s.moves|
  {
    if tie == Strict then Lt(Best(e, s, k, depth, true), Returned(e, s, k, depth))
    else Le(Best(e, s, k, depth, true), Returned(e, s, k, depth))
  }

  /** The index of `best_move` after the root loop has seen the first `n`
      actions: the last one the comparison let through. */
  function RootPick(e: Evaluator, tie: TieBreak, s: State, depth: int, n: nat): (j: Option<nat>)
    requires n <= |s.moves|
    ensures j.Some? ==> j.value < n
  {
    if n == 0 then None
    else if Rises(e, tie, s, depth, n - 1) then Some(n - 1)
    else RootPick(e, tie, s, depth, n - 1)
  }

  /** One iteration of the root loop's choice. */
  lemma RootPickStep(e: Evaluator, tie: TieBreak, s: State, depth: int, n: nat)
    requires 0 < n <= |s.moves|
    ensures RootPick(e, tie, s, depth, n)
            == if Rises(e, tie, s, depth, n - 1) then Some(n - 1) else RootPick(e, tie, s, depth, n - 1)
  {
  }

  /** `best_move` after the root loop has seen the first `n` actions. */
  function ChoiceAfter(e: Evaluator, tie: TieBreak, s: State, depth: int, n: nat): Option<Action>
    requires n <= |s.moves|
  {
    match RootPick(e, tie, s, depth, n)
    case None => None
    case Some(j) => Some(Actions(s)[j])
  }

  /** The action `alpha_beta_search` returns. */
  function RootChoice(e: Evaluator, tie: TieBreak, s: State, depth: int): Option<Action> {
    ChoiceAfter(e, tie, s, depth, |s.moves|)
  }

  /** One step of the root loop: `alpha` stays the best child value so far,
      and a returned value beats it exactly when the child's value does. */
  lemma RootStep(e: Evaluator, s: State, depth: int, k: nat)
    requires k < |s.moves|
    ensures Max(Best(e, s, k, depth, true), Returned(e, s, k, depth)) == Best(e, s, k + 1, depth, true)
    ensures Lt(Best(e, s, k, depth, true), Returned(e, s, k, depth))
            <==> Lt(Best(e, s, k, depth, true), ChildValue(e, s, k, depth, true))
    ensures Lt(Best(e, s, k, depth, true), Returned(e, s, k, depth))
            ==> Returned(e, s, k, depth) == ChildValue(e, s, k, depth, true)
  {
    var b := Best(e, s, k, depth, true);
    if b != PosInf {
      MinWindow(e, Succ(s, k), b, PosInf, depth - 1);
    }
  }

  /** Every one of the first `n` child values is -inf. */
  predicate AllLost(e: Evaluator, s: State, depth: int, n: nat)
    requires n <= |s.moves|
  {
    forall j :: 0 <= j < n ==> ChildValue(e, s, j, depth, true) == NegInf
  }

  lemma {:induction false} BestIsNegInf(e: Evaluator, s: State, depth: int, n: nat)
    requires n <= |s.moves|
    ensures Best(e, s, n, depth, true) == NegInf <==> AllLost(e, s, depth, n)
  {
    if n > 0 {
      BestIsNegInf(e, s, depth, n - 1);
      var b, c := Best(e, s, n - 1, depth, true), ChildValue(e, s, n - 1, depth, true);
      assert Best(e, s, n, depth, true) == Max(b, c);
      assert Max(b, c) == NegInf <==> b == NegInf && c == NegInf;
      assert AllLost(e, s, depth, n) <==> AllLost(e, s, depth, n - 1) && c == NegInf;
    }
  }

  /** With `>`, the root picks nothing exactly when every child value is -inf
      (in particular when there is no action). */
  lemma {:induction false} StrictPicksNoneIffAllLost(e: Evaluator, s: State, depth: int, n: nat)
    requires n <= |s.moves|
    ensures RootPick(e, Strict, s, depth, n).None?
            <==> Best(e, s, n, depth, true) == NegInf
  {
    if n > 0 {
      StrictPicksNoneIffAllLost(e, s, depth, n - 1);
      RootStep(e, s, depth, n - 1);
      RootPickStep(e, Strict, s, depth, n);
    }
  }

  /** Successor `j`'s child value is the maximum, and no earlier child
      reaches it. */
  predicate IsFirstBest(e: Evaluator, s: State, depth: int, j: nat)
    requires j < |s.moves|
  {
    && ChildValue(e, s, j, depth, true) == Best(e, s, |s.moves|, depth, true)
    && forall k :: 0 <= k < j ==> Lt(ChildValue(e, s, k, depth, true), ChildValue(e, s, j, depth, true))
  }

  /** With `>`, the root picks the first successor whose child value is the
      maximum. */
  lemma {:induction false} StrictPicksFirstBest(e: Evaluator, s: State, depth: int, n: nat)
    requires n <= |s.moves|
    ensures RootPick(e, Strict, s, depth, n).Some? ==>
      var j := RootPick(e, Strict, s, depth, n).value;
      && ChildValue(e, s, j, depth, true) == Best(e, s, n, depth, true)
      && forall k :: 0 <= k < j ==> Lt(ChildValue(e, s, k, depth, true), ChildValue(e, s, j, depth, true))
  {
    if n > 0 {
      RootStep(e, s, depth, n - 1);
      if Rises(e, Strict, s, depth, n - 1) {
        forall k | 0 <= k < n - 1
          ensures Lt(ChildValue(e, s, k, depth, true), ChildValue(e, s, n - 1, depth, true))
        {
          BestBound(e, s, depth, true, k, n - 1);
        }
      } else {
        StrictPicksFirstBest(e, s, depth, n - 1);
      }
    }
  }

  /** With `>=`, the root picks nothing only when there is no action. */
  lemma {:induction false} LenientPicksNoneIffNoAction(e: Evaluator, s: State, depth: int, n: nat)
    requires n <= |s.moves|
    ensures RootPick(e, Lenient, s, depth, n).None? <==> n == 0
  {
    if n > 1 {
      LenientPicksNoneIffNoAction(e, s, depth, n - 1);
    }
  }

  /** Successor `j` is the last whose returned value reaches the best so
      far. That value is the best child value; the child's own value is the
      best too unless it merely tied. */
  predicate IsLastRise(e: Evaluator, s: State, depth: int, j: nat)
    requires j < |s.moves|
  {
    && Le(Best(e, s, j, depth, true), Returned(e, s, j, depth))
    && Returned(e, s, j, depth) == Best(e, s, |s.moves|, depth, true)
    && (Lt(Best(e, s, j, depth, true), Returned(e, s, j, depth))
        ==> ChildValue(e, s, j, depth, true) == Best(e, s, |s.moves|, depth, true))
    && forall k :: j < k < |s.moves| ==> !Rises(e, Lenient, s, depth, k)
  }

  /** The root keeps the last successor its comparison lets through. */
  lemma {:induction false} PickIsLastRise(e: Evaluator, tie: TieBreak, s: State, depth: int, n: nat)
    requires n <= |s.moves|
    ensures RootPick(e, tie, s, depth, n).Some? ==>
      var j := RootPick(e, tie, s, depth, n).value;
      && Rises(e, tie, s, depth, j)
      && forall k :: j < k < n ==> !Rises(e, tie, s, depth, k)
  {
    if n > 0 {
      RootPickStep(e, tie, s, depth, n);
      if !Rises(e, tie, s, depth, n - 1) {
        assert RootPick(e, tie, s, depth, n) == RootPick(e, tie, s, depth, n - 1);
        PickIsLastRise(e, tie, s, depth, n - 1);
        if RootPick(e, tie, s, depth, n).Some? {
          var j := RootPick(e, tie, s, depth, n).value;
          forall k | j < k < n
            ensures !Rises(e, tie, s, depth, k)
          {
          }
        }
      }
    }
  }

  /** With `>=`, the returned value of the picked successor is the best
      child value, and so is the child's own value unless it merely tied. */
  lemma {:induction false} LenientPicksLastRise(e: Evaluator, s: State, depth: int, n: nat)
    requires n <= |s.moves|
    ensures RootPick(e, Lenient, s, depth, n).Some? ==>
      var j := RootPick(e, Lenient, s, depth, n).value;
      && Returned(e, s, j, depth) == Best(e, s, n, depth, true)
      && (Lt(Best(e, s, j, depth, true), Returned(e, s, j, depth))
          ==> ChildValue(e, s, j, depth, true) == Best(e, s, n, depth, true))
  {
    if n > 0 {
      var k := n - 1;
      RootStep(e, s, depth, k);
      var b, r := Best(e, s, k, depth, true), Returned(e, s, k, depth);
      if Rises(e, Lenient, s, depth, k) {
        assert RootPick(e, Lenient, s, depth, n) == Some(k);
        assert Max(b, r) == r;
      } else {
        assert RootPick(e, Lenient, s, depth, n) == RootPick(e, Lenient, s, depth, k);
        LenientPicksLastRise(e, s, depth, k);
        assert Max(b, r) == b;
      }
    }
  }

  /** The custom player's root contract: no move exactly when every child
      value is -inf (or there is no action), else the first best move. */
  lemma StrictRootContract(e: Evaluator, s: State, depth: int)
    ensures RootChoice(e, Strict, s, depth).None?
            <==> forall j :: 0 <= j < |s.moves| ==> ChildValue(e, s, j, depth, true) == NegInf
    ensures RootChoice(e, Strict, s, depth).Some? ==>
      exists j :: 0 <= j < |s.moves| && RootChoice(e, Strict, s, depth).value == Actions(s)[j]
                  && IsFirstBest(e, s, depth, j)
  {
    var n := |s.moves|;
    StrictPicksNoneIffAllLost(e, s, depth, n);
    BestIsNegInf(e, s, depth, n);
    StrictPicksFirstBest(e, s, depth, n);
    if RootPick(e, Strict, s, depth, n).Some? {
      var j := RootPick(e, Strict, s, depth, n).value;
      assert IsFirstBest(e, s, depth, j);
    }
  }

  /** The root contract of the two `>=` copies: no move exactly when there is
      no action, else the last move whose returned value reached the best. */
  lemma LenientRootContract(e: Evaluator, s: State, depth: int)
    ensures RootChoice(e, Lenient, s, depth).None? <==> Terminal(s)
    ensures RootChoice(e, Lenient, s, depth).Some? ==>
      exists j :: 0 <= j < |s.moves| && RootChoice(e, Lenient, s, depth).value == Actions(s)[j]
                  && IsLastRise(e, s, depth, j)
  {
    var n := |s.moves|;
    LenientPicksNoneIffNoAction(e, s, depth, n);
    PickIsLastRise(e, Lenient, s, depth, n);
    LenientPicksLastRise(e, s, depth, n);
    if RootPick(e, Lenient, s, depth, n).Some? {
      var j := RootPick(e, Lenient, s, depth, n).value;
      assert IsLastRise(e, s, depth, j);
    }
  }

  /** A finished game worth `u` to both players. */
  function Leaf(u: int): (s: State)
    ensures Terminal(s) && forall p: PlayerId :: Utility(s, p) == Fin(u)
  {
    State(0, 0, (p: PlayerId) => 0, (l: Loc) => [], (p: PlayerId) => Fin(u), [])
  }

  /** Two replies: action 0 leads to a position worth 5, action 1 to one
      where the opponent may choose 5 or 3. */
  function TieTrap(): (s: State)
    ensures |s.moves| == 2
  {
    var a := State(1, 1, (p: PlayerId) => 0, (l: Loc) => [], (p: PlayerId) => Fin(0), [Move(0, Leaf(5))]);
    var b := State(2, 1, (p: PlayerId) => 0, (l: Loc) => [], (p: PlayerId) => Fin(0), [Move(0, Leaf(5)), Move(1, Leaf(3))]);
    State(0, 0, (p: PlayerId) => 0, (l: Loc) => [], (p: PlayerId) => Fin(0), [Move(0, a), Move(1, b)])
  }

  /** With `>=`, a fail-low reply that ties the best so far replaces the
      best move: the root returns action 1, whose value is 3, although
      action 0 is worth 5; with `>` it returns action 0. */
  lemma LenientMayPickWeakerMove(e: Evaluator)
    ensures ChildValue(e, TieTrap(), 0, 2, true) == Fin(5)
    ensures ChildValue(e, TieTrap(), 1, 2, true) == Fin(3)
    ensures RootChoice(e, Lenient, TieTrap(), 2) == Some(1)
    ensures RootChoice(e, Strict, TieTrap(), 2) == Some(0)
  {
    var s := TieTrap();
    var a, b := s.moves[0].next, s.moves[1].next;
    assert Succ(s, 0) == a && Succ(s, 1) == b;
    assert Succ(a, 0) == Leaf(5);
    assert Succ(b, 0) == Leaf(5) && Succ(b, 1) == Leaf(3);
    assert Minimax(e, Leaf(5), 0, true) == Fin(5);
    assert Minimax(e, Leaf(3), 0, true) == Fin(3);
    assert Best(e, a, 1, 1, false) == Fin(5);
    assert Best(e, b, 2, 1, false) == Fin(3);
    assert Best(e, s, 1, 2, true) == Fin(5);
    assert AbMax(e, Leaf(5), Fin(5), PosInf, 0) == Fin(5);
    assert MinScan(e, b, 0, PosInf, Fin(5), PosInf, 1) == Fin(5);
    assert Returned(e, s, 1, 2) == Fin(5);
    assert AbMax(e, Leaf(5), NegInf, PosInf, 0) == Fin(5);
    assert MinScan(e, a, 0, PosInf, NegInf, PosInf, 1) == Fin(5);
    assert Returned(e, s, 0, 2) == Fin(5);
  }

  /** `alpha_beta_search`: the root loop shared by the three copies. */
  method AlphaBetaSearch(e: Evaluator, tie: TieBreak, s: State, depth: int) returns (move: Option<Action>)
    ensures move == RootChoice(e, tie, s, depth)
  {
    var alpha := NegInf;
    var beta := PosInf;
    var bestScore := NegInf;
    move := None;
    var acts := Actions(s);
    for i := 0 to |acts|
      invariant alpha == bestScore == Best(e, s, i, depth, true)
      invariant move == ChoiceAfter(e, tie, s, depth, i)
    {
      var v := MinValue(e, Result(s, acts[i]), alpha, beta, depth - 1);
      assert v == Returned(e, s, i, depth);
      RootStep(e, s, depth, i);
      alpha := Max(alpha, v);
      if (if tie == Strict then Lt(bestScore, v) else Le(bestScore, v)) {
        bestScore := v;
        move := Some(acts[i]);
      }
    }
  }
}
