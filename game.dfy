/** Search values. The Python search mixes integer heuristic scores with the
    floats `float("-inf")` / `float("inf")` (initial values, and the utilities of
    finished games); `Ext` is exactly that value domain. */
module Values {

  datatype Ext = NegInf | Fin(n: int) | PosInf

  /** Python's `None` or a value. */
  datatype Option<T> = None | Some(value: T)

  /** Python's `a <= b` on these values. */
  predicate Le(a: Ext, b: Ext) {
    a.NegInf? || b.PosInf? || (a.Fin? && b.Fin? && a.n <= b.n)
  }

  /** Python's `a < b` on these values. */
  predicate Lt(a: Ext, b: Ext) {
    !Le(b, a)
  }

  /** Python's `max(a, b)`: the first argument unless the second is larger. */
  function Max(a: Ext, b: Ext): (r: Ext)
    ensures Le(a, r) && Le(b, r)
    ensures r == a || r == b
  {
    if Le(b, a) then a else b
  }

  /** Python's `min(a, b)`: the first argument unless the second is smaller. */
  function Min(a: Ext, b: Ext): (r: Ext)
    ensures Le(r, a) && Le(r, b)
    ensures r == a || r == b
  {
    if Le(a, b) then a else b
  }
}

/** The game interface the search engines consume (the Isolation library,
    which is not part of this model). A state is a finite game tree: each legal
    action, in the order `actions()` lists it, leads to its successor state. */
module Game {
  import opened Values

  type Action = int
  type Loc = int
  /** The occupancy bitboard, an integer in Python. */
  type Board = int
  type PlayerId = p: int | 0 <= p <= 1

  datatype Move = Move(action: Action, next: State)

  datatype State = State(
    board: Board,
    plyCount: nat,
    locs: PlayerId -> Loc,         // state.locs[player_id]
    liberties: Loc -> seq<Loc>,    // state.liberties(loc)
    utility: PlayerId -> Ext,      // state.utility(player_id)
    moves: seq<Move>)              // state.actions() with state.result(action)

  /** `state.actions()`, in enumeration order. */
  function Actions(s: State): (acts: seq<Action>)
    ensures |acts| == |s.moves|
    ensures forall i :: 0 <= i < |s.moves| ==> acts[i] == s.moves[i].action
  {
    seq(|s.moves|, i requires 0 <= i < |s.moves| => s.moves[i].action)
  }

  /** `state.terminal_test()`: the game is over exactly when the player to move
      has no legal action. */
  predicate Terminal(s: State) {
    |s.moves| == 0
  }

  /** `state.player()`: the player to move. */
  function SideToMove(s: State): PlayerId {
    s.plyCount % 2
  }

  function Utility(s: State, p: PlayerId): Ext {
    s.utility(p)
  }

  /** `len(state.liberties(state.locs[p]))`. */
  function LibertyCount(s: State, p: PlayerId): nat {
    |s.liberties(s.locs(p))|
  }

  /** `state._has_liberties(p)`. */
  predicate HasLiberties(s: State, p: PlayerId) {
    LibertyCount(s, p) > 0
  }

  /** The length of the longest line of play from `s`. */
  function Height(s: State): nat
    decreases s, |s.moves| + 1
  {
    HeightFrom(s, 0)
  }

  /** One more than the largest height among the successors `i..` of `s`. */
  function HeightFrom(s: State, i: nat): nat
    requires i <= |s.moves|
    decreases s, |s.moves| - i
  {
    if i == |s.moves| then 0
    else
      var h := 1 + Height(s.moves[i].next);
      var t := HeightFrom(s, i + 1);
      if h < t then t else h
  }

  lemma {:induction false} HeightFromBound(s: State, i: nat, k: nat)
    requires i <= k < |s.moves|
    ensures Height(s.moves[k].next) < HeightFrom(s, i)
    decreases k - i
  {
    if i < k {
      HeightFromBound(s, i + 1, k);
    }
  }

  /** `state.result(action)`: the successor through the first move labelled
      `action`; it is strictly shorter than `s`. */
  function Result(s: State, a: Action): (r: State)
    requires a in Actions(s)
    ensures Height(r) < Height(s)
  {
    var i := FirstIndex(Actions(s), a);
    HeightFromBound(s, 0, i);
    s.moves[i].next
  }

  function FirstIndex(acts: seq<Action>, a: Action): (i: nat)
    requires a in acts
    ensures i < |acts| && acts[i] == a
    ensures forall j :: 0 <= j < i ==> acts[j] != a
  {
    if acts[0] == a then 0 else 1 + FirstIndex(acts[1..], a)
  }

  predicate Distinct(acts: seq<Action>) {
    forall i, j :: 0 <= i < j < |acts| ==> acts[i] != acts[j]
  }

  /** `path` is a sequence of legal actions from `s`. */
  ghost predicate IsLine(s: State, path: seq<Action>)
    decreases |path|
  {
    path == [] || (path[0] in Actions(s) && IsLine(Result(s, path[0]), path[1..]))
  }

  /** The state reached from `s` by playing `path`. */
  ghost function Play(s: State, path: seq<Action>): State
    requires IsLine(s, path)
    decreases |path|
  {
    if path == [] then s else Play(Result(s, path[0]), path[1..])
  }

  lemma {:induction false} PlayExtend(s: State, path: seq<Action>, a: Action)
    requires IsLine(s, path) && a in Actions(Play(s, path))
    ensures IsLine(s, path + [a])
    ensures Play(s, path + [a]) == Result(Play(s, path), a)
    decreases |path|
  {
    if path == [] {
      assert path + [a] == [a];
    } else {
      assert (path + [a])[1..] == path[1..] + [a];
      PlayExtend(Result(s, path[0]), path[1..], a);
    }
  }
}
