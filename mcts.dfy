/** Monte Carlo tree search bookkeeping: search-tree nodes with visit and
    reward counters, the selection/expansion walk down the tree, the random
    playout, and the back-propagation of its result up the parent links.
    The UCT score is a parameter `uct(reward, visits, parentVisits)`. */
module Mcts {
  import opened Values
  import opened Game

  class Node {
    var visits: int
    var reward: int
    const state: State
    var children: seq<Node>
    var childrenActions: seq<Action>
    const parent: Node?
    /** The parent, its parent, and so on up to the root. */
    ghost const ancestors: seq<Node>

    /** `MCTS_Node(state, parent)`. */
    constructor (state: State, parent: Node?)
      ensures this.state == state && this.parent == parent
      ensures visits == 1 && reward == 0
      ensures children == [] && childrenActions == []
      ensures ancestors == if parent == null then [] else [parent] + parent.ancestors
      ensures parent == null || parent.Chained() ==> Chained()
      ensures Valid() && Bounded()
    {
      this.state := state;
      this.parent := parent;
      this.ancestors := if parent == null then [] else [parent] + parent.ancestors;
      visits := 1;
      reward := 0;
      children := [];
      childrenActions := [];
    }

    /** The ghost chain of ancestors follows the parent links. */
    ghost predicate Chained()
      decreases |ancestors|
    {
      && ancestors == (if parent == null then [] else [parent] + parent.ancestors)
      && (parent != null ==> parent.Chained())
    }

    /** The nodes from this one up to the root. */
    ghost function Path(): seq<Node> {
      [this] + ancestors
    }

    /** The two child lists run in parallel: each child was reached from
        this node's state by its action, no action was tried twice, and every
        tried action is legal here. */
    ghost predicate Valid()
      reads this
    {
      && |children| == |childrenActions|
      && Distinct(childrenActions)
      && (forall i :: 0 <= i < |childrenActions| ==> childrenActions[i] in Actions(state))
      && (forall i :: 0 <= i < |children| ==>
            children[i].parent == this && children[i].state == Result(state, childrenActions[i]))
    }

    /** Every back-propagated reward was ±1 and the first visit carried none. */
    ghost predicate Bounded()
      reads this
    {
      visits >= 1 && -(visits - 1) <= reward <= visits - 1
    }

    /** `add_child(child_state, action)`. */
    method AddChild(childState: State, action: Action)
      modifies this
      ensures |children| == |old(children)| + 1
      ensures children[..|old(children)|] == old(children)
      ensures childrenActions == old(childrenActions) + [action]
      ensures var child := children[|children| - 1];
        && fresh(child) && child.parent == this && child.state == childState
        && child.visits == 1 && child.reward == 0
        && child.children == [] && child.childrenActions == []
        && (Chained() ==> child.Chained())
      ensures visits == old(visits) && reward == old(reward)
      ensures (old(Valid()) && action in Actions(state) && action !in old(childrenActions)
               && childState == Result(state, action)) ==> Valid()
    {
      var child := new Node(childState, this);
      children := children + [child];
      childrenActions := childrenActions + [action];
    }

    /** `update(reward)`. */
    method Update(r: int)
      modifies this
      ensures visits == old(visits) + 1 && reward == old(reward) + r
      ensures children == old(children) && childrenActions == old(childrenActions)
      ensures (r == 1 || r == -1) && old(Bounded()) ==> Bounded()
    {
      reward := reward + r;
      visits := visits + 1;
    }

    /** `fully_explored()` compares two lengths; when the state's actions
        are distinct, that holds exactly when every legal action has been
        tried. */
    predicate FullyExplored()
      reads this
      ensures Valid() && Distinct(Actions(state)) ==>
        (FullyExplored() <==> forall a :: a in Actions(state) ==> a in childrenActions)
    {
      AllTriedIffSameLength(Actions(state), childrenActions);
      |childrenActions| == |Actions(state)|
    }
  }

  // ---------------------------------------------------------------------------
  // Counting tried actions.

  function Elements(xs: seq<Action>): set<Action> {
    set x | x in xs
  }

  lemma {:induction false} DistinctCard(xs: seq<Action>)
    requires Distinct(xs)
    ensures |Elements(xs)| == |xs|
  {
    if xs != [] {
      var rest := xs[1..];
      assert Distinct(rest);
      DistinctCard(rest);
      assert Elements(xs) == {xs[0]} + Elements(rest);
      assert xs[0] !in Elements(rest);
    }
  }

  /** A duplicate-free sequence drawn from `a` is no longer than `a`. */
  lemma {:induction false} DrawnFromCard(xs: seq<Action>, a: set<Action>)
    requires Distinct(xs) && forall i :: 0 <= i < |xs| ==> xs[i] in a
    ensures |xs| <= |a|
  {
    if xs != [] {
      var x := xs[0];
      assert Distinct(xs[1..]);
      DrawnFromCard(xs[1..], a - {x});
      assert a == (a - {x}) + {x};
    }
  }

  /** Distinct tried actions, all legal, are as many as the distinct legal
      actions exactly when every legal action has been tried. */
  lemma AllTriedIffSameLength(acts: seq<Action>, tried: seq<Action>)
    ensures Distinct(acts) && Distinct(tried) && (forall i :: 0 <= i < |tried| ==> tried[i] in acts) ==>
      (|tried| == |acts| <==> forall a :: a in acts ==> a in tried)
  {
    if Distinct(acts) && Distinct(tried) && (forall i :: 0 <= i < |tried| ==> tried[i] in acts) {
      DistinctCard(acts);
      DistinctCard(tried);
      if forall a :: a in acts ==> a in tried {
        DrawnFromCard(tried, Elements(acts));
        DrawnFromCard(acts, Elements(tried));
      } else {
        var i :| 0 <= i < |acts| && acts[i] !in tried;
        DrawnFromCard(tried, Elements(acts) - {acts[i]});
      }
    }
  }

  /** The first action of `acts`, from position `i` on, that is not in
      `tried`; `|acts|` when there is none. */
  function FirstUntriedFrom(acts: seq<Action>, tried: seq<Action>, i: nat): (k: nat)
    requires i <= |acts|
    ensures i <= k <= |acts|
    ensures forall j :: i <= j < k ==> acts[j] in tried
    ensures k < |acts| ==> acts[k] !in tried
    decreases |acts| - i
  {
    if i == |acts| then i
    else if acts[i] !in tried then i
    else FirstUntriedFrom(acts, tried, i + 1)
  }

  function FirstUntried(acts: seq<Action>, tried: seq<Action>): (k: nat)
    ensures k <= |acts|
    ensures forall j :: 0 <= j < k ==> acts[j] in tried
    ensures k < |acts| ==> acts[k] !in tried
  {
    FirstUntriedFrom(acts, tried, 0)
  }

  // ---------------------------------------------------------------------------
  // Expansion and selection.

  /** `expand(node)`: adds a child for the first action, in `actions()`
      order, that has not been tried; returns `None` when there is none. */
  method Expand(node: Node) returns (child: Node?)
    requires node.Valid()
    modifies node
    ensures node.Valid()
    ensures node.visits == old(node.visits) && node.reward == old(node.reward)
    ensures child == null <==> forall a :: a in Actions(node.state) ==> a in old(node.childrenActions)
    ensures child == null ==> node.children == old(node.children)
                              && node.childrenActions == old(node.childrenActions)
    ensures child != null ==>
      var k := FirstUntried(Actions(node.state), old(node.childrenActions));
      && k < |Actions(node.state)|
      && node.children == old(node.children) + [child]
      && node.childrenActions == old(node.childrenActions) + [Actions(node.state)[k]]
      && fresh(child) && child.parent == node
      && child.state == Result(node.state, Actions(node.state)[k])
      && child.visits == 1 && child.reward == 0
      && child.children == [] && child.childrenActions == []
      && (node.Chained() ==> child.Chained())
    ensures Distinct(Actions(node.state)) && !old(node.FullyExplored()) ==> child != null
  {
    var tried := node.childrenActions;
    var acts := Actions(node.state);
    if Distinct(acts) && !node.FullyExplored() {
    }
    for i := 0 to |acts|
      invariant FirstUntriedFrom(acts, tried, i) == FirstUntried(acts, tried)
    {
      if acts[i] !in tried {
        var newState := Result(node.state, acts[i]);
        node.AddChild(newState, acts[i]);
        child := node.children[|node.children| - 1];
        assert node.children == old(node.children) + [child];
        return;
      }
    }
    child := null;
  }

  /** The scores of `cs` as children of a node visited `parentVisits` times. */
  function Scores(cs: seq<Node>, parentVisits: int, uct: (int, int, int) -> real): (xs: seq<real>)
    reads cs
    ensures |xs| == |cs|
    ensures forall i :: 0 <= i < |cs| ==> xs[i] == uct(cs[i].reward, cs[i].visits, parentVisits)
  {
    if cs == [] then []
    else [uct(cs[0].reward, cs[0].visits, parentVisits)] + Scores(cs[1..], parentVisits, uct)
  }

  /** The best score among the first `n` scores; `None` stands for the
      initial `-inf`. */
  function BestScore(xs: seq<real>, n: nat): Option<real>
    requires n <= |xs|
  {
    if n == 0 then None
    else
      var b := BestScore(xs, n - 1);
      if b.None? || xs[n - 1] > b.value then Some(xs[n - 1]) else b
  }

  /** The indices of `best_children` after the first `n` scores: a tie
      with the best so far is appended, a strictly better score starts a new
      list. */
  function Ties(xs: seq<real>, n: nat): seq<nat>
    requires n <= |xs|
  {
    if n == 0 then []
    else
      var b := BestScore(xs, n - 1);
      if b == Some(xs[n - 1]) then Ties(xs, n - 1) + [n - 1]
      else if b.None? || xs[n - 1] > b.value then [n - 1]
      else Ties(xs, n - 1)
  }

  predicate IsMaximiser(xs: seq<real>, n: nat, i: nat)
    requires n <= |xs|
  {
    i < n && forall k :: 0 <= k < n ==> xs[k] <= xs[i]
  }

  /** After `n > 0` scores the best score is their maximum. */
  lemma {:induction false} BestScoreIsMax(xs: seq<real>, n: nat)
    requires 0 < n <= |xs|
    ensures BestScore(xs, n).Some?
    ensures forall k :: 0 <= k < n ==> xs[k] <= BestScore(xs, n).value
    ensures exists i :: 0 <= i < n && xs[i] == BestScore(xs, n).value
  {
    if n > 1 {
      BestScoreIsMax(xs, n - 1);
    }
  }

  /** `best_children` holds exactly the maximisers among the scores seen,
      in increasing order. */
  lemma {:induction false} TiesAreMaximisers(xs: seq<real>, n: nat)
    requires n <= |xs|
    ensures forall i: nat :: i in Ties(xs, n) <==> IsMaximiser(xs, n, i)
    ensures forall p, q :: 0 <= p < q < |Ties(xs, n)| ==> Ties(xs, n)[p] < Ties(xs, n)[q]
    ensures forall p :: 0 <= p < |Ties(xs, n)| ==> Ties(xs, n)[p] < n
    ensures n > 0 ==> |Ties(xs, n)| > 0
  {
    if n > 0 {
      TiesAreMaximisers(xs, n - 1);
      var b, x := BestScore(xs, n - 1), xs[n - 1];
      if n > 1 {
        BestScoreIsMax(xs, n - 1);
      }
      forall i: nat ensures i in Ties(xs, n) <==> IsMaximiser(xs, n, i) {
        if b == Some(x) {
          assert i in Ties(xs, n) <==> i in Ties(xs, n - 1) || i == n - 1;
        } else if b.None? || x > b.value {
          if b.Some? && i < n - 1 {
            assert xs[i] <= b.value < x;
          }
        } else {
          var k :| 0 <= k < n - 1 && xs[k] == b.value;
          assert !IsMaximiser(xs, n, n - 1);
        }
      }
    }
  }

  /** `best_child(node)`: a child whose score is the largest; the random
      choice among tied children is an arbitrary one. `j` is its position. */
  method BestChild(node: Node, uct: (int, int, int) -> real) returns (best: Node, ghost j: nat)
    requires |node.children| > 0
    ensures j < |node.children| && best == node.children[j]
    ensures IsMaximiser(Scores(node.children, node.visits, uct), |node.children|, j)
  {
    ghost var xs := Scores(node.children, node.visits, uct);
    var bestScore: Option<real> := None;
    var bestChildren: seq<Node> := [];
    ghost var bestIndices: seq<nat> := [];
    for i := 0 to |node.children|
      invariant bestScore == BestScore(xs, i)
      invariant bestIndices == Ties(xs, i)
      invariant |bestChildren| == |bestIndices|
      invariant forall p :: 0 <= p < |bestIndices| ==>
                  bestIndices[p] < i && bestChildren[p] == node.children[bestIndices[p]]
    {
      var child := node.children[i];
      var score := uct(child.reward, child.visits, node.visits);
      if bestScore == Some(score) {
        bestChildren := bestChildren + [child];
        bestIndices := bestIndices + [i];
      } else if bestScore.None? || score > bestScore.value {
        bestChildren := [child];
        bestIndices := [i];
        bestScore := Some(score);
      }
    }
    TiesAreMaximisers(xs, |node.children|);
    var p :| 0 <= p < |bestChildren|;
    best := bestChildren[p];
    j := bestIndices[p];
  }

  /** Every node of `nodes` is well formed and its children are in `nodes`. */
  ghost predicate Closed(nodes: set<Node>)
    reads nodes
  {
    forall m :: m in nodes ==> m.Valid() && forall c :: c in m.children ==> c in nodes
  }

  /** `tree_policy(node)`: descend through best children until a terminal
      state or a node with an untried action, which is expanded. The result is
      a terminal node of the tree (nothing changed), a fresh child of a node
      that was not fully explored, or `None` when such a node lists a legal
      action twice. */
  method TreePolicy(root: Node, uct: (int, int, int) -> real, ghost nodes: set<Node>) returns (leaf: Node?)
    requires root in nodes && Closed(nodes)
    modifies nodes
    ensures leaf != null && !fresh(leaf) ==>
      leaf in nodes && Terminal(leaf.state) && unchanged(nodes)
    ensures leaf != null && fresh(leaf) ==>
      var par := leaf.parent;
      && par != null && par in nodes && !old(par.FullyExplored())
      && par.children == old(par.children) + [leaf]
      && par.Valid()
      && leaf.visits == 1 && leaf.reward == 0
      && forall m :: m in nodes && m != par ==> unchanged(m)
    ensures leaf == null ==> exists m :: m in nodes && !Distinct(Actions(m.state))
  {
    var node := root;
    while !Terminal(node.state)
      invariant node in nodes && Closed(nodes) && unchanged(nodes)
      decreases Height(node.state)
    {
      if !node.FullyExplored() {
        leaf := Expand(node);
        return;
      }
      var next, j := BestChild(node, uct);
      assert next.state == Result(node.state, node.childrenActions[j]);
      node := next;
    }
    leaf := node;
  }

  // ---------------------------------------------------------------------------
  // Playout and back-propagation.

  /** `default_policy(state)`: random play until the game ends, modelled as
      an arbitrary legal line `path`; the reward is -1 when the player to move
      at the start still has liberties at the end, 1 otherwise. */
  method DefaultPolicy(s: State) returns (r: int, ghost path: seq<Action>)
    ensures IsLine(s, path) && Terminal(Play(s, path))
    ensures r == (if HasLiberties(Play(s, path), SideToMove(s)) then -1 else 1)
    ensures r == 1 || r == -1
  {
    var initPlayer := SideToMove(s);
    var state := s;
    path := [];
    while !Terminal(state)
      invariant IsLine(s, path) && state == Play(s, path)
      decreases Height(state)
    {
      assert Actions(state)[0] in Actions(state);
      var a :| a in Actions(state);
      PlayExtend(s, path, a);
      state := Result(state, a);
      path := path + [a];
    }
    r := if HasLiberties(state, initPlayer) then -1 else 1;
  }

  /** The reward `r` as credited `k` steps above the node it started at:
      its sign flips at every step. */
  function Alternate(k: nat, r: int): (v: int)
    ensures v == r || v == -r
    ensures k > 0 ==> v == -Alternate(k - 1, r)
  {
    if k % 2 == 0 then r else -r
  }

  /** Along a chained path, the node `k` steps up has `|p| - 1 - k`
      ancestors; so the nodes of the path are pairwise different. */
  lemma {:induction false} PathDepths(n: Node)
    requires n.Chained()
    ensures forall k :: 0 <= k < |n.Path()| ==> |n.Path()[k].ancestors| == |n.Path()| - 1 - k
    decreases |n.ancestors|
  {
    if n.parent != null {
      PathDepths(n.parent);
      assert n.Path() == [n] + n.parent.Path();
    }
  }

  /** Following `parent` from the node `k` steps up leads to the next node of
      the path, and from the root to nothing. */
  lemma {:induction false} PathParent(n: Node, k: nat)
    requires n.Chained() && k < |n.Path()|
    ensures n.Path()[k].parent == if k + 1 < |n.Path()| then n.Path()[k + 1] else null
    decreases |n.ancestors|
  {
    if n.parent != null {
      assert n.Path() == [n] + n.parent.Path();
      if k > 0 {
        PathParent(n.parent, k - 1);
      }
    }
  }

  /** The nodes of a chained path are pairwise different. */
  lemma PathDistinct(n: Node)
    requires n.Chained()
    ensures forall k, l :: 0 <= k < l < |n.Path()| ==> n.Path()[k] != n.Path()[l]
  {
    PathDepths(n);
  }

  /** `backup(node, reward)`: the node `k` steps up from `node` gains one
      visit and `Alternate(k, reward)`; no other node changes. With a ±1 reward,
      every path node keeps its reward within its visits. */
  method Backup(node: Node, reward: int)
    requires node.Chained()
    modifies node.Path()
    ensures forall k :: 0 <= k < |node.Path()| ==>
      && node.Path()[k].visits == old(node.Path()[k].visits) + 1
      && node.Path()[k].reward == old(node.Path()[k].reward) + Alternate(k, reward)
      && node.Path()[k].children == old(node.Path()[k].children)
      && node.Path()[k].childrenActions == old(node.Path()[k].childrenActions)
  {
    ghost var p := node.Path();
    PathDepths(node);
    var cur: Node? := node;
    var r := reward;
    ghost var i := 0;
    while cur != null
      invariant 0 <= i <= |p|
      invariant cur == (if i < |p| then p[i] else null)
      invariant r == Alternate(i, reward)
      invariant forall k :: 0 <= k < |p| ==>
        && p[k].visits == old(p[k].visits) + (if k < i then 1 else 0)
        && p[k].reward == old(p[k].reward) + (if k < i then Alternate(k, reward) else 0)
        && p[k].children == old(p[k].children)
        && p[k].childrenActions == old(p[k].childrenActions)
      decreases |p| - i
    {
      PathParent(node, i);
      assert forall k :: 0 <= k < |p| && k != i ==> p[k] != cur;
      cur.Update(r);
      cur := cur.parent;
      r := -r;
      i := i + 1;
    }
  }
}
