/** The opening-book builder: rounds of self-play from the empty board in
    which the book's own alpha-beta search picks every move down to a fixed
    depth, a random playout scores the position reached, and the ±1 result is
    credited, with alternating sign, to the counters of the states on the way
    up. The book is reduced at the end to one most-credited action per board. */
module OpeningBook {
  import opened Values
  import opened Game
  import opened AlphaBeta

  /** The default `depth` of `build_tree`, and of the book's search. */
  const TreeDepth: int := 4
  const SearchDepth: int := 3

  // ---------------------------------------------------------------------------
  // The search.

  /** The book's `alpha_beta_search(state, depth)`: leaves are valued for the
      player to move at the leaf, and the root replaces its best move on any
      score at least as good. */
  method AlphaBetaSearch(s: State, depth: int) returns (move: Option<Action>)
    ensures move == RootChoice(BookEval, Lenient, s, depth)
    ensures move.None? <==> Terminal(s)
    ensures move.Some? ==>
      exists j :: 0 <= j < |s.moves| && move.value == Actions(s)[j]
                  && IsLastRise(BookEval, s, depth, j)
  {
    move := AlphaBeta.AlphaBetaSearch(BookEval, Lenient, s, depth);
    LenientRootContract(BookEval, s, depth);
  }

  /** The action the builder plays from a non-terminal state. */
  function BookMove(s: State): (a: Action)
    requires !Terminal(s)
    ensures RootChoice(BookEval, Lenient, s, SearchDepth) == Some(a)
    ensures a in Actions(s)
  {
    LenientRootContract(BookEval, s, SearchDepth);
    RootChoice(BookEval, Lenient, s, SearchDepth).value
  }

  // ---------------------------------------------------------------------------
  // Counters: `collections.Counter`, which remembers insertion order.

  datatype Tally = Tally(action: Action, count: int)

  type Counter = seq<Tally>

  function Keys(c: Counter): (ks: seq<Action>)
    ensures |ks| == |c| && forall i :: 0 <= i < |c| ==> ks[i] == c[i].action
  {
    seq(|c|, i requires 0 <= i < |c| => c[i].action)
  }

  /** No action is counted twice. */
  predicate DistinctKeys(c: Counter) {
    forall i, j :: 0 <= i < j < |c| ==> c[i].action != c[j].action
  }

  /** `counter[a]`: zero for an action never counted. */
  function Count(c: Counter, a: Action): int {
    if c == [] then 0
    else if c[0].action == a then c[0].count
    else Count(c[1..], a)
  }

  lemma {:induction false} CountAt(c: Counter, i: nat)
    requires DistinctKeys(c) && i < |c|
    ensures Count(c, c[i].action) == c[i].count
  {
    if i > 0 {
      assert c[0].action != c[i].action;
      CountAt(c[1..], i - 1);
    }
  }

  lemma {:induction false} CountAbsent(c: Counter, a: Action)
    requires a !in Keys(c)
    ensures Count(c, a) == 0
  {
    if c != [] {
      assert Keys(c[1..]) == Keys(c)[1..];
      CountAbsent(c[1..], a);
    }
  }

  /** `counter[a] += r`: the count of `a` grows by `r`, every other count is
      unchanged, and `a` is appended to the keys if it was not one. */
  function Bump(c: Counter, a: Action, r: int): (c': Counter)
    ensures |c'| == if a in Keys(c) then |c| else |c| + 1
    ensures forall i :: 0 <= i < |c| ==> c'[i].action == c[i].action
    ensures a !in Keys(c) ==> c'[|c|] == Tally(a, r)
  {
    if c == [] then [Tally(a, r)]
    else if c[0].action == a then [Tally(a, c[0].count + r)] + c[1..]
    else
      assert a in Keys(c) <==> a in Keys(c[1..]) by {
        assert Keys(c) == [c[0].action] + Keys(c[1..]);
      }
      [c[0]] + Bump(c[1..], a, r)
  }

  /** `counter[a] += r` keeps every action counted once. */
  lemma BumpDistinct(c: Counter, a: Action, r: int)
    requires DistinctKeys(c)
    ensures DistinctKeys(Bump(c, a, r))
  {
    var c' := Bump(c, a, r);
    forall i, j | 0 <= i < j < |c'| ensures c'[i].action != c'[j].action {
      if j == |c| {
        assert c[i].action == Keys(c)[i];
      }
    }
  }

  /** `counter[a] += r` adds `r` to the count of `a` and leaves every other
      count alone. */
  lemma {:induction false} BumpCounts(c: Counter, a: Action, r: int)
    ensures Count(Bump(c, a, r), a) == Count(c, a) + r
    ensures forall b :: b != a ==> Count(Bump(c, a, r), b) == Count(c, b)
  {
    if c != [] && c[0].action != a {
      BumpCounts(c[1..], a, r);
    }
  }

  /** The index of the first largest count among the first `n` entries:
      Python's `max` only replaces its candidate on a strictly larger key. */
  function MaxIndex(c: Counter, n: nat): (j: nat)
    requires 0 < n <= |c|
    ensures j < n
    ensures forall i :: 0 <= i < n ==> c[i].count <= c[j].count
    ensures forall i :: 0 <= i < j ==> c[i].count < c[j].count
  {
    if n == 1 then 0
    else
      var j := MaxIndex(c, n - 1);
      if c[n - 1].count > c[j].count then n - 1 else j
  }

  /** `max(counter, key=counter.get)`: an action with the largest count,
      the first-inserted one among ties. */
  function MostCommon(c: Counter): (a: Action)
    requires DistinctKeys(c) && |c| > 0
    ensures a in Keys(c)
    ensures forall b :: b in Keys(c) ==> Count(c, b) <= Count(c, a)
    ensures forall i :: 0 <= i < |c| && c[i].action == a ==>
              forall k :: 0 <= k < i ==> Count(c, c[k].action) < Count(c, a)
  {
    var j := MaxIndex(c, |c|);
    CountAt(c, j);
    forall b | b in Keys(c) ensures Count(c, b) <= Count(c, c[j].action) {
      var i :| 0 <= i < |c| && Keys(c)[i] == b;
      CountAt(c, i);
    }
    forall k | 0 <= k < j ensures Count(c, c[k].action) < Count(c, c[j].action) {
      CountAt(c, k);
    }
    c[j].action
  }

  // ---------------------------------------------------------------------------
  // The book: `defaultdict(Counter)` keyed by the board alone.

  /** Every counter in the book was created by an increment, so it is not
      empty, and it lists each action once. */
  predicate ValidTable(t: map<Board, Counter>) {
    forall k :: k in t ==> |t[k]| > 0 && DistinctKeys(t[k])
  }

  /** `book[board][action] += reward`, creating the counter on first use. */
  function Record(t: map<Board, Counter>, board: Board, action: Action, reward: int): (t': map<Board, Counter>)
    requires ValidTable(t)
    ensures ValidTable(t')
    ensures t'.Keys == t.Keys + {board}
    ensures Count(t'[board], action) == (if board in t then Count(t[board], action) else 0) + reward
    ensures forall b :: b != action ==> Count(t'[board], b) == (if board in t then Count(t[board], b) else 0)
    ensures forall k :: k in t && k != board ==> t'[k] == t[k]
  {
    var c := if board in t then t[board] else [];
    BumpCounts(c, action, reward);
    BumpDistinct(c, action, reward);
    t[board := Bump(c, action, reward)]
  }

  class Book {
    var table: map<Board, Counter>

    ghost predicate Valid()
      reads this
    {
      ValidTable(table)
    }

    constructor ()
      ensures Valid() && table == map[]
    {
      table := map[];
    }
  }

  /** One counter increment made by `build_tree`. */
  datatype Update = Update(board: Board, action: Action, reward: int)

  /** The book after the increments of `log`, in order. */
  function ApplyAll(t: map<Board, Counter>, log: seq<Update>): (t': map<Board, Counter>)
    requires ValidTable(t)
    ensures ValidTable(t')
    decreases |log|
  {
    if log == [] then t
    else ApplyAll(Record(t, log[0].board, log[0].action, log[0].reward), log[1..])
  }

  /** The boards `log` credits. */
  function Boards(log: seq<Update>): (bs: set<Board>)
    ensures forall i :: 0 <= i < |log| ==> log[i].board in bs
  {
    if log == [] then {} else {log[0].board} + Boards(log[1..])
  }

  /** The boards of the book after `log` are those before it and those `log`
      credits. */
  lemma {:induction false} ApplyAllKeys(t: map<Board, Counter>, log: seq<Update>)
    requires ValidTable(t)
    ensures ApplyAll(t, log).Keys == t.Keys + Boards(log)
    decreases |log|
  {
    if log != [] {
      ApplyAllKeys(Record(t, log[0].board, log[0].action, log[0].reward), log[1..]);
    }
  }

  lemma {:induction false} ApplyAllConcat(t: map<Board, Counter>, l1: seq<Update>, l2: seq<Update>)
    requires ValidTable(t)
    ensures ApplyAll(t, l1 + l2) == ApplyAll(ApplyAll(t, l1), l2)
    decreases |l1|
  {
    if l1 == [] {
      assert l1 + l2 == l2;
    } else {
      assert (l1 + l2)[0] == l1[0];
      assert (l1 + l2)[1..] == l1[1..] + l2;
      ApplyAllConcat(Record(t, l1[0].board, l1[0].action, l1[0].reward), l1[1..], l2);
    }
  }

  lemma ApplyAllSingle(t: map<Board, Counter>, u: Update)
    requires ValidTable(t)
    ensures ApplyAll(t, [u]) == Record(t, u.board, u.action, u.reward)
  {
    assert [u][1..] == [];
  }

  /** Two positions on the same board share one counter, whatever the
      players' locations: their credits for an action add up. */
  lemma SameBoardSharesCounter(t: map<Board, Counter>, s1: State, s2: State, a: Action, r1: int, r2: int)
    requires ValidTable(t) && s1.board == s2.board
    ensures var t' := Record(Record(t, s1.board, a, r1), s2.board, a, r2);
      Count(t'[s1.board], a) == (if s1.board in t then Count(t[s1.board], a) else 0) + r1 + r2
  {
  }

  // ---------------------------------------------------------------------------
  // Building.

  /** `simulate(state)`: random play until the game ends; -1 if the player to
      move then has a negative utility, else 1. The random choices are
      modelled as an arbitrary legal line, `path`. */
  method Simulate(s: State) returns (r: int, ghost path: seq<Action>)
    ensures IsLine(s, path) && Terminal(Play(s, path))
    ensures r == (if Lt(Utility(Play(s, path), SideToMove(Play(s, path))), Fin(0)) then -1 else 1)
    ensures r == 1 || r == -1
  {
    var state := s;
    path := [];
    while !Terminal(state)
      invariant IsLine(s, path) && state == Play(s, path)
      decreases Height(state)
    {
      assert Actions(state)[0] in Actions(state);
      var a :| a in Actions(state);
      PlayExtend(s, path, a);
      state := Result(state, a);
      path := path + [a];
    }
    r := if Lt(Utility(state, SideToMove(state)), Fin(0)) then -1 else 1;
  }

  /** What `build_tree(s, book, depth)` returns when the playout at the
      bottom of its line scored `-bottom`. */
  function TreeReturn(s: State, depth: int, bottom: int): (r: int)
    ensures r == bottom || r == -bottom
    decreases Height(s)
  {
    if depth <= 0 || Terminal(s) then bottom
    else -TreeReturn(Result(s, BookMove(s)), depth - 1, bottom)
  }

  /** The counter increments `build_tree(s, book, depth)` makes, deepest
      first: at each level the searched move is credited with what the level
      below returned. */
  function TreeLog(s: State, depth: int, bottom: int): (log: seq<Update>)
    ensures |log| <= (if depth > 0 then depth else 0)
    ensures forall i :: 0 <= i < |log| ==> log[i].reward == bottom || log[i].reward == -bottom
    decreases Height(s)
  {
    if depth <= 0 || Terminal(s) then []
    else
      var a := BookMove(s);
      var child := Result(s, a);
      TreeLog(child, depth - 1, bottom) + [Update(s.board, a, TreeReturn(child, depth - 1, bottom))]
  }

  /** At the top level, the searched move of `s` is credited with the
      child's result, and `build_tree` returns its negation. */
  lemma TopLevelCredit(s: State, depth: int, bottom: int)
    requires depth > 0 && !Terminal(s)
    ensures var log := TreeLog(s, depth, bottom);
      && |log| > 0
      && log[|log| - 1] == Update(s.board, BookMove(s), -TreeReturn(s, depth, bottom))
  {
  }

  /** `build_tree(state, book, depth)`. The playout's random line is left
      open: `bottom` is the negated playout result it ended with. */
  method BuildTree(s: State, book: Book, depth: int) returns (reward: int, ghost bottom: int)
    requires book.Valid()
    modifies book
    ensures book.Valid()
    ensures bottom == 1 || bottom == -1
    ensures reward == TreeReturn(s, depth, bottom)
    ensures book.table == ApplyAll(old(book.table), TreeLog(s, depth, bottom))
    ensures depth <= 0 || Terminal(s) ==> book.table == old(book.table)
    decreases Height(s)
  {
    if depth <= 0 || Terminal(s) {
      var r, _ := Simulate(s);
      reward := -r;
      bottom := -r;
      return;
    }
    var action := AlphaBeta.AlphaBetaSearch(BookEval, Lenient, s, SearchDepth);
    assert action == Some(BookMove(s));
    var a := action.value;
    var child := Result(s, a);
    ghost var before := book.table;
    var r, b := BuildTree(child, book, depth - 1);
    ghost var below := TreeLog(child, depth - 1, b);
    assert book.table == ApplyAll(before, below);
    book.table := Record(book.table, s.board, a, r);
    reward := -r;
    bottom := b;
    ApplyAllSingle(ApplyAll(before, below), Update(s.board, a, r));
    ApplyAllConcat(before, below, [Update(s.board, a, r)]);
  }

  /** `build_table(num_rounds)`: `init` is the empty-board state every round
      starts from, and round `i` is a `build_tree(init, book)` whose playout
      ended with `bottoms[i]`. The table reduces exactly the credits of those
      rounds; since the search is deterministic, it is the searched line from
      `init` whenever the book was built at all. */
  method BuildTable(init: State, numRounds: int) returns (table: map<Board, Action>, ghost bottoms: seq<int>)
    ensures |bottoms| == (if numRounds > 0 then numRounds else 0)
    ensures forall i :: 0 <= i < |bottoms| ==> bottoms[i] == 1 || bottoms[i] == -1
    ensures table == Reduce(ApplyAll(map[], Rounds(init, bottoms)))
    ensures numRounds <= 0 ==> table == map[]
    ensures numRounds > 0 ==> table.Keys == Boards(Line(init))
    ensures numRounds > 0 && OneActionPerBoard(Line(init)) ==>
      forall j :: 0 <= j < |Line(init)| ==> table[Line(init)[j].board] == Line(init)[j].action
  {
    var book := new Book();
    bottoms := [];
    var round := 0;
    while round < numRounds
      invariant 0 <= round <= (if numRounds > 0 then numRounds else 0)
      invariant |bottoms| == round
      invariant forall i :: 0 <= i < |bottoms| ==> bottoms[i] == 1 || bottoms[i] == -1
      invariant book.Valid() && book.table == ApplyAll(map[], Rounds(init, bottoms))
    {
      var _, b := BuildTree(init, book, TreeDepth);
      RoundsStep(init, bottoms, b);
      bottoms := bottoms + [b];
      round := round + 1;
    }
    table := Reduce(book.table);
    BuiltTable(init, numRounds, bottoms);
  }

  /** What the rounds of `build_table` leave, stated for the table they
      reduce to. */
  lemma BuiltTable(init: State, numRounds: int, bottoms: seq<int>)
    requires |bottoms| == (if numRounds > 0 then numRounds else 0)
    ensures var table := Reduce(ApplyAll(map[], Rounds(init, bottoms)));
      && (numRounds <= 0 ==> table == map[])
      && (numRounds > 0 ==> table.Keys == Boards(Line(init)))
      && (numRounds > 0 && OneActionPerBoard(Line(init)) ==>
            forall j :: 0 <= j < |Line(init)| ==> table[Line(init)[j].board] == Line(init)[j].action)
  {
    if numRounds > 0 {
      TableIsTheLine(init, bottoms);
    } else {
      assert Rounds(init, bottoms) == [];
    }
  }

  /** The credits of rounds whose playouts ended with `bottoms`, in the order
      the rounds were played. */
  function Rounds(init: State, bottoms: seq<int>): (log: seq<Update>)
    ensures |log| <= TreeDepth * |bottoms|
    decreases |bottoms|
  {
    if bottoms == [] then []
    else Rounds(init, bottoms[..|bottoms| - 1]) + TreeLog(init, TreeDepth, bottoms[|bottoms| - 1])
  }

  /** One more round appends its credits to the book. */
  lemma RoundsStep(init: State, bottoms: seq<int>, b: int)
    ensures Rounds(init, bottoms + [b]) == Rounds(init, bottoms) + TreeLog(init, TreeDepth, b)
    ensures ApplyAll(map[], Rounds(init, bottoms + [b]))
            == ApplyAll(ApplyAll(map[], Rounds(init, bottoms)), TreeLog(init, TreeDepth, b))
  {
    assert (bottoms + [b])[..|bottoms|] == bottoms;
    ApplyAllConcat(map[], Rounds(init, bottoms), TreeLog(init, TreeDepth, b));
  }

  /** The boards and actions one round credits, which do not depend on the
      playout (`TreeLogShape`). */
  function Line(init: State): seq<Update> {
    TreeLog(init, TreeDepth, 1)
  }

  /** Two credit logs name the same boards and actions, rewards aside. */
  predicate SameCredits(l1: seq<Update>, l2: seq<Update>) {
    && |l1| == |l2|
    && forall i :: 0 <= i < |l1| ==> l1[i].board == l2[i].board && l1[i].action == l2[i].action
  }

  /** `u` credits a board and action that `line` credits too. */
  predicate OnLine(u: Update, line: seq<Update>) {
    exists j :: 0 <= j < |line| && line[j].board == u.board && line[j].action == u.action
  }

  /** No board is credited with two different actions. */
  predicate OneActionPerBoard(log: seq<Update>) {
    forall i, j :: 0 <= i < |log| && 0 <= j < |log| && log[i].board == log[j].board ==>
      log[i].action == log[j].action
  }

  /** `build_tree` picks its move with the search, not at random, so what a
      round credits is fixed by its start state and depth; the playout only
      decides the rewards. */
  lemma {:induction false} TreeLogShape(s: State, depth: int, b1: int, b2: int)
    ensures SameCredits(TreeLog(s, depth, b1), TreeLog(s, depth, b2))
    decreases Height(s)
  {
    if depth > 0 && !Terminal(s) {
      TreeLogShape(Result(s, BookMove(s)), depth - 1, b1, b2);
    }
  }

  lemma {:induction false} BoardsConcat(l1: seq<Update>, l2: seq<Update>)
    ensures Boards(l1 + l2) == Boards(l1) + Boards(l2)
    decreases |l1|
  {
    if l1 == [] {
      assert l1 + l2 == l2;
    } else {
      assert (l1 + l2)[0] == l1[0];
      assert (l1 + l2)[1..] == l1[1..] + l2;
      BoardsConcat(l1[1..], l2);
    }
  }

  lemma {:induction false} BoardsSameCredits(l1: seq<Update>, l2: seq<Update>)
    requires SameCredits(l1, l2)
    ensures Boards(l1) == Boards(l2)
    decreases |l1|
  {
    if l1 != [] {
      BoardsSameCredits(l1[1..], l2[1..]);
    }
  }

  /** However many rounds are played, the credited boards are those of the
      line. */
  lemma {:induction false} RoundsBoards(init: State, bottoms: seq<int>)
    requires |bottoms| > 0
    ensures Boards(Rounds(init, bottoms)) == Boards(Line(init))
    decreases |bottoms|
  {
    var last := bottoms[|bottoms| - 1];
    var front := bottoms[..|bottoms| - 1];
    TreeLogShape(init, TreeDepth, last, 1);
    BoardsSameCredits(TreeLog(init, TreeDepth, last), Line(init));
    BoardsConcat(Rounds(init, front), TreeLog(init, TreeDepth, last));
    if front != [] {
      RoundsBoards(init, front);
    } else {
      assert Rounds(init, front) == [];
    }
  }

  /** Every credit of every round is a (board, action) pair of the line. */
  lemma {:induction false} RoundsWithinLine(init: State, bottoms: seq<int>, i: nat)
    requires i < |Rounds(init, bottoms)|
    ensures OnLine(Rounds(init, bottoms)[i], Line(init))
    decreases |bottoms|
  {
    var last := bottoms[|bottoms| - 1];
    var front := bottoms[..|bottoms| - 1];
    var prefix := Rounds(init, front);
    if i < |prefix| {
      RoundsWithinLine(init, front, i);
    } else {
      TreeLogShape(init, TreeDepth, last, 1);
      var j := i - |prefix|;
      assert Rounds(init, bottoms)[i] == TreeLog(init, TreeDepth, last)[j];
      assert Line(init)[j].board == Rounds(init, bottoms)[i].board;
    }
  }

  /** A board all of whose credits name `a` holds a counter of `a` alone. */
  lemma {:induction false} ApplyAllOneAction(t: map<Board, Counter>, log: seq<Update>, k: Board, a: Action)
    requires ValidTable(t)
    requires k in t ==> |t[k]| == 1 && t[k][0].action == a
    requires forall i :: 0 <= i < |log| && log[i].board == k ==> log[i].action == a
    ensures k in ApplyAll(t, log) ==> |ApplyAll(t, log)[k]| == 1 && ApplyAll(t, log)[k][0].action == a
    decreases |log|
  {
    if log != [] {
      var u := log[0];
      var t1 := Record(t, u.board, u.action, u.reward);
      if u.board == k {
        var c := if k in t then t[k] else [];
        assert t1[k] == Bump(c, a, u.reward);
        if k in t {
          assert Keys(c)[0] == a;
        }
      }
      forall i | 0 <= i < |log[1..]| && log[1..][i].board == k
        ensures log[1..][i].action == a
      {
        assert log[1..][i] == log[i + 1];
      }
      ApplyAllOneAction(t1, log[1..], k, a);
    }
  }

  /** However the playouts end, a book built in at least one round maps the
      boards of the searched line from `init`, each to the move searched
      there, provided the line never revisits a board with another move. */
  lemma TableIsTheLine(init: State, bottoms: seq<int>)
    requires |bottoms| > 0
    ensures var table := Reduce(ApplyAll(map[], Rounds(init, bottoms)));
      && table.Keys == Boards(Line(init))
      && (OneActionPerBoard(Line(init)) ==>
            forall j :: 0 <= j < |Line(init)| ==> table[Line(init)[j].board] == Line(init)[j].action)
  {
    var log := Rounds(init, bottoms);
    var line := Line(init);
    RoundsBoards(init, bottoms);
    ApplyAllKeys(map[], log);
    if OneActionPerBoard(line) {
      TableFollowsLine(init, bottoms);
    }
  }

  lemma TableFollowsLine(init: State, bottoms: seq<int>)
    requires |bottoms| > 0
    requires OneActionPerBoard(Line(init))
    requires Boards(Line(init)) <= ApplyAll(map[], Rounds(init, bottoms)).Keys
    ensures forall j :: 0 <= j < |Line(init)| ==>
      Reduce(ApplyAll(map[], Rounds(init, bottoms)))[Line(init)[j].board] == Line(init)[j].action
  {
    var log := Rounds(init, bottoms);
    var line := Line(init);
    forall j | 0 <= j < |line|
      ensures Reduce(ApplyAll(map[], log))[line[j].board] == line[j].action
    {
      var k, a := line[j].board, line[j].action;
      forall i | 0 <= i < |log| && log[i].board == k
        ensures log[i].action == a
      {
        RoundsWithinLine(init, bottoms, i);
      }
      ApplyAllOneAction(map[], log, k, a);
      var c := ApplyAll(map[], log)[k];
      assert Keys(c)[0] == a;
    }
  }

  /** `{k: max(v, key=v.get) for k, v in book.items()}`. */
  function Reduce(t: map<Board, Counter>): (table: map<Board, Action>)
    requires ValidTable(t)
    ensures table.Keys == t.Keys
    ensures forall k :: k in table ==> table[k] == MostCommon(t[k])
  {
    map k | k in t :: MostCommon(t[k])
  }
}
