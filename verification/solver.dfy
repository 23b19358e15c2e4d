/** The A* driver of the 8-puzzle solver. The board's manhattan, isGoal,
    equals, neighbors and twin have no implementation in the program, so
    they are parameters of the search (a BoardOps record of functions). The
    priority queue is a multiset of search nodes from which a node of
    minimum priority is removed; which of several tied nodes comes out is
    not specified. The solution stack is the sequence of boards in the order
    its iterator yields them, top first. */
module Solver {
  import opened Wrappers
  import opened Boards

  /** The board operations the search uses. */
  datatype BoardOps = BoardOps(
    manhattan: Board -> int,
    isGoal: Board -> bool,
    equals: (Board, Board) -> bool,
    neighbors: Board -> seq<Board>,
    twin: Board -> Board)

  /** A search node: its board, its predecessor, the number of moves made
      to reach it, and the priority fixed when it was built. */
  datatype SearchNode = SearchNode(board: Board, previous: Option<SearchNode>, moves: int, priority: int)

  /** new SearchNode(board, previous, moves): the fields as given, and the
      priority fixed once as moves + manhattan(board). */
  function MakeNode(ops: BoardOps, board: Board, previous: Option<SearchNode>, moves: int): (r: SearchNode)
    ensures r.board == board && r.previous == previous && r.moves == moves
    ensures r.priority == moves + ops.manhattan(board)
  {
    SearchNode(board, previous, moves, moves + ops.manhattan(board))
  }

  /** What every node the search builds satisfies: its priority is its
      moves plus its board's manhattan distance; a root has moves 0, no
      predecessor and the initial board; any other node has one move more
      than its predecessor, a board among the predecessor's neighbors, and
      not the board of the predecessor's predecessor. */
  predicate Reachable(ops: BoardOps, n: SearchNode, root: Board) {
    && n.priority == n.moves + ops.manhattan(n.board)
    && match n.previous
       case None => n.moves == 0 && n.board == root
       case Some(p) =>
         && n.moves == p.moves + 1
         && n.board in ops.neighbors(p.board)
         && (p.previous.Some? ==> !ops.equals(n.board, p.previous.value.board))
         && Reachable(ops, p, root)
  }

  /** The boards of the predecessor chain, from the root to n. */
  function Path(n: SearchNode): seq<Board> {
    match n.previous
    case None => [n.board]
    case Some(p) => Path(p) + [n.board]
  }

  /** The chain of a built node is a walk of moves + 1 boards from the
      initial board to the node's board, each board a neighbor of the one
      before and never stepping straight back: moves is the node's depth. */
  lemma {:induction false} PathOfReachable(ops: BoardOps, n: SearchNode, root: Board)
    requires Reachable(ops, n, root)
    ensures |Path(n)| == n.moves + 1 && n.moves >= 0
    ensures Path(n)[0] == root && Path(n)[|Path(n)| - 1] == n.board
    ensures forall i :: 0 <= i < |Path(n)| - 1 ==> Path(n)[i + 1] in ops.neighbors(Path(n)[i])
    ensures forall i :: 0 <= i < |Path(n)| - 2 ==> !ops.equals(Path(n)[i + 2], Path(n)[i])
  {
    match n.previous
    case None =>
    case Some(p) =>
      PathOfReachable(ops, p, root);
      var path := Path(n);
      assert path == Path(p) + [n.board];
      forall i | 0 <= i < |path| - 1 ensures path[i + 1] in ops.neighbors(path[i]) {
        if i < |path| - 2 {
          assert path[i] == Path(p)[i] && path[i + 1] == Path(p)[i + 1];
        }
      }
      forall i | 0 <= i < |path| - 2 ensures !ops.equals(path[i + 2], path[i]) {
        if i == |path| - 3 {
          var pp := p.previous.value;
          PathOfReachable(ops, pp, root);
          assert Path(p) == Path(pp) + [p.board];
          assert path[i] == pp.board;
        } else {
          assert path[i] == Path(p)[i] && path[i + 2] == Path(p)[i + 2];
        }
      }
  }

  /** n is a node of minimum priority in the queue. */
  predicate IsMin(n: SearchNode, queue: multiset<SearchNode>) {
    n in queue && forall m :: m in queue ==> n.priority <= m.priority
  }

  /** A nonempty queue has a node of minimum priority. */
  lemma {:induction false} MinExists(queue: multiset<SearchNode>)
    requires queue != multiset{}
    ensures exists n :: IsMin(n, queue)
    decreases |queue|
  {
    var x :| x in queue;
    var rest := queue - multiset{x};
    assert queue == rest + multiset{x};
    if rest == multiset{} {
      assert IsMin(x, queue);
    } else {
      MinExists(rest);
      var y :| IsMin(y, rest);
      if x.priority <= y.priority {
        assert IsMin(x, queue);
      } else {
        assert IsMin(y, queue);
      }
    }
  }

  /** A neighbor the loop skips: the board of the node's predecessor. */
  predicate Skipped(ops: BoardOps, node: SearchNode, nb: Board) {
    node.previous.Some? && ops.equals(nb, node.previous.value.board)
  }

  /** The children built for the neighbors nbs of node, in order. */
  function ChildrenOf(ops: BoardOps, node: SearchNode, nbs: seq<Board>): multiset<SearchNode> {
    if |nbs| == 0 then multiset{}
    else
      var nb := nbs[|nbs| - 1];
      ChildrenOf(ops, node, nbs[..|nbs| - 1])
        + if Skipped(ops, node, nb) then multiset{} else multiset{MakeNode(ops, nb, Some(node), node.moves + 1)}
  }

  /** The children are exactly the nodes for the neighbors that are not
      skipped, each with one move more and node as its predecessor. */
  lemma {:induction false} ChildrenShape(ops: BoardOps, node: SearchNode, nbs: seq<Board>)
    ensures forall c :: c in ChildrenOf(ops, node, nbs) ==>
              && c == MakeNode(ops, c.board, Some(node), node.moves + 1)
              && c.board in nbs && !Skipped(ops, node, c.board)
    ensures forall nb :: nb in nbs && !Skipped(ops, node, nb) ==>
              MakeNode(ops, nb, Some(node), node.moves + 1) in ChildrenOf(ops, node, nbs)
  {
    if |nbs| > 0 {
      var init := nbs[..|nbs| - 1];
      ChildrenShape(ops, node, init);
      assert nbs == init + [nbs[|nbs| - 1]];
    }
  }

  /** The children of a built node are built nodes. */
  lemma ChildrenReachable(ops: BoardOps, node: SearchNode, root: Board)
    requires Reachable(ops, node, root)
    ensures forall c :: c in ChildrenOf(ops, node, ops.neighbors(node.board)) ==> Reachable(ops, c, root)
  {
    ChildrenShape(ops, node, ops.neighbors(node.board));
  }

  /** nextQueueIteration(queue): null on an empty queue, which stays as it
      is; otherwise a node of minimum priority is removed and, when its
      board is the goal, returned with nothing inserted; otherwise one child
      per neighbor that is not the predecessor's board is inserted and null
      is returned. removed is the node taken out. */
  method NextQueueIteration(ops: BoardOps, queue: multiset<SearchNode>)
    returns (found: Option<SearchNode>, removed: Option<SearchNode>, queue': multiset<SearchNode>)
    ensures queue == multiset{} ==> found.None? && removed.None? && queue' == queue
    ensures queue != multiset{} ==> removed.Some? && IsMin(removed.value, queue)
    ensures removed.Some? && ops.isGoal(removed.value.board) ==>
              found == removed && queue' == queue - multiset{removed.value}
    ensures removed.Some? && !ops.isGoal(removed.value.board) ==>
              && found.None?
              && queue' == queue - multiset{removed.value} + ChildrenOf(ops, removed.value, ops.neighbors(removed.value.board))
    ensures found.Some? ==> ops.isGoal(found.value.board)
  {
    if queue == multiset{} {
      return None, None, queue;
    }
    MinExists(queue);
    var node :| IsMin(node, queue);
    removed := Some(node);
    queue' := queue - multiset{node};
    if ops.isGoal(node.board) {
      return Some(node), removed, queue';
    }
    queue' := InsertChildren(ops, node, queue');
    found := None;
  }

  /** The loop over node.board.neighbors(): every neighbor but the
      predecessor's board becomes a child with one move more. */
  method InsertChildren(ops: BoardOps, node: SearchNode, queue: multiset<SearchNode>) returns (queue': multiset<SearchNode>)
    ensures queue' == queue + ChildrenOf(ops, node, ops.neighbors(node.board))
  {
    var nbs := ops.neighbors(node.board);
    queue' := queue;
    var i := 0;
    while i < |nbs|
      invariant 0 <= i <= |nbs|
      invariant queue' == queue + ChildrenOf(ops, node, nbs[..i])
    {
      ChildrenStep(ops, node, nbs, i);
      var neighbor := nbs[i];
      if !(node.previous.Some? && ops.equals(neighbor, node.previous.value.board)) {
        queue' := queue' + multiset{MakeNode(ops, neighbor, Some(node), node.moves + 1)};
      }
      i := i + 1;
    }
    assert nbs[..|nbs|] == nbs;
  }

  /** One more neighbor adds its child unless it is skipped. */
  lemma ChildrenStep(ops: BoardOps, node: SearchNode, nbs: seq<Board>, i: int)
    requires 0 <= i < |nbs|
    ensures ChildrenOf(ops, node, nbs[..i + 1]) == ChildrenOf(ops, node, nbs[..i])
              + if Skipped(ops, node, nbs[i]) then multiset{} else multiset{MakeNode(ops, nbs[i], Some(node), node.moves + 1)}
  {
    assert nbs[..i + 1][..i] == nbs[..i];
  }

  /** Every node in the queue was built by the search from root. */
  predicate AllReachable(ops: BoardOps, queue: multiset<SearchNode>, root: Board) {
    forall n :: n in queue ==> Reachable(ops, n, root)
  }

  /** A search step keeps every node of the queue a built node. */
  lemma StepKeepsReachable(ops: BoardOps, queue: multiset<SearchNode>, node: SearchNode, root: Board)
    requires AllReachable(ops, queue, root) && node in queue
    ensures AllReachable(ops, queue - multiset{node}, root)
    ensures AllReachable(ops, queue - multiset{node} + ChildrenOf(ops, node, ops.neighbors(node.board)), root)
  {
    ChildrenReachable(ops, node, root);
  }

  /** The solver's fields: the solution stack (null until a solution is
      found), minMoves and isBoardSolvable. */
  datatype SolverState = SolverState(solution: Option<seq<Board>>, minMoves: int, isBoardSolvable: bool)

  /** moves(): minMoves when solvable, -1 otherwise. */
  function Moves(s: SolverState): int {
    if s.isBoardSolvable then s.minMoves else -1
  }

  /** solution(): the stack when solvable, null otherwise. */
  function Solution(s: SolverState): Option<seq<Board>> {
    if s.isBoardSolvable then s.solution else None
  }

  /** createSolution(goal): solvable, minMoves = goal.moves, and the stack
      filled by pushing the boards from the goal back to the root, so that
      it yields them from the root to the goal. */
  method CreateSolution(goal: SearchNode) returns (s: SolverState)
    ensures s.isBoardSolvable && s.minMoves == goal.moves
    ensures s.solution == Some(Path(goal))
  {
    var stack: seq<Board> := [];
    var current := Some(goal);
    while current.Some?
      invariant (if current.Some? then Path(current.value) else []) + stack == Path(goal)
      decreases current
    {
      var node := current.value;
      stack := [node.board] + stack;
      current := node.previous;
    }
    assert [] + stack == stack;
    s := SolverState(Some(stack), goal.moves, true);
  }

  /** The outcome of a finished search in terms of moves() and solution():
      either no solution and -1 moves, or a walk of moves() + 1 boards from
      the initial board to a goal board, each a neighbor of the one before
      and never stepping straight back. */
  predicate Outcome(ops: BoardOps, initial: Board, s: SolverState) {
    if Solution(s).None? then Moves(s) == -1 && !s.isBoardSolvable
    else
      var path := Solution(s).value;
      && Moves(s) >= 0
      && |path| == Moves(s) + 1
      && path[0] == initial
      && ops.isGoal(path[|path| - 1])
      && (forall i :: 0 <= i < |path| - 1 ==> path[i + 1] in ops.neighbors(path[i]))
      && (forall i :: 0 <= i < |path| - 2 ==> !ops.equals(path[i + 2], path[i]))
  }

  /** new Solver(initial): a null board throws IllegalArgumentException;
      otherwise the initial board and its twin are searched in lockstep
      until one of them reaches a goal. The program loops until then; here
      at most fuel rounds are run and None reports that the search had not
      finished. Unsolvable is reported only when the twin's search has
      removed a goal node it built. */
  method Solve(ops: BoardOps, initial: Option<Board>, fuel: nat) returns (r: Result<Option<SolverState>>)
    ensures initial.None? <==> r.Err?
    ensures r.Err? ==> r.error == IllegalArgument
    ensures r.Ok? && r.value.Some? ==> Outcome(ops, initial.value, r.value.value)
    ensures r.Ok? && r.value.Some? && !r.value.value.isBoardSolvable ==>
              exists n :: Reachable(ops, n, ops.twin(initial.value)) && ops.isGoal(n.board)
  {
    if initial.None? {
      return Err(IllegalArgument);
    }
    var board := initial.value;
    var twinBoard := ops.twin(board);
    var queue := multiset{MakeNode(ops, board, None, 0)};
    var twinQueue := multiset{MakeNode(ops, twinBoard, None, 0)};
    var round := 0;
    while round < fuel
      invariant AllReachable(ops, queue, board)
      invariant AllReachable(ops, twinQueue, twinBoard)
    {
      var found, removed, queue' := NextQueueIteration(ops, queue);
      if removed.Some? {
        StepKeepsReachable(ops, queue, removed.value, board);
      }
      queue := queue';
      if found.Some? {
        var goal := found.value;
        PathOfReachable(ops, goal, board);
        var s := CreateSolution(goal);
        return Ok(Some(s));
      }
      var twinFound, twinRemoved, twinQueue' := NextQueueIteration(ops, twinQueue);
      if twinRemoved.Some? {
        StepKeepsReachable(ops, twinQueue, twinRemoved.value, twinBoard);
      }
      twinQueue := twinQueue';
      if twinFound.Some? {
        assert Reachable(ops, twinFound.value, twinBoard);
        return Ok(Some(SolverState(None, -1, false)));
      }
      round := round + 1;
    }
    return Ok(None);
  }
}
