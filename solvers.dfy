/** The solver: two best-first searches run in lockstep, one from the initial
    board and one from its twin. The first goal reached decides solvability.

    Search nodes live in an arena (a sequence) and name their parent by index.
    Each search has its own arena, whose node 0 is its root. A frontier is the
    multiset of arena indices waiting to be expanded; which one is polled next is
    left open (any element may come out). */
module Solvers {
  import opened Boards

  datatype Option<T> = None | Some(value: T)

  datatype Result<T, E> = Success(value: T) | Failure(error: E)

  /** One state of a search: its board, the number of moves from the root, the
      arena index of the node it was expanded from (None for a root) and its
      priority, manhattan + moves. */
  datatype SearchNode = SearchNode(board: Board, moves: nat, previous: Option<nat>, priority: int)

  /** The SearchNode constructor: it computes the priority of the new node. */
  method NewSearchNode(board: Board, moves: nat, previous: Option<nat>) returns (node: SearchNode)
    requires IsSquare(board)
    ensures node.board == board && node.moves == moves && node.previous == previous
    ensures node.priority == Manhattan(board) + moves
  {
    var h := ComputeManhattan(board);
    node := SearchNode(board, moves, previous, h + moves);
  }

  // ---------------------------------------------------------------------------
  // Search trees in an arena
  // ---------------------------------------------------------------------------

  /** Node 0 is the only root, and every other node's parent comes before it. */
  ghost predicate Linked(tree: seq<SearchNode>) {
    && |tree| >= 1 && tree[0].previous == None
    && forall i :: 1 <= i < |tree| ==> tree[i].previous.Some? && tree[i].previous.value < i
  }

  /** The board of node k's parent, if node k has one. */
  function ParentBoard(tree: seq<SearchNode>, k: nat): Option<Board>
    requires Linked(tree) && k < |tree|
  {
    match tree[k].previous
    case None => None
    case Some(p) => Some(tree[p].board)
  }

  /** Node i was pushed while expanding its parent: one move further from the
      root, a neighbour of the parent's board, and not the grandparent's board. */
  ghost predicate IsChild(tree: seq<SearchNode>, i: nat)
    requires Linked(tree) && 1 <= i < |tree|
  {
    var p := tree[i].previous.value;
    && tree[i].moves == tree[p].moves + 1
    && ValidBoard(tree[p].board) && tree[i].board in Neighbors(tree[p].board)
    && ParentBoard(tree, p) != Some(tree[i].board)
  }

  /** The invariant of one search's arena: rooted at `root` with 0 moves, every
      board valid, every priority manhattan + moves, every other node a child of
      its parent. */
  ghost predicate ValidTree(tree: seq<SearchNode>, root: Board) {
    && Linked(tree)
    && tree[0].board == root && tree[0].moves == 0
    && (forall i :: 0 <= i < |tree| ==>
          ValidBoard(tree[i].board) && tree[i].priority == Manhattan(tree[i].board) + tree[i].moves)
    && (forall i :: 1 <= i < |tree| ==> IsChild(tree, i))
  }

  /** The boards from the root down to node i, found by following parent links. */
  ghost function PathTo(tree: seq<SearchNode>, i: nat): seq<Board>
    requires Linked(tree) && i < |tree|
    decreases i
  {
    match tree[i].previous
    case None => [tree[i].board]
    case Some(p) => PathTo(tree, p) + [tree[i].board]
  }

  /** Valid boards, each a neighbour of the one before it. */
  ghost predicate NeighborChain(path: seq<Board>) {
    && (forall k :: 0 <= k < |path| ==> ValidBoard(path[k]))
    && (forall k :: 0 <= k < |path| - 1 ==> path[k + 1] in Neighbors(path[k]))
  }

  /** A search starts from a single root node with 0 moves. */
  lemma RootIsTree(root: SearchNode, initial: Board)
    requires ValidBoard(initial)
    requires root.board == initial && root.moves == 0 && root.previous == None
    requires root.priority == Manhattan(initial)
    ensures ValidTree([root], initial)
  {
  }

  /** A node's moves equal the length of its parent chain, which starts at the
      root board, ends at the node's board and is a chain of neighbours. */
  lemma {:induction false} PathToIsChain(tree: seq<SearchNode>, root: Board, i: nat)
    requires ValidTree(tree, root) && i < |tree|
    ensures var path := PathTo(tree, i);
            && |path| == tree[i].moves + 1
            && path[0] == root && path[|path| - 1] == tree[i].board
            && NeighborChain(path)
  {
    match tree[i].previous
    case None =>
    case Some(p) =>
      PathToIsChain(tree, root, p);
      assert IsChild(tree, i);
  }

  // ---------------------------------------------------------------------------
  // Expansion
  // ---------------------------------------------------------------------------

  /** The neighbours that an expansion pushes: all of them except one equal to
      the board of the node's parent. */
  function Unrevisited(nbs: seq<Board>, back: Option<Board>): (kept: seq<Board>)
    ensures |kept| <= |nbs|
  {
    if nbs == [] then []
    else
      var last := nbs[|nbs| - 1];
      assert nbs == nbs[..|nbs| - 1] + [last];
      Unrevisited(nbs[..|nbs| - 1], back) + (if back == Some(last) then [] else [last])
  }

  /** The boards kept are the neighbours other than `back`. */
  lemma {:induction false} UnrevisitedMembers(nbs: seq<Board>, back: Option<Board>)
    ensures forall b :: b in Unrevisited(nbs, back) <==> b in nbs && back != Some(b)
    decreases |nbs|
  {
    if nbs != [] {
      var init := nbs[..|nbs| - 1];
      UnrevisitedMembers(init, back);
      assert nbs == init + [nbs[|nbs| - 1]];
    }
  }

  /** The arena indices lo .. hi-1. */
  function IndexSpan(lo: nat, hi: nat): (s: multiset<nat>)
    decreases hi
  {
    if hi <= lo then multiset{} else IndexSpan(lo, hi - 1) + multiset{hi - 1}
  }

  lemma {:induction false} IndexSpanMembers(lo: nat, hi: nat)
    ensures forall x :: x in IndexSpan(lo, hi) <==> lo <= x < hi
    decreases hi
  {
    if lo < hi {
      IndexSpanMembers(lo, hi - 1);
    }
  }

  /** The node pushed for neighbour board b of node k. */
  ghost function ChildNode(tree: seq<SearchNode>, k: nat, b: Board): SearchNode
    requires k < |tree| && IsSquare(b)
  {
    SearchNode(b, tree[k].moves + 1, Some(k), Manhattan(b) + tree[k].moves + 1)
  }

  /** tree' is tree followed by one child of node k per board of kept, in order. */
  ghost predicate AppendsChildren(tree: seq<SearchNode>, tree': seq<SearchNode>, k: nat, kept: seq<Board>)
    requires k < |tree|
  {
    && |tree'| == |tree| + |kept| && tree'[..|tree|] == tree
    && forall j :: 0 <= j < |kept| ==> IsSquare(kept[j]) && tree'[|tree| + j] == ChildNode(tree, k, kept[j])
  }

  lemma UnrevisitedStep(nbs: seq<Board>, i: nat, back: Option<Board>)
    requires i < |nbs|
    ensures Unrevisited(nbs[..i + 1], back) ==
              Unrevisited(nbs[..i], back) + (if back == Some(nbs[i]) then [] else [nbs[i]])
  {
    assert nbs[..i + 1][..i] == nbs[..i];
  }

  lemma AppendsChildrenStep(tree: seq<SearchNode>, tree': seq<SearchNode>, k: nat, kept: seq<Board>, b: Board)
    requires k < |tree| && IsSquare(b) && AppendsChildren(tree, tree', k, kept)
    ensures AppendsChildren(tree, tree' + [ChildNode(tree, k, b)], k, kept + [b])
  {
    var t2, k2 := tree' + [ChildNode(tree, k, b)], kept + [b];
    assert t2[..|tree|] == tree'[..|tree|];
    forall j | 0 <= j < |k2|
      ensures IsSquare(k2[j]) && t2[|tree| + j] == ChildNode(tree, k, k2[j])
    {
      if j < |kept| {
        assert k2[j] == kept[j];
      }
    }
  }

  lemma IndexSpanStep(lo: nat, hi: nat)
    requires lo <= hi
    ensures IndexSpan(lo, hi + 1) == IndexSpan(lo, hi) + multiset{hi}
  {
  }

  /** Appends one child of node k for board nb and pushes its index. */
  method PushChild(tree: seq<SearchNode>, frontier: multiset<nat>, k: nat, nb: Board,
                   done: seq<SearchNode>, pushed: multiset<nat>, ghost kept: seq<Board>)
    returns (tree': seq<SearchNode>, frontier': multiset<nat>)
    requires k < |tree| && IsSquare(nb)
    requires AppendsChildren(tree, done, k, kept) && pushed == frontier + IndexSpan(|tree|, |done|)
    ensures AppendsChildren(tree, tree', k, kept + [nb])
    ensures frontier' == frontier + IndexSpan(|tree|, |tree'|)
  {
    var child := NewSearchNode(nb, tree[k].moves + 1, Some(k));
    AppendsChildrenStep(tree, done, k, kept, nb);
    IndexSpanStep(|tree|, |done|);
    tree', frontier' := done + [child], pushed + multiset{|done|};
  }

  /** The loop of an expansion: one new node per neighbour board that is not the
      parent's board `back`, each also added to the frontier. */
  method PushChildren(tree: seq<SearchNode>, frontier: multiset<nat>, k: nat, nbs: seq<Board>, back: Option<Board>)
    returns (tree': seq<SearchNode>, frontier': multiset<nat>)
    requires k < |tree|
    requires forall j :: 0 <= j < |nbs| ==> IsSquare(nbs[j])
    requires back.Some? ==> IsSquare(back.value)
    ensures AppendsChildren(tree, tree', k, Unrevisited(nbs, back))
    ensures frontier' == frontier + IndexSpan(|tree|, |tree'|)
  {
    tree', frontier' := tree, frontier;
    ghost var kept: seq<Board> := [];
    var i := 0;
    while i < |nbs|
      invariant 0 <= i <= |nbs|
      invariant kept == Unrevisited(nbs[..i], back)
      invariant AppendsChildren(tree, tree', k, kept)
      invariant |tree| <= |tree'|
      invariant frontier' == frontier + IndexSpan(|tree|, |tree'|)
    {
      var nb := nbs[i];
      var keep := true;
      if back.Some? {
        var same := CheckEquals(nb, back.value);
        keep := !same;
      }
      UnrevisitedStep(nbs, i, back);
      if keep {
        tree', frontier' := PushChild(tree, frontier, k, nb, tree', frontier', kept);
        kept := kept + [nb];
      } else {
        assert kept + [] == kept;
      }
      i := i + 1;
    }
    assert nbs[..|nbs|] == nbs;
  }

  /** Expands node k: pushes a new node for every neighbour of its board except
      one equal to its parent's board, in the order neighbors() lists them. */
  method Expand(tree: seq<SearchNode>, frontier: multiset<nat>, k: nat, ghost root: Board)
    returns (tree': seq<SearchNode>, frontier': multiset<nat>)
    requires ValidTree(tree, root) && k < |tree|
    ensures ValidTree(tree', root)
    ensures AppendsChildren(tree, tree', k, Unrevisited(Neighbors(tree[k].board), ParentBoard(tree, k)))
    ensures frontier' == frontier + IndexSpan(|tree|, |tree'|)
  {
    var nbs := ComputeNeighbors(tree[k].board);
    var back := ParentBoard(tree, k);
    NeighborsAreMoves(tree[k].board);
    tree', frontier' := PushChildren(tree, frontier, k, nbs, back);
    ExpandKeepsValid(tree, k, tree', root);
  }

  /** The appended node at index i is the child for the (i - |tree|)-th kept board. */
  lemma AppendedNode(tree: seq<SearchNode>, tree': seq<SearchNode>, k: nat, kept: seq<Board>, i: nat)
    requires k < |tree| && AppendsChildren(tree, tree', k, kept) && |tree| <= i < |tree'|
    ensures kept[i - |tree|] in kept && IsSquare(kept[i - |tree|])
    ensures tree'[i] == ChildNode(tree, k, kept[i - |tree|])
  {
    assert tree'[i] == tree'[|tree| + (i - |tree|)];
  }

  /** Appending the children of node k keeps the arena invariant. */
  lemma ExpandKeepsValid(tree: seq<SearchNode>, k: nat, tree': seq<SearchNode>, root: Board)
    requires ValidTree(tree, root) && k < |tree|
    requires AppendsChildren(tree, tree', k, Unrevisited(Neighbors(tree[k].board), ParentBoard(tree, k)))
    ensures ValidTree(tree', root)
  {
    var kept := Unrevisited(Neighbors(tree[k].board), ParentBoard(tree, k));
    assert forall i :: 0 <= i < |tree| ==> tree'[i] == tree[i];
    forall i | 1 <= i < |tree'|
      ensures tree'[i].previous.Some? && tree'[i].previous.value < i
    {
      if |tree| <= i {
        AppendedNode(tree, tree', k, kept, i);
      }
    }
    assert Linked(tree');
    forall i | 0 <= i < |tree'|
      ensures ValidBoard(tree'[i].board) && tree'[i].priority == Manhattan(tree'[i].board) + tree'[i].moves
    {
      if |tree| <= i {
        ChildIsValid(tree, tree', k, root, i);
      }
    }
    forall i | 1 <= i < |tree'|
      ensures IsChild(tree', i)
    {
      if i < |tree| {
        OldChildStays(tree, tree', k, kept, root, i);
      } else {
        NewChildIsChild(tree, tree', k, root, i);
      }
    }
  }

  lemma ChildIsValid(tree: seq<SearchNode>, tree': seq<SearchNode>, k: nat, root: Board, i: nat)
    requires ValidTree(tree, root) && k < |tree|
    requires AppendsChildren(tree, tree', k, Unrevisited(Neighbors(tree[k].board), ParentBoard(tree, k)))
    requires |tree| <= i < |tree'|
    ensures ValidBoard(tree'[i].board) && tree'[i].priority == Manhattan(tree'[i].board) + tree'[i].moves
  {
    var nbs, back := Neighbors(tree[k].board), ParentBoard(tree, k);
    var kept := Unrevisited(nbs, back);
    AppendedNode(tree, tree', k, kept, i);
    UnrevisitedMembers(nbs, back);
    NeighborsAreMoves(tree[k].board);
  }

  lemma OldChildStays(tree: seq<SearchNode>, tree': seq<SearchNode>, k: nat, kept: seq<Board>, root: Board, i: nat)
    requires ValidTree(tree, root) && k < |tree| && AppendsChildren(tree, tree', k, kept)
    requires Linked(tree') && 1 <= i < |tree|
    ensures IsChild(tree', i)
  {
    assert IsChild(tree, i);
    var p := tree[i].previous.value;
    assert tree'[i] == tree[i] && tree'[p] == tree[p];
    assert ParentBoard(tree', p) == ParentBoard(tree, p);
  }

  lemma NewChildIsChild(tree: seq<SearchNode>, tree': seq<SearchNode>, k: nat, root: Board, i: nat)
    requires ValidTree(tree, root) && k < |tree|
    requires AppendsChildren(tree, tree', k, Unrevisited(Neighbors(tree[k].board), ParentBoard(tree, k)))
    requires Linked(tree') && |tree| <= i < |tree'|
    ensures IsChild(tree', i)
  {
    var nbs, back := Neighbors(tree[k].board), ParentBoard(tree, k);
    var kept := Unrevisited(nbs, back);
    AppendedNode(tree, tree', k, kept, i);
    UnrevisitedMembers(nbs, back);
    assert tree'[k] == tree[k];
    if tree[k].previous.Some? {
      assert tree'[tree[k].previous.value] == tree[tree[k].previous.value];
    }
    assert ParentBoard(tree', k) == back;
  }

  /** Every index of the frontier names a node of the arena. */
  ghost predicate InArena(frontier: multiset<nat>, tree: seq<SearchNode>) {
    forall x :: x in frontier ==> x < |tree|
  }

  // ---------------------------------------------------------------------------
  // The history of a search
  // ---------------------------------------------------------------------------

  /** An expansion of a valid board keeps at least one neighbour: the first
      two differ, so at most one of them is the parent's board. */
  lemma UnrevisitedKeepsOne(t: Board, back: Option<Board>)
    requires ValidBoard(t)
    ensures |Unrevisited(Neighbors(t), back)| >= 1
  {
    var nbs := Neighbors(t);
    FirstNeighborsDiffer(t);
    UnrevisitedMembers(nbs, back);
    var b := if back == Some(nbs[0]) then nbs[1] else nbs[0];
    assert b in Unrevisited(nbs, back);
  }

  /** IndexSpan(lo, mid) and IndexSpan(mid, hi) together are IndexSpan(lo, hi). */
  lemma {:induction false} IndexSpanSplit(lo: nat, mid: nat, hi: nat)
    requires lo <= mid <= hi
    ensures IndexSpan(lo, mid) + IndexSpan(mid, hi) == IndexSpan(lo, hi)
    decreases hi
  {
    if mid < hi {
      IndexSpanSplit(lo, mid, hi - 1);
    }
  }

  /** Node i has been expanded: for every neighbour of its board other than its
      parent's board, a child of i holding that board was pushed after it. */
  ghost predicate Expanded(tree: seq<SearchNode>, i: nat)
    requires Linked(tree) && i < |tree| && ValidBoard(tree[i].board)
  {
    forall b :: b in Unrevisited(Neighbors(tree[i].board), ParentBoard(tree, i)) ==>
      exists j :: i < j < |tree| && tree[j].previous == Some(i) && tree[j].board == b
  }

  /** The last node polled holds a goal board. */
  ghost predicate LastPolledGoal(tree: seq<SearchNode>, polled: seq<nat>) {
    && |polled| > 0 && polled[|polled| - 1] < |tree|
    && IsSquare(tree[polled[|polled| - 1]].board) && IsGoal(tree[polled[|polled| - 1]].board)
  }

  /** Putting the polled nodes back on the frontier, newest first, gives every
      arena index 0 .. size-1 exactly once. */
  ghost predicate Accounted(frontier: multiset<nat>, polled: seq<nat>, size: nat)
    decreases |polled|
  {
    if polled == [] then frontier == IndexSpan(0, size)
    else Accounted(frontier + multiset{polled[|polled| - 1]}, polled[..|polled| - 1], size)
  }

  /** Accounted says that the frontier and the polled nodes together are the
      arena indices. */
  lemma {:induction false} AccountedIff(frontier: multiset<nat>, polled: seq<nat>, size: nat)
    ensures Accounted(frontier, polled, size) <==> frontier + multiset(polled) == IndexSpan(0, size)
    decreases |polled|
  {
    if polled != [] {
      var init, last := polled[..|polled| - 1], polled[|polled| - 1];
      AccountedIff(frontier + multiset{last}, init, size);
      assert polled == init + [last];
      assert frontier + multiset{last} + multiset(init) == frontier + multiset(polled);
    }
  }

  /** Only polled nodes were expanded: the parent of every node other than the
      root is a polled node that is not a goal. */
  ghost predicate ParentsPolled(tree: seq<SearchNode>, polled: seq<nat>)
    requires Linked(tree)
    requires forall p :: 0 <= p < |polled| ==> polled[p] < |tree| && IsSquare(tree[polled[p]].board)
  {
    forall i :: 1 <= i < |tree| ==> ParentPolled(tree, polled, i)
  }

  /** Node i's parent is a polled node that is not a goal. */
  ghost predicate ParentPolled(tree: seq<SearchNode>, polled: seq<nat>, i: nat)
    requires Linked(tree) && 1 <= i < |tree|
    requires forall p :: 0 <= p < |polled| ==> polled[p] < |tree| && IsSquare(tree[polled[p]].board)
  {
    exists p :: 0 <= p < |polled| && polled[p] == tree[i].previous.value && !IsGoal(tree[polled[p]].board)
  }

  /** One search so far: `polled` lists the nodes taken off the frontier, in
      order. Every node of the arena is on the frontier or was polled, and only
      once; every polled node before the last is not a goal and was expanded;
      the last one was expanded too unless it is a goal; and no node that was
      not polled, or that is a goal, has children. */
  ghost predicate History(tree: seq<SearchNode>, root: Board, frontier: multiset<nat>, polled: seq<nat>) {
    && ValidTree(tree, root) && InArena(frontier, tree)
    && Accounted(frontier, polled, |tree|)
    && (forall p :: 0 <= p < |polled| ==> polled[p] < |tree|)
    && ParentsPolled(tree, polled)
    && (forall p :: 0 <= p < |polled| - 1 ==> !IsGoal(tree[polled[p]].board) && Expanded(tree, polled[p]))
    && (|polled| > 0 && !LastPolledGoal(tree, polled) ==> Expanded(tree, polled[|polled| - 1]))
  }

  /** While no goal has been polled, every polled node is a non-goal that was
      expanded. */
  lemma PolledAllExpanded(tree: seq<SearchNode>, root: Board, frontier: multiset<nat>, polled: seq<nat>)
    requires History(tree, root, frontier, polled) && !LastPolledGoal(tree, polled)
    ensures forall p :: 0 <= p < |polled| ==> !IsGoal(tree[polled[p]].board) && Expanded(tree, polled[p])
  {
  }

  /** A search starts with its root on the frontier and nothing polled. */
  lemma HistoryStarts(tree: seq<SearchNode>, root: Board)
    requires ValidTree(tree, root) && |tree| == 1
    ensures History(tree, root, multiset{0}, [])
  {
    assert IndexSpan(0, 1) == IndexSpan(0, 0) + multiset{0};
    assert Accounted(multiset{0}, [], 1);
  }

  /** Before the first poll, the frontier holds the root alone. */
  lemma OnlyRootQueued(tree: seq<SearchNode>, root: Board, frontier: multiset<nat>, polled: seq<nat>)
    requires History(tree, root, frontier, polled) && |tree| == 1 && polled == []
    ensures frontier == multiset{0}
  {
    assert Accounted(frontier, [], 1);
    assert frontier == IndexSpan(0, 1) == IndexSpan(0, 0) + multiset{0};
  }

  /** Appending nodes keeps an earlier node's expansion: its children stay. */
  lemma ExpandedStays(tree: seq<SearchNode>, tree': seq<SearchNode>, i: nat)
    requires Linked(tree) && Linked(tree') && |tree| <= |tree'| && tree'[..|tree|] == tree
    requires i < |tree| && ValidBoard(tree[i].board) && Expanded(tree, i)
    ensures Expanded(tree', i)
  {
    assert tree'[i] == tree[i];
    if tree[i].previous.Some? {
      assert tree'[tree[i].previous.value] == tree[tree[i].previous.value];
    }
    assert ParentBoard(tree', i) == ParentBoard(tree, i);
    forall b | b in Unrevisited(Neighbors(tree[i].board), ParentBoard(tree, i))
      ensures exists j :: i < j < |tree'| && tree'[j].previous == Some(i) && tree'[j].board == b
    {
      var j :| i < j < |tree| && tree[j].previous == Some(i) && tree[j].board == b;
      assert tree'[j] == tree[j];
    }
  }

  /** Appending the children of node k expands node k. */
  lemma ExpandedByAppend(tree: seq<SearchNode>, tree': seq<SearchNode>, k: nat, root: Board)
    requires ValidTree(tree, root) && k < |tree| && Linked(tree')
    requires AppendsChildren(tree, tree', k, Unrevisited(Neighbors(tree[k].board), ParentBoard(tree, k)))
    ensures ValidBoard(tree'[k].board) && Expanded(tree', k)
  {
    var kept := Unrevisited(Neighbors(tree[k].board), ParentBoard(tree, k));
    assert tree'[k] == tree[k];
    if tree[k].previous.Some? {
      assert tree'[tree[k].previous.value] == tree[tree[k].previous.value];
    }
    assert ParentBoard(tree', k) == ParentBoard(tree, k);
    forall b | b in kept
      ensures exists j :: k < j < |tree'| && tree'[j].previous == Some(k) && tree'[j].board == b
    {
      var x :| 0 <= x < |kept| && kept[x] == b;
      assert tree'[|tree| + x] == ChildNode(tree, k, kept[x]);
    }
  }

  /** Polling a goal node k records k as the last node polled; the arena and
      the rest of the frontier stay. */
  lemma PollGoalHistory(tree: seq<SearchNode>, root: Board, frontier: multiset<nat>, polled: seq<nat>, k: nat)
    requires History(tree, root, frontier, polled) && !LastPolledGoal(tree, polled)
    requires k in frontier && k < |tree| && IsGoal(tree[k].board)
    ensures History(tree, root, frontier - multiset{k}, polled + [k])
    ensures LastPolledGoal(tree, polled + [k])
  {
    var polled' := polled + [k];
    PolledGoalSpan(|tree|, frontier, polled, k);
    PolledAllExpanded(tree, root, frontier, polled);
    EarlierPollsExpanded(tree, root, polled, k);
    ParentsStayPolled(tree, tree, polled, k);
    assert ParentsPolled(tree, polled');
  }

  /** Appending a poll keeps every earlier poll a non-goal that was expanded. */
  lemma EarlierPollsExpanded(tree: seq<SearchNode>, root: Board, polled: seq<nat>, k: nat)
    requires ValidTree(tree, root) && k < |tree|
    requires forall p :: 0 <= p < |polled| ==> polled[p] < |tree|
    requires forall p :: 0 <= p < |polled| ==> !IsGoal(tree[polled[p]].board) && Expanded(tree, polled[p])
    ensures forall p :: 0 <= p < |polled + [k]| ==> (polled + [k])[p] < |tree|
    ensures forall p :: 0 <= p < |polled + [k]| - 1 ==>
              !IsGoal(tree[(polled + [k])[p]].board) && Expanded(tree, (polled + [k])[p])
  {
    forall p | 0 <= p < |polled|
      ensures (polled + [k])[p] == polled[p]
    {
    }
  }

  /** Polling k keeps the parents of the old nodes among the polled nodes. */
  lemma ParentsStayPolled(tree: seq<SearchNode>, tree': seq<SearchNode>, polled: seq<nat>, k: nat)
    requires Linked(tree) && Linked(tree') && |tree| <= |tree'| && tree'[..|tree|] == tree && k < |tree|
    requires forall p :: 0 <= p < |polled| ==> polled[p] < |tree| && IsSquare(tree[polled[p]].board)
    requires IsSquare(tree[k].board) && ParentsPolled(tree, polled)
    ensures forall i :: 1 <= i < |tree| ==> ParentPolled(tree', polled + [k], i)
  {
    var polled' := polled + [k];
    forall i | 1 <= i < |tree|
      ensures ParentPolled(tree', polled', i)
    {
      assert ParentPolled(tree, polled, i);
      var p :| 0 <= p < |polled| && polled[p] == tree[i].previous.value && !IsGoal(tree[polled[p]].board);
      assert polled'[p] == polled[p] && tree'[i] == tree[i] && tree'[polled[p]] == tree[polled[p]];
    }
  }


  /** Polling a node k that is not a goal and appending its children records k
      as polled and expanded, and the children join the frontier. */
  lemma PollExpandHistory(tree: seq<SearchNode>, root: Board, frontier: multiset<nat>, polled: seq<nat>,
                          k: nat, tree': seq<SearchNode>, frontier': multiset<nat>)
    requires History(tree, root, frontier, polled) && !LastPolledGoal(tree, polled)
    requires k in frontier && k < |tree| && !IsGoal(tree[k].board)
    requires AppendsChildren(tree, tree', k, Unrevisited(Neighbors(tree[k].board), ParentBoard(tree, k)))
    requires frontier' == frontier - multiset{k} + IndexSpan(|tree|, |tree'|)
    requires ValidTree(tree', root) && InArena(frontier', tree')
    ensures History(tree', root, frontier', polled + [k])
    ensures !LastPolledGoal(tree', polled + [k])
  {
    var polled' := polled + [k];
    assert |tree| <= |tree'| && tree'[..|tree|] == tree;
    PolledSpan(|tree|, frontier, polled, k, |tree'|, frontier');
    PolledAllExpanded(tree, root, frontier, polled);
    PolledStayExpanded(tree, tree', root, polled);
    ExpandedByAppend(tree, tree', k, root);
    forall p | 0 <= p < |polled|
      ensures polled'[p] == polled[p] && tree'[polled[p]] == tree[polled[p]]
    {
    }
    assert polled'[|polled|] == k && tree'[k] == tree[k];
    ParentsStayPolled(tree, tree', polled, k);
    forall i | |tree| <= i < |tree'|
      ensures ParentPolled(tree', polled', i)
    {
      AppendedNode(tree, tree', k, Unrevisited(Neighbors(tree[k].board), ParentBoard(tree, k)), i);
      assert polled'[|polled|] == k && tree'[i].previous == Some(k);
    }
    assert ParentsPolled(tree', polled');
  }

  /** Appending nodes keeps every polled node expanded. */
  lemma PolledStayExpanded(tree: seq<SearchNode>, tree': seq<SearchNode>, root: Board, polled: seq<nat>)
    requires ValidTree(tree, root) && ValidTree(tree', root) && |tree| <= |tree'| && tree'[..|tree|] == tree
    requires forall p :: 0 <= p < |polled| ==> polled[p] < |tree| && Expanded(tree, polled[p])
    ensures forall p :: 0 <= p < |polled| ==> Expanded(tree', polled[p])
  {
    forall p | 0 <= p < |polled|
      ensures Expanded(tree', polled[p])
    {
      ExpandedStays(tree, tree', polled[p]);
    }
  }

  /** The frontier plus the polled nodes still cover the arena after node k
      moves from the frontier to the polled list and the new nodes
      size .. size'-1 join the frontier. */
  lemma PolledSpan(size: nat, frontier: multiset<nat>, polled: seq<nat>, k: nat,
                   size': nat, frontier': multiset<nat>)
    requires Accounted(frontier, polled, size) && k in frontier && size <= size'
    requires frontier' == frontier - multiset{k} + IndexSpan(size, size')
    ensures Accounted(frontier', polled + [k], size') && forall x :: x in frontier' ==> x < size'
  {
    AccountedIff(frontier, polled, size);
    AccountedIff(frontier', polled + [k], size');
    IndexSpanSplit(0, size, size');
    var rest := frontier - multiset{k};
    assert frontier == rest + multiset{k};
    assert multiset(polled + [k]) == multiset(polled) + multiset{k};
    calc {
      frontier' + multiset(polled + [k]);
      rest + IndexSpan(size, size') + (multiset(polled) + multiset{k});
      (frontier + multiset(polled)) + IndexSpan(size, size');
      IndexSpan(0, size) + IndexSpan(size, size');
    }
    CoveredBelow(frontier', polled + [k], size');
  }

  /** A frontier that, with the polled nodes, covers the arena holds only
      indices of the arena. */
  lemma CoveredBelow(frontier: multiset<nat>, polled: seq<nat>, size: nat)
    requires frontier + multiset(polled) == IndexSpan(0, size)
    ensures forall x :: x in frontier ==> x < size
  {
    IndexSpanMembers(0, size);
    forall x | x in frontier
      ensures x < size
    {
      assert x in frontier + multiset(polled);
    }
  }

  /** With the frontier empty, every arena index was polled, the newest one
      included. */
  lemma NewestPolled(frontier: multiset<nat>, polled: seq<nat>, size: nat) returns (p: nat)
    requires Accounted(frontier, polled, size) && |frontier| == 0 && size > 0
    ensures p < |polled| && polled[p] == size - 1
  {
    IndexSpanMembers(0, size);
    AccountedIff(frontier, polled, size);
    assert frontier == multiset{} && multiset(polled) == IndexSpan(0, size);
    assert size - 1 in multiset(polled);
    p :| 0 <= p < |polled| && polled[p] == size - 1;
  }

  /** The same when node k, a goal, adds no new nodes. */
  lemma PolledGoalSpan(size: nat, frontier: multiset<nat>, polled: seq<nat>, k: nat)
    requires Accounted(frontier, polled, size) && k in frontier
    ensures Accounted(frontier - multiset{k}, polled + [k], size) && forall x :: x in frontier - multiset{k} ==> x < size
  {
    assert frontier - multiset{k} == frontier - multiset{k} + IndexSpan(size, size);
    PolledSpan(size, frontier, polled, k, size, frontier - multiset{k});
  }

  /** A search whose frontier is empty has polled a goal last: the newest node
      of the arena was polled, and had it not been a goal it would have been
      expanded, with at least one child after it. */
  lemma SpentFrontierEndsInGoal(tree: seq<SearchNode>, root: Board, frontier: multiset<nat>, polled: seq<nat>)
    requires History(tree, root, frontier, polled) && |frontier| == 0
    ensures LastPolledGoal(tree, polled)
  {
    var last := |tree| - 1;
    var p := NewestPolled(frontier, polled, |tree|);
    if !LastPolledGoal(tree, polled) {
      var kept := Unrevisited(Neighbors(tree[last].board), ParentBoard(tree, last));
      UnrevisitedKeepsOne(tree[last].board, ParentBoard(tree, last));
      assert kept[0] in kept;
      PolledAllExpanded(tree, root, frontier, polled);
      assert false;
    }
  }

  /** The effect of one poll on a search: k came off the frontier; a goal
      leaves the arena and the rest of the frontier as they were; any other
      node has its kept children appended and only their indices pushed. */
  ghost predicate PollStep(tree: seq<SearchNode>, frontier: multiset<nat>, k: nat, isGoal: bool,
                           tree': seq<SearchNode>, frontier': multiset<nat>)
  {
    && Linked(tree) && k in frontier && k < |tree| && ValidBoard(tree[k].board)
    && (isGoal <==> IsGoal(tree[k].board))
    && (isGoal ==> tree' == tree && frontier' == frontier - multiset{k})
    && (!isGoal ==>
          && AppendsChildren(tree, tree', k, Unrevisited(Neighbors(tree[k].board), ParentBoard(tree, k)))
          && frontier' == frontier - multiset{k} + IndexSpan(|tree|, |tree'|))
  }

  /** One half of a round of the search loop: polls some node k off a non-empty
      frontier; a goal ends the search, any other node is expanded. The ghost
      `polled` is the search's history so far, which k extends. */
  method Poll(tree: seq<SearchNode>, frontier: multiset<nat>, ghost root: Board, ghost polled: seq<nat>)
    returns (k: nat, isGoal: bool, tree': seq<SearchNode>, frontier': multiset<nat>)
    requires History(tree, root, frontier, polled) && !LastPolledGoal(tree, polled) && |frontier| > 0
    ensures PollStep(tree, frontier, k, isGoal, tree', frontier')
    ensures History(tree', root, frontier', polled + [k])
    ensures LastPolledGoal(tree', polled + [k]) <==> isGoal
  {
    k :| k in frontier;
    var rest := frontier - multiset{k};
    isGoal := CheckGoal(tree[k].board);
    if isGoal {
      tree', frontier' := tree, rest;
      PollGoalHistory(tree, root, frontier, polled, k);
    } else {
      tree', frontier' := Expand(tree, rest, k, root);
      IndexSpanMembers(|tree|, |tree'|);
      PollExpandHistory(tree, root, frontier, polled, k, tree', frontier');
    }
  }

  // ---------------------------------------------------------------------------
  // Solver
  // ---------------------------------------------------------------------------

  /** Why the search stopped. solve()'s loop has no bound; FuelSpent stops a
      search whose `fuel` rounds are all spent. */
  datatype Stop = MainGoal | TwinGoal(node: nat) | FrontierEmpty | FuelSpent

  datatype SolverError = NullBoard

  /** The loop of solution(): follows parent links from node g back to the
      root, putting each board in front of the ones found so far. */
  method WalkBack(tree: seq<SearchNode>, g: nat) returns (path: seq<Board>)
    requires Linked(tree) && g < |tree|
    ensures path == PathTo(tree, g)
  {
    path := [];
    var current: Option<nat> := Some(g);
    while current.Some?
      invariant current.Some? ==> current.value < |tree| && PathTo(tree, current.value) + path == PathTo(tree, g)
      invariant current.None? ==> path == PathTo(tree, g)
      decreases if current.Some? then current.value + 1 else 0
    {
      var node := tree[current.value];
      ghost var before := path;
      path := [node.board] + path;
      match node.previous {
        case None =>
        case Some(p) =>
          assert PathTo(tree, p) + path == PathTo(tree, current.value) + before;
      }
      current := node.previous;
    }
  }

  /** The twin search's arena: a single node for twin() of the initial board. */
  method StartTwin(initial: Board) returns (twinTree: seq<SearchNode>)
    requires ValidBoard(initial)
    ensures HasTwinPair(initial) && ValidTree(twinTree, Twin(initial)) && |twinTree| == 1
  {
    TwinExchangesTwoTiles(initial);
    var twinInitial := ComputeTwin(initial);
    var twinRoot := NewSearchNode(twinInitial, 0, None);
    twinTree := [twinRoot];
  }

  /** The state a finished search leaves: both arenas, both frontiers, the
      nodes each search polled in order, the rounds run, the goal node of the
      main search and why it stopped. */
  datatype SearchEnd = SearchEnd(
    nodes: seq<SearchNode>, twinNodes: seq<SearchNode>,
    frontier: multiset<nat>, twinFrontier: multiset<nat>,
    polled: seq<nat>, twinPolled: seq<nat>,
    rounds: nat, goal: Option<nat>, stop: Stop)

  /** Each round polls the main frontier and then the twin frontier, and at
      most `fuel` rounds run; a round that finds a goal on the main side ends
      before its twin poll. */
  ghost predicate RoundsRun(fuel: nat, e: SearchEnd) {
    && e.rounds <= fuel && |e.polled| == e.rounds
    && |e.twinPolled| == (if e.stop == MainGoal then e.rounds - 1 else e.rounds)
  }

  /** Why the search stopped, read off its history: MainGoal exactly when the
      main search's last poll is a goal, which becomes the goal node;
      TwinGoal(j) exactly when the twin search's last poll j is a goal;
      FrontierEmpty only with an empty frontier; FuelSpent only once all `fuel`
      rounds ran with both frontiers non-empty. */
  ghost predicate StoppedAt(initial: Board, fuel: nat, e: SearchEnd)
    requires HasTwinPair(initial)
    requires History(e.nodes, initial, e.frontier, e.polled)
    requires History(e.twinNodes, Twin(initial), e.twinFrontier, e.twinPolled)
  {
    && (e.stop == MainGoal <==> LastPolledGoal(e.nodes, e.polled))
    && (e.stop.TwinGoal? <==> LastPolledGoal(e.twinNodes, e.twinPolled))
    && (e.goal.Some? <==> e.stop == MainGoal)
    && (e.goal.Some? ==> e.goal.value == e.polled[|e.polled| - 1])
    && (e.stop.TwinGoal? ==> e.stop.node == e.twinPolled[|e.twinPolled| - 1])
    && (e.stop == FrontierEmpty ==> |e.frontier| == 0 || |e.twinFrontier| == 0)
    && (e.stop == FuelSpent ==> e.rounds == fuel && |e.frontier| > 0 && |e.twinFrontier| > 0)
  }

  /** What a search from `initial` with `fuel` rounds promises: each side's
      History holds (its arena is its frontier plus the nodes it polled, a goal
      can only be the last of them, every other polled node was expanded), the
      rounds are counted (RoundsRun) and the search stopped at the first goal
      polled on either side or for a reason it can show (StoppedAt). */
  ghost predicate ValidEnd(initial: Board, fuel: nat, e: SearchEnd) {
    && HasTwinPair(initial)
    && History(e.nodes, initial, e.frontier, e.polled)
    && History(e.twinNodes, Twin(initial), e.twinFrontier, e.twinPolled)
    && RoundsRun(fuel, e)
    && StoppedAt(initial, fuel, e)
  }

  /** The search never runs dry: a frontier that empties without a goal is
      impossible, because the newest node would have been expanded. So the
      loop ends only at a goal or when the fuel is spent. */
  lemma NeverFrontierEmpty(initial: Board, fuel: nat, e: SearchEnd)
    requires ValidEnd(initial, fuel, e)
    ensures e.stop != FrontierEmpty
  {
    if |e.frontier| == 0 {
      SpentFrontierEndsInGoal(e.nodes, initial, e.frontier, e.polled);
    }
    if |e.twinFrontier| == 0 {
      SpentFrontierEndsInGoal(e.twinNodes, Twin(initial), e.twinFrontier, e.twinPolled);
    }
  }

  /** One round of solve()'s loop: polls the main frontier and, unless that
      node is a goal, the twin frontier. Each side's History grows by the node
      it polled; the twin side is left alone when the main side found a goal. */
  method Round(initial: Board, tree: seq<SearchNode>, pq: multiset<nat>, ghost polled: seq<nat>,
               twinTree: seq<SearchNode>, twinPq: multiset<nat>, ghost twinPolled: seq<nat>)
    returns (k: nat, isGoal: bool, j: nat, twinIsGoal: bool,
             tree': seq<SearchNode>, pq': multiset<nat>, twinTree': seq<SearchNode>, twinPq': multiset<nat>)
    requires HasTwinPair(initial)
    requires History(tree, initial, pq, polled) && !LastPolledGoal(tree, polled) && |pq| > 0
    requires History(twinTree, Twin(initial), twinPq, twinPolled) && !LastPolledGoal(twinTree, twinPolled)
    requires |twinPq| > 0
    ensures PollStep(tree, pq, k, isGoal, tree', pq')
    ensures History(tree', initial, pq', polled + [k]) && (LastPolledGoal(tree', polled + [k]) <==> isGoal)
    ensures polled == [] && |tree| == 1 ==> k == 0 && (isGoal <==> IsGoal(initial))
    ensures isGoal ==> twinTree' == twinTree && twinPq' == twinPq && !twinIsGoal
    ensures !isGoal ==>
              && PollStep(twinTree, twinPq, j, twinIsGoal, twinTree', twinPq')
              && History(twinTree', Twin(initial), twinPq', twinPolled + [j])
              && (LastPolledGoal(twinTree', twinPolled + [j]) <==> twinIsGoal)
  {
    if polled == [] && |tree| == 1 {
      OnlyRootQueued(tree, initial, pq, polled);
    }
    k, isGoal, tree', pq' := Poll(tree, pq, initial, polled);
    if isGoal {
      j, twinIsGoal, twinTree', twinPq' := 0, false, twinTree, twinPq;
      return;
    }
    j, twinIsGoal, twinTree', twinPq' := Poll(twinTree, twinPq, Twin(initial), twinPolled);
  }

  /** The loop of solve(): polls the main and the twin frontier in turn until
      one of them yields a goal or one of them is empty. At most `fuel` rounds
      are run. A goal initial board is found by the first poll. */
  method Search(initial: Board, fuel: nat, start: seq<SearchNode>) returns (found: bool, e: SearchEnd)
    requires ValidBoard(initial) && ValidTree(start, initial) && |start| == 1
    ensures ValidEnd(initial, fuel, e)
    ensures found <==> e.stop == MainGoal
    ensures fuel >= 1 && IsGoal(initial) ==> found && e.goal == Some(0)
  {
    var tree, pq := start, multiset{0};
    var polled: seq<nat> := [];
    var twinTree := StartTwin(initial);
    var twinPq := multiset{0};
    var twinPolled: seq<nat> := [];
    HistoryStarts(tree, initial);
    HistoryStarts(twinTree, Twin(initial));
    ghost var startsAtGoal := fuel >= 1 && IsGoal(initial);
    var steps := 0;
    var stop, goal := FrontierEmpty, None;
    found := false;
    while |pq| > 0 && |twinPq| > 0
      invariant History(tree, initial, pq, polled) && !LastPolledGoal(tree, polled)
      invariant History(twinTree, Twin(initial), twinPq, twinPolled) && !LastPolledGoal(twinTree, twinPolled)
      invariant steps <= fuel && |polled| == steps && |twinPolled| == steps
      invariant steps == 0 ==> |tree| == 1
      invariant startsAtGoal ==> steps == 0
      invariant stop == FrontierEmpty && goal == None && !found
      decreases fuel - steps
    {
      if steps == fuel {
        stop := FuelSpent;
        break;
      }
      steps := steps + 1;
      var k, isGoal, j, twinIsGoal;
      k, isGoal, j, twinIsGoal, tree, pq, twinTree, twinPq := Round(initial, tree, pq, polled, twinTree, twinPq, twinPolled);
      polled := polled + [k];
      if isGoal {
        stop, goal, found := MainGoal, Some(k), true;
        break;
      }
      twinPolled := twinPolled + [j];
      if twinIsGoal {
        stop := TwinGoal(j);
        break;
      }
    }
    e := SearchEnd(tree, twinTree, pq, twinPq, polled, twinPolled, steps, goal, stop);
  }

  /** A solver's fields hold the result of a search from a valid initial
      board: the main arena and goal node are the search's, and the solver is
      solvable exactly when the main search found a goal. */
  ghost predicate Recorded(initial: Board, fuel: nat, nodes: seq<SearchNode>, goal: Option<nat>,
                           solvable: bool, search: SearchEnd) {
    && ValidBoard(initial)
    && search.nodes == nodes && search.goal == goal
    && ValidEnd(initial, fuel, search)
    && (solvable <==> search.stop == MainGoal)
  }

  class Solver {
    const initial: Board
    /** The number of search rounds the solver may run. */
    const fuel: nat
    /** The main search's arena; node 0 is the initial search node. */
    var nodes: seq<SearchNode>
    /** Index of the goal search node, once the main search reaches a goal. */
    var goal: Option<nat>
    var solvable: bool
    /** Everything the search left: both arenas, both frontiers, the nodes
        each side polled, the rounds run and why it stopped. The twin side,
        the frontiers and the rounds are local variables of solve(). */
    ghost var search: SearchEnd

    ghost predicate Valid()
      reads this
    {
      Recorded(initial, fuel, nodes, goal, solvable, search)
    }

    /** Builds the initial search node and runs the whole search (solve()),
        recording its result. An initial board that is already the goal is
        solvable in 0 moves. */
    constructor (initial: Board, fuel: nat)
      requires ValidBoard(initial)
      ensures Valid() && this.initial == initial && this.fuel == fuel
      ensures search.stop != FrontierEmpty
      ensures fuel >= 1 && IsGoal(initial) ==> solvable && goal == Some(0)
      ensures fuel >= 1 && IsGoal(initial) ==> Moves() == 0
    {
      this.initial := initial;
      this.fuel := fuel;
      var root := NewSearchNode(initial, 0, None);
      RootIsTree(root, initial);
      var found, e := Search(initial, fuel, [root]);
      NeverFrontierEmpty(initial, fuel, e);
      nodes, goal, search := e.nodes, e.goal, e;
      solvable := found;
      new;
      // Valid(), spelled out over the fields just set.
      assert Recorded(initial, fuel, nodes, goal, solvable, search);
    }

    function IsSolvable(): (b: bool)
      reads this
      requires Valid()
      ensures b <==> search.stop == MainGoal
      ensures b ==> goal.Some? && IsGoal(nodes[goal.value].board)
    {
      solvable
    }

    /** -1 when not solvable; otherwise the goal node's moves, which is one less
        than the length of its chain back to the initial node. */
    function Moves(): (m: int)
      reads this
      requires Valid()
      ensures m == -1 <==> !solvable
      ensures solvable ==> m + 1 == |PathTo(nodes, goal.value)|
    {
      if solvable then
        PathToIsChain(nodes, initial, goal.value);
        nodes[goal.value].moves
      else -1
    }

    /** The boards from the initial board to the goal: empty when not solvable. */
    method Solution() returns (path: seq<Board>)
      requires Valid()
      ensures !solvable ==> path == []
      ensures solvable ==>
                && path == PathTo(nodes, goal.value)
                && |path| == Moves() + 1
                && path[0] == initial
                && NeighborChain(path)
                && IsGoal(path[|path| - 1])
    {
      if !solvable {
        return [];
      }
      path := WalkBack(nodes, goal.value);
      PathToIsChain(nodes, initial, goal.value);
    }
  }

  /** The Solver constructor's null check: no board, no search. */
  method Create(initial: Option<Board>, fuel: nat) returns (r: Result<Solver, SolverError>)
    requires initial.Some? ==> ValidBoard(initial.value)
    ensures initial.None? ==> r == Failure(NullBoard)
    ensures initial.Some? ==> r.Success? && fresh(r.value) && r.value.Valid() && r.value.initial == initial.value
  {
    if initial.None? {
      return Failure(NullBoard);
    }
    var s := new Solver(initial.value, fuel);
    return Success(s);
  }
}
