/** find_connected_groups (block.py): split a list of cells into groups that
    are each connected by orthogonal adjacency. The merge is modelled step for
    step; its result is a partition into connected groups, but the groups are
    not always maximal (a group's merged members never contribute their own
    adjacencies), so no "different groups are disconnected" claim is made. */
module Groups {
  import opened Points
  import opened Seqs

  /** A chain of cells, each orthogonally adjacent to the previous one, that
      stays inside `within`. */
  ghost predicate IsPath(path: seq<Point>, within: seq<Point>) {
    && |path| > 0
    && (forall k :: 0 <= k < |path| ==> path[k] in within)
    && (forall k :: 0 < k < |path| ==> Adjacent(path[k - 1], path[k]))
  }

  /** Some adjacency chain inside `within` leads from `x` to `y`. */
  ghost predicate Linked(x: Point, y: Point, within: seq<Point>) {
    exists path :: IsPath(path, within) && path[0] == x && path[|path| - 1] == y
  }

  /** Every two cells of `g` are linked by a chain that stays inside `g`. */
  ghost predicate Connected(g: seq<Point>) {
    forall x, y :: x in g && y in g ==> Linked(x, y, g)
  }

  /** `p` has no orthogonal neighbour among `pts`. */
  predicate Isolated(p: Point, pts: seq<Point>) {
    forall q :: q in pts ==> !Adjacent(p, q)
  }

  /** The adjacency list of `p` in `pts`, in input order: the value the source
      stores for `p` in its adjacency graph. */
  function Neighbours(p: Point, pts: seq<Point>): (r: seq<Point>)
    ensures forall q :: q in r <==> q in pts && Adjacent(p, q)
  {
    if |pts| == 0 then []
    else
      assert forall q :: q in pts <==> q == pts[0] || q in pts[1..];
      (if Adjacent(p, pts[0]) then [pts[0]] else []) + Neighbours(p, pts[1..])
  }

  /** The keys of the source's adjacency graph, in insertion order: the cells
      of `pts` that have at least one neighbour in `all`. */
  function WithNeighbours(pts: seq<Point>, all: seq<Point>): (r: seq<Point>)
    ensures forall q :: q in r <==> q in pts && !Isolated(q, all)
  {
    if |pts| == 0 then []
    else
      assert forall q :: q in pts <==> q == pts[0] || q in pts[1..];
      NeighboursEmptyIffIsolated(pts[0], all);
      (if Neighbours(pts[0], all) != [] then [pts[0]] else []) + WithNeighbours(pts[1..], all)
  }

  lemma NeighboursEmptyIffIsolated(p: Point, pts: seq<Point>)
    ensures Neighbours(p, pts) == [] <==> Isolated(p, pts)
  {
    if !Isolated(p, pts) {
      var q :| q in pts && Adjacent(p, q);
      assert q in Neighbours(p, pts);
    }
  }

  lemma PathWiden(path: seq<Point>, w: seq<Point>, w': seq<Point>)
    requires IsPath(path, w)
    requires forall x :: x in w ==> x in w'
    ensures IsPath(path, w')
  {
  }

  lemma PathConcat(p1: seq<Point>, p2: seq<Point>, w: seq<Point>)
    requires IsPath(p1, w) && IsPath(p2, w)
    requires Adjacent(p1[|p1| - 1], p2[0])
    ensures IsPath(p1 + p2, w)
  {
    var p := p1 + p2;
    forall k | 0 < k < |p|
      ensures Adjacent(p[k - 1], p[k])
    {
      if k < |p1| {
        assert p[k - 1] == p1[k - 1] && p[k] == p1[k];
      } else if k == |p1| {
        assert p[k - 1] == p1[|p1| - 1] && p[k] == p2[0];
      } else {
        assert p[k - 1] == p2[k - 1 - |p1|] && p[k] == p2[k - |p1|];
      }
    }
  }

  lemma SingletonConnected(p: Point)
    ensures Connected([p])
  {
    assert IsPath([p], [p]);
  }

  /** Linking two cells across an adjacent pair: a chain to `a`, the step to
      `b`, then a chain from `b`. */
  lemma LinkAcross(x: Point, a: Point, b: Point, y: Point, w1: seq<Point>, w2: seq<Point>, w: seq<Point>)
    requires Linked(x, a, w1) && Linked(b, y, w2) && Adjacent(a, b)
    requires forall z :: z in w1 ==> z in w
    requires forall z :: z in w2 ==> z in w
    ensures Linked(x, y, w)
  {
    var p1 :| IsPath(p1, w1) && p1[0] == x && p1[|p1| - 1] == a;
    var p2 :| IsPath(p2, w2) && p2[0] == b && p2[|p2| - 1] == y;
    PathWiden(p1, w1, w);
    PathWiden(p2, w2, w);
    PathConcat(p1, p2, w);
    assert (p1 + p2)[0] == x && (p1 + p2)[|p1 + p2| - 1] == y;
  }

  /** Two connected groups joined at an adjacent pair form a connected group. */
  lemma MergeConnected(ga: seq<Point>, gb: seq<Point>, a: Point, b: Point)
    requires Connected(ga) && Connected(gb)
    requires a in ga && b in gb && Adjacent(a, b)
    ensures Connected(ga + gb)
  {
    var g := ga + gb;
    AdjacentSymmetric(a, b);
    forall x, y | x in g && y in g
      ensures Linked(x, y, g)
    {
      if x in ga && y in ga {
        var p :| IsPath(p, ga) && p[0] == x && p[|p| - 1] == y;
        PathWiden(p, ga, g);
      } else if x in gb && y in gb {
        var p :| IsPath(p, gb) && p[0] == x && p[|p| - 1] == y;
        PathWiden(p, gb, g);
      } else if x in ga {
        LinkAcross(x, a, b, y, ga, gb, g);
      } else {
        LinkAcross(x, b, a, y, gb, ga, g);
      }
    }
  }

  /** The bookkeeping of the merge loop: `groups[i]` is the group with index
      `i`, `owner` maps each cell to the index of the group holding it, every
      group is connected, and the groups together hold exactly the input. */
  ghost predicate Partitioned(points: seq<Point>, groups: seq<seq<Point>>, owner: map<Point, nat>) {
    && |groups| == |points|
    && (forall p :: p in points ==> p in owner && owner[p] < |groups| && p in groups[owner[p]])
    && (forall i, p :: 0 <= i < |groups| && p in groups[i] ==> p in points && p in owner && owner[p] == i)
    && (forall i :: 0 <= i < |groups| ==> Connected(groups[i]))
    && multiset(Flatten(groups)) == multiset(points)
  }

  /** Moving every member of group `g` to the end of group `acceptor` and
      emptying `g`. */
  function Merge(groups: seq<seq<Point>>, acceptor: nat, g: nat): (r: seq<seq<Point>>)
    requires acceptor < |groups| && g < |groups|
    ensures |r| == |groups| && r[g] == []
    ensures acceptor != g ==> r[acceptor] == groups[acceptor] + groups[g]
    ensures forall j :: 0 <= j < |groups| && j != acceptor && j != g ==> r[j] == groups[j]
  {
    groups[acceptor := groups[acceptor] + groups[g]][g := []]
  }

  /** Pointing every cell of `moved` at group `acceptor`. */
  function Reassign(owner: map<Point, nat>, moved: seq<Point>, acceptor: nat): (r: map<Point, nat>)
    ensures r.Keys == owner.Keys
    ensures forall p :: p in owner && p in moved ==> r[p] == acceptor
    ensures forall p :: p in owner && p !in moved ==> r[p] == owner[p]
  {
    map p | p in owner :: if p in moved then acceptor else owner[p]
  }

  /** One merge of the inner loop keeps the bookkeeping consistent. */
  lemma MergeStep(points: seq<Point>, groups: seq<seq<Point>>, owner: map<Point, nat>,
                  acceptor: nat, g: nat, cur: Point, a: Point)
    requires Partitioned(points, groups, owner)
    requires acceptor < |groups| && g < |groups| && acceptor != g
    requires cur in groups[acceptor] && a in groups[g] && Adjacent(cur, a)
    ensures Partitioned(points, Merge(groups, acceptor, g), Reassign(owner, groups[g], acceptor))
  {
    MergeOwners(points, groups, owner, acceptor, g);
    MergeKeepsConnected(groups, acceptor, g, cur, a);
    MergeKeepsMultiset(groups, acceptor, g);
  }

  lemma MergeOwners(points: seq<Point>, groups: seq<seq<Point>>, owner: map<Point, nat>, acceptor: nat, g: nat)
    requires Partitioned(points, groups, owner)
    requires acceptor < |groups| && g < |groups| && acceptor != g
    ensures var groups', owner' := Merge(groups, acceptor, g), Reassign(owner, groups[g], acceptor);
      && (forall p :: p in points ==> p in owner' && owner'[p] < |groups'| && p in groups'[owner'[p]])
      && (forall i, p :: 0 <= i < |groups'| && p in groups'[i] ==> p in points && p in owner' && owner'[p] == i)
  {
    var moved := groups[g];
    var groups' := Merge(groups, acceptor, g);
    var owner' := Reassign(owner, moved, acceptor);
    assert groups'[acceptor] == groups[acceptor] + moved;
    forall p | p in points
      ensures p in owner' && owner'[p] < |groups'| && p in groups'[owner'[p]]
    {
      if p !in moved {
        assert owner[p] != g;
      }
    }
    assert forall q :: q in moved ==> owner[q] == g;
    forall i, p | 0 <= i < |groups'| && p in groups'[i]
      ensures p in points && p in owner' && owner'[p] == i
    {
      if i == acceptor {
        if p in groups[acceptor] {
          assert p !in moved;
        }
      } else if i != g {
        assert groups'[i] == groups[i];
        assert owner[p] == i;
      }
    }
  }

  lemma MergeKeepsConnected(groups: seq<seq<Point>>, acceptor: nat, g: nat, cur: Point, a: Point)
    requires acceptor < |groups| && g < |groups| && acceptor != g
    requires forall i :: 0 <= i < |groups| ==> Connected(groups[i])
    requires cur in groups[acceptor] && a in groups[g] && Adjacent(cur, a)
    ensures var groups' := Merge(groups, acceptor, g);
      forall i :: 0 <= i < |groups'| ==> Connected(groups'[i])
  {
    MergeConnected(groups[acceptor], groups[g], cur, a);
    SingletonConnectedEmpty();
  }

  lemma MergeKeepsMultiset(groups: seq<seq<Point>>, acceptor: nat, g: nat)
    requires acceptor < |groups| && g < |groups| && acceptor != g
    ensures multiset(Flatten(Merge(groups, acceptor, g))) == multiset(Flatten(groups))
  {
    var moved := groups[g];
    var joined := groups[acceptor] + moved;
    var mid := groups[acceptor := joined];
    var m0, m1, m2 := multiset(Flatten(groups)), multiset(Flatten(mid)), multiset(Flatten(mid[g := []]));
    FlattenUpdate(groups, acceptor, joined);
    assert multiset(joined) == multiset(groups[acceptor]) + multiset(moved);
    MultisetCancel(m0, m1, multiset(groups[acceptor]), multiset(moved));
    FlattenUpdate(mid, g, []);
    assert mid[g] == moved;
    var none: multiset<Point> := multiset{};
    assert m2 + multiset(moved) == m0 + (multiset(moved) + none);
    MultisetCancel(m0, m2, multiset(moved), none);
    assert Merge(groups, acceptor, g) == mid[g := []];
  }

  lemma SingletonConnectedEmpty()
    ensures Connected([])
  {
  }

  /** What holds between merges: the bookkeeping is consistent, every cell
      still waiting in the adjacency graph sits alone in its own group, and
      so does every cell without neighbours. */
  ghost predicate Between(points: seq<Point>, groups: seq<seq<Point>>, owner: map<Point, nat>, pending: seq<Point>) {
    && Partitioned(points, groups, owner)
    && (forall p :: p in pending ==> p in points && !Isolated(p, points) && groups[owner[p]] == [p])
    && (forall p :: p in points && Isolated(p, points) ==> groups[owner[p]] == [p])
  }

  /** What holds while `cur` absorbs the groups of its neighbours `adjs`. */
  ghost predicate Absorbing(points: seq<Point>, groups: seq<seq<Point>>, owner: map<Point, nat>,
                            pending: seq<Point>, cur: Point, acceptor: nat, adjs: seq<Point>) {
    && Partitioned(points, groups, owner)
    && Heads(points, groups, owner, pending, cur, acceptor, adjs)
    && Waiting(points, groups, owner, pending, cur)
  }

  /** `cur` is still waiting, owns group `acceptor`, and what is left to merge
      is outside that group and adjacent to `cur`. */
  ghost predicate Heads(points: seq<Point>, groups: seq<seq<Point>>, owner: map<Point, nat>,
                        pending: seq<Point>, cur: Point, acceptor: nat, adjs: seq<Point>) {
    && cur in pending && cur in points && !Isolated(cur, points)
    && cur in owner && acceptor == owner[cur] && acceptor < |groups| && cur in groups[acceptor]
    && (forall x :: x in groups[acceptor] ==> x !in adjs)
    && (forall q :: q in adjs ==> q in points && Adjacent(cur, q))
  }

  /** Every other waiting cell, and every cell without neighbours, is alone in
      its group. */
  ghost predicate Waiting(points: seq<Point>, groups: seq<seq<Point>>, owner: map<Point, nat>,
                          pending: seq<Point>, cur: Point) {
    && (forall p :: p in pending && p != cur ==> p in points && !Isolated(p, points) && p in owner && owner[p] < |groups| && groups[owner[p]] == [p])
    && (forall p :: p in points && Isolated(p, points) ==> p in owner && owner[p] < |groups| && groups[owner[p]] == [p])
  }

  lemma StartAbsorbing(points: seq<Point>, groups: seq<seq<Point>>, owner: map<Point, nat>, pending: seq<Point>)
    requires Between(points, groups, owner, pending) && |pending| > 0
    ensures Absorbing(points, groups, owner, pending, pending[0], owner[pending[0]], Neighbours(pending[0], points))
  {
    AdjacentIrreflexive(pending[0]);
  }

  /** Merging the group of `cur`'s next neighbour into `cur`'s group keeps
      the absorbing state. (The `== true` keeps the verifier from splitting
      Absorbing into one goal per conjunct, which costs far more than
      proving it whole.) */
  lemma AbsorbStep(points: seq<Point>, groups: seq<seq<Point>>, owner: map<Point, nat>,
                   pending: seq<Point>, cur: Point, acceptor: nat, adjs: seq<Point>, g: nat)
    requires Absorbing(points, groups, owner, pending, cur, acceptor, adjs) && |adjs| > 0
    requires adjs[0] in owner && g == owner[adjs[0]]
    ensures g < |groups| && g != acceptor && adjs[0] in groups[g]
    ensures Absorbing(points, Merge(groups, acceptor, g), Reassign(owner, groups[g], acceptor),
                      Without(pending, groups[g]), cur, acceptor, Without(adjs, groups[g])) == true
  {
    var a := adjs[0];
    assert a in groups[g];
    var groups', owner' := Merge(groups, acceptor, g), Reassign(owner, groups[g], acceptor);
    var pending', adjs' := Without(pending, groups[g]), Without(adjs, groups[g]);
    assert Partitioned(points, groups', owner') by {
      MergeStep(points, groups, owner, acceptor, g, cur, a);
    }
    assert Heads(points, groups', owner', pending', cur, acceptor, adjs') by {
      AbsorbKeepsCur(points, groups, owner, pending, cur, acceptor, adjs, g);
    }
    assert Waiting(points, groups', owner', pending', cur) by {
      AbsorbKeepsSingletons(points, groups, owner, pending, cur, acceptor, g, a);
    }
  }

  /** After a merge `cur` still heads its grown group, and none of that group
      is left among the neighbours to merge. */
  lemma AbsorbKeepsCur(points: seq<Point>, groups: seq<seq<Point>>, owner: map<Point, nat>,
                       pending: seq<Point>, cur: Point, acceptor: nat, adjs: seq<Point>, g: nat)
    requires Heads(points, groups, owner, pending, cur, acceptor, adjs)
    requires g < |groups| && acceptor != g
    requires Partitioned(points, groups, owner)
    ensures Heads(points, Merge(groups, acceptor, g), Reassign(owner, groups[g], acceptor),
                  Without(pending, groups[g]), cur, acceptor, Without(adjs, groups[g]))
  {
    var groups' := Merge(groups, acceptor, g);
    assert groups'[acceptor] == groups[acceptor] + groups[g];
    assert cur !in groups[g];
  }

  /** Cells still waiting, and cells without neighbours, stay alone in their
      groups across a merge. */
  lemma AbsorbKeepsSingletons(points: seq<Point>, groups: seq<seq<Point>>, owner: map<Point, nat>,
                              pending: seq<Point>, cur: Point, acceptor: nat, g: nat, a: Point)
    requires Partitioned(points, groups, owner)
    requires acceptor < |groups| && g < |groups| && acceptor != g
    requires cur in groups[acceptor] && !Isolated(cur, points) && a in groups[g]
    requires a in points && Adjacent(cur, a) && cur in points
    requires Waiting(points, groups, owner, pending, cur)
    ensures Waiting(points, Merge(groups, acceptor, g), Reassign(owner, groups[g], acceptor),
                    Without(pending, groups[g]), cur)
  {
    var moved := groups[g];
    var groups', owner' := Merge(groups, acceptor, g), Reassign(owner, moved, acceptor);
    AdjacentSymmetric(cur, a);
    forall p | p in points && Isolated(p, points)
      ensures groups'[owner'[p]] == [p]
    {
      assert owner[p] != acceptor;
      assert a !in groups[owner[p]];
      assert p !in moved;
    }
    forall p | p in Without(pending, moved) && p != cur
      ensures groups'[owner'[p]] == [p]
    {
      assert owner[p] != acceptor;
      assert owner[p] != g;
    }
  }

  lemma FinishAbsorbing(points: seq<Point>, groups: seq<seq<Point>>, owner: map<Point, nat>,
                        pending: seq<Point>, cur: Point, acceptor: nat)
    requires Absorbing(points, groups, owner, pending, cur, acceptor, [])
    ensures Between(points, groups, owner, Without(pending, [cur]))
  {
  }

  /** find_connected_groups. The outer loop takes the first remaining key of
      the adjacency graph and merges into its group, one group at a time, the
      group of each of its neighbours; every merged cell leaves the graph. */
  method FindConnectedGroups(points: seq<Point>) returns (result: seq<seq<Point>>)
    requires NoDup(points)
    ensures forall i :: 0 <= i < |result| ==> |result[i]| > 0
    ensures multiset(Flatten(result)) == multiset(points)
    ensures forall i, j, p :: 0 <= i < |result| && 0 <= j < |result| && p in result[i] && p in result[j] ==> i == j
    ensures forall i :: 0 <= i < |result| ==> NoDup(result[i]) && Connected(result[i])
    ensures forall p :: p in points && Isolated(p, points) ==> [p] in result
    ensures |points| == 0 ==> result == []
  {
    var pending := WithNeighbours(points, points);
    var groups := Singletons(points);
    var owner := IndexOf(points);
    InitialPartition(points);

    while |pending| > 0
      invariant Between(points, groups, owner, pending)
      decreases |pending|
    {
      var cur := pending[0];
      var acceptor := owner[cur];
      var adjs := Neighbours(cur, points);
      ghost var pendingSize := |pending|;
      StartAbsorbing(points, groups, owner, pending);
      while |adjs| > 0
        invariant Absorbing(points, groups, owner, pending, cur, acceptor, adjs)
        invariant |pending| <= pendingSize
        decreases |adjs|
      {
        var g := owner[adjs[0]];
        AbsorbStep(points, groups, owner, pending, cur, acceptor, adjs, g);
        var moved := groups[g];
        groups := Merge(groups, acceptor, g);
        owner := Reassign(owner, moved, acceptor);
        pending := Without(pending, moved);
        adjs := Without(adjs, moved);
      }
      FinishAbsorbing(points, groups, owner, pending, cur, acceptor);
      pending := Without(pending, [cur]);
    }

    result := NonEmpty(groups);
    Finish(points, groups, owner, result);
  }

  /** `[[pt] for pt in points]`: every cell starts in a group of its own. */
  function Singletons(points: seq<Point>): (groups: seq<seq<Point>>)
    ensures |groups| == |points|
    ensures forall i :: 0 <= i < |points| ==> groups[i] == [points[i]]
  {
    seq(|points|, i requires 0 <= i < |points| => [points[i]])
  }

  /** `{points[i]: i for i in range(len(points))}`: each cell's own group. */
  function IndexOf(points: seq<Point>): (owner: map<Point, nat>)
    requires NoDup(points)
    ensures forall i :: 0 <= i < |points| ==> points[i] in owner && owner[points[i]] == i
    ensures forall p :: p in owner ==> p in points
  {
    map i: nat | i < |points| :: points[i] := i
  }

  lemma InitialPartition(points: seq<Point>)
    requires NoDup(points)
    ensures Partitioned(points, Singletons(points), IndexOf(points))
  {
    var groups, owner := Singletons(points), IndexOf(points);
    forall p | p in points
      ensures p in owner && owner[p] < |groups| && p in groups[owner[p]]
    {
      var i :| 0 <= i < |points| && points[i] == p;
      assert owner[p] == i;
    }
    forall i, p | 0 <= i < |groups| && p in groups[i]
      ensures p in points && p in owner && owner[p] == i
    {
      assert p == points[i];
    }
    forall i | 0 <= i < |groups|
      ensures Connected(groups[i])
    {
      SingletonConnected(points[i]);
    }
    FlattenSingletons(points, groups);
  }

  lemma {:induction false} FlattenSingletons(points: seq<Point>, groups: seq<seq<Point>>)
    requires |groups| == |points|
    requires forall i :: 0 <= i < |points| ==> groups[i] == [points[i]]
    ensures Flatten(groups) == points
  {
    if |points| > 0 {
      FlattenSingletons(points[1..], groups[1..]);
      assert points == [points[0]] + points[1..];
    }
  }

  /** The output contract follows from the final bookkeeping. */
  lemma Finish(points: seq<Point>, groups: seq<seq<Point>>, owner: map<Point, nat>, result: seq<seq<Point>>)
    requires NoDup(points)
    requires Partitioned(points, groups, owner)
    requires forall p :: p in points && Isolated(p, points) ==> groups[owner[p]] == [p]
    requires result == NonEmpty(groups)
    ensures forall i :: 0 <= i < |result| ==> |result[i]| > 0
    ensures multiset(Flatten(result)) == multiset(points)
    ensures forall i, j, p :: 0 <= i < |result| && 0 <= j < |result| && p in result[i] && p in result[j] ==> i == j
    ensures forall i :: 0 <= i < |result| ==> NoDup(result[i]) && Connected(result[i])
    ensures forall p :: p in points && Isolated(p, points) ==> [p] in result
    ensures |points| == 0 ==> result == []
  {
    assert forall i :: 0 <= i < |result| ==> result[i] in result;
    NoDupFromMultiset(points, Flatten(result));
    FlattenNoDup(result);
    forall i | 0 <= i < |result|
      ensures Connected(result[i])
    {
      assert result[i] in groups;
    }
    if |result| > 0 {
      assert result[0] in result;
      assert Flatten(result) == result[0] + Flatten(result[1..]);
      assert |multiset(Flatten(result))| > 0;
    }
  }
}
