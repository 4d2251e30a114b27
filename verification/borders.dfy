/**
  `NewSolver.GetBorderGroup` and `GetBorderGroups`: a recursive flood fill
  that collects the covered cells that have a revealed clue around them,
  linked through 8-adjacency (block neighbourhood), and the loop that splits
  the border into such groups.
 */
module BorderGroups {
  import opened Boards

  /** The test `GetBorderGroup` applies before adding a cell: covered, with a clue around it. */
  predicate Qualifies(b: Grid, p: Point) {
    b.InBounds(p) && Get(b, p) == Covered && |SurroundingNumbers(b, p.x, p.y)| > 0
  }

  /** A group under construction: distinct qualifying cells. */
  predicate GroupInv(b: Grid, g: seq<Point>) {
    Distinct(g) && forall q | q in g :: Qualifies(b, q)
  }

  lemma GroupBound(b: Grid, g: seq<Point>)
    requires GroupInv(b, g)
    ensures |g| <= |Cells(b, AnyValue)|
  {
    DistinctSubsetLength(g, Cells(b, AnyValue));
  }

  /** The members from index k on have every qualifying neighbour in the group. */
  ghost predicate ClosedFrom(b: Grid, r: seq<Point>, k: nat) {
    forall i, q | k <= i < |r| && Qualifies(b, q) && Near(q, r[i].x, r[i].y) :: q in r
  }

  lemma ClosedFromExtend(b: Grid, g: seq<Point>, r: seq<Point>, k: nat)
    requires ClosedFrom(b, g, k) && ClosedFrom(b, r, |g|)
    requires |g| <= |r| && r[..|g|] == g
    ensures ClosedFrom(b, r, k)
  {
    forall i, q | k <= i < |r| && Qualifies(b, q) && Near(q, r[i].x, r[i].y)
      ensures q in r
    {
      if i < |g| {
        assert r[i] == g[i];
        assert q in g;
        var j :| 0 <= j < |g| && g[j] == q;
        assert r[j] == q;
      }
    }
  }

  /**
    `GetBorderGroup(p, ref group)`: nothing happens unless p is covered and not
    yet in the group; then, if p has a clue around it, p is appended and the
    fill continues from each covered cell of its block in row-major order.
   */
  function GroupFrom(b: Grid, p: Point, g: seq<Point>): (r: seq<Point>)
    requires b.InBounds(p) && GroupInv(b, g)
    decreases |Cells(b, AnyValue)| - |g|, 0, 0
    ensures GroupInv(b, r)
    ensures |g| <= |r| && r[..|g|] == g
    ensures Qualifies(b, p) ==> p in r
    ensures Qualifies(b, p) && p !in g ==> |r| > |g| && r[|g|] == p
    ensures !Qualifies(b, p) || p in g ==> r == g
    ensures ClosedFrom(b, r, |g|)
  {
    GroupBound(b, g);
    if Get(b, p) != Covered then g
    else if p in g then g
    else if |SurroundingNumbers(b, p.x, p.y)| > 0 then
      var g' := g + [p];
      AppendQualifying(b, g, p);
      GroupBound(b, g');
      var r := GroupList(b, SurroundingClicks(b, p.x, p.y), g');
      FillAfter(b, p, g, r);
      r
    else g
  }

  lemma AppendQualifying(b: Grid, g: seq<Point>, p: Point)
    requires GroupInv(b, g) && Qualifies(b, p) && p !in g
    ensures GroupInv(b, g + [p])
  {
  }

  /**
    After appending p and filling from its covered neighbours, the group
    still starts with g, then p, and is closed from p on.
   */
  lemma FillAfter(b: Grid, p: Point, g: seq<Point>, r: seq<Point>)
    requires Qualifies(b, p) && p !in g
    requires var g' := g + [p];
             && |g'| <= |r| && r[..|g'|] == g'
             && (forall q | q in SurroundingClicks(b, p.x, p.y) && Qualifies(b, q) :: q in r)
             && ClosedFrom(b, r, |g'|)
    ensures |g| < |r| && r[..|g|] == g && r[|g|] == p
    ensures ClosedFrom(b, r, |g|)
  {
    var g' := g + [p];
    assert r[..|g|] == r[..|g'|][..|g|];
    assert r[|g|] == r[..|g'|][|g|];
    forall i, q | |g| <= i < |r| && Qualifies(b, q) && Near(q, r[i].x, r[i].y)
      ensures q in r
    {
      if i == |g| {
        assert q in SurroundingClicks(b, p.x, p.y);
      }
    }
  }

  /** The `foreach` over `GetSurroundingClicks(p)` inside `GetBorderGroup`. */
  function GroupList(b: Grid, ps: seq<Point>, g: seq<Point>): (r: seq<Point>)
    requires forall q | q in ps :: b.InBounds(q)
    requires GroupInv(b, g)
    decreases |Cells(b, AnyValue)| - |g|, 1, |ps|
    ensures GroupInv(b, r)
    ensures |g| <= |r| && r[..|g|] == g
    ensures forall q | q in ps && Qualifies(b, q) :: q in r
    ensures ClosedFrom(b, r, |g|)
  {
    GroupBound(b, g);
    if ps == [] then g
    else
      var g1 := GroupFrom(b, ps[0], g);
      GroupBound(b, g1);
      assert forall q | q in ps[1..] :: q in ps;
      var r := GroupList(b, ps[1..], g1);
      GroupListStep(b, ps, g, g1, r);
      r
  }

  /** How one round of the `foreach` composes with the rest. */
  lemma GroupListStep(b: Grid, ps: seq<Point>, g: seq<Point>, g1: seq<Point>, r: seq<Point>)
    requires ps != []
    requires |g| <= |g1| && g1[..|g|] == g && ClosedFrom(b, g1, |g|)
    requires Qualifies(b, ps[0]) ==> ps[0] in g1
    requires |g1| <= |r| && r[..|g1|] == g1 && ClosedFrom(b, r, |g1|)
    requires forall q | q in ps[1..] && Qualifies(b, q) :: q in r
    ensures |g| <= |r| && r[..|g|] == g
    ensures forall q | q in ps && Qualifies(b, q) :: q in r
    ensures ClosedFrom(b, r, |g|)
  {
    assert r[..|g|] == r[..|g1|][..|g|];
    ClosedFromExtend(b, g1, r, |g|);
    if ps[0] in g1 {
      var j :| 0 <= j < |g1| && g1[j] == ps[0];
      assert r[j] == ps[0];
    }
    forall q | q in ps && Qualifies(b, q)
      ensures q in r
    {
      if q != ps[0] {
        var k :| 0 <= k < |ps| && ps[k] == q;
        assert ps[1..][k - 1] == q;
      }
    }
  }

  /** `GetBorderGroup(p, ref grp)` on a fresh list. */
  function BorderGroup(b: Grid, p: Point): (r: seq<Point>)
    requires b.InBounds(p)
    ensures GroupInv(b, r)
    ensures Qualifies(b, p) ==> |r| > 0 && r[0] == p
    ensures !Qualifies(b, p) ==> r == []
  {
    GroupFrom(b, p, [])
  }

  /** Every qualifying neighbour of a member of S is in S. */
  ghost predicate Closed(b: Grid, S: set<Point>) {
    forall m, n | m in S && Qualifies(b, n) && Near(n, m.x, m.y) :: n in S
  }

  /** The qualifying cells outside U. */
  ghost function Outside(b: Grid, U: set<Point>): (S: set<Point>)
    ensures forall q :: q in S <==> Qualifies(b, q) && q !in U
  {
    set x, y | 0 <= x < b.cols && 0 <= y < b.rows && Qualifies(b, Point(x, y)) && Point(x, y) !in U :: Point(x, y)
  }

  /** Linking is symmetric, so what lies outside a closed set is closed too. */
  lemma OutsideClosed(b: Grid, U: set<Point>)
    requires Closed(b, U)
    ensures Closed(b, Outside(b, U))
  {
    forall m, n | m in Outside(b, U) && Qualifies(b, n) && Near(n, m.x, m.y)
      ensures n in Outside(b, U)
    {
      NearSymmetric(n, m);
    }
  }

  /** The fill started in a closed set S never leaves it. */
  lemma {:induction false} GroupFromWithin(b: Grid, p: Point, g: seq<Point>, S: set<Point>)
    requires b.InBounds(p) && GroupInv(b, g) && Closed(b, S)
    requires Qualifies(b, p) && p !in g ==> p in S
    decreases |Cells(b, AnyValue)| - |g|, 0, 0
    ensures forall i | |g| <= i < |GroupFrom(b, p, g)| :: GroupFrom(b, p, g)[i] in S
  {
    GroupBound(b, g);
    if Get(b, p) == Covered && p !in g && |SurroundingNumbers(b, p.x, p.y)| > 0 {
      var g' := g + [p];
      AppendQualifying(b, g, p);
      GroupBound(b, g');
      var ps := SurroundingClicks(b, p.x, p.y);
      NeighboursWithin(b, p, S);
      GroupListWithin(b, ps, g', S);
      var r := GroupList(b, ps, g');
      assert r == GroupFrom(b, p, g);
      WithinAfter(p, g, r, S);
    }
  }

  /** The qualifying covered neighbours of a member of a closed set are members too. */
  lemma NeighboursWithin(b: Grid, p: Point, S: set<Point>)
    requires Closed(b, S) && p in S
    ensures forall q | q in SurroundingClicks(b, p.x, p.y) && Qualifies(b, q) :: q in S
  {
  }

  /** A fill that starts with g then p and stays in S after p stays in S after g. */
  lemma WithinAfter(p: Point, g: seq<Point>, r: seq<Point>, S: set<Point>)
    requires p in S && |g| + 1 <= |r| && r[..|g| + 1] == g + [p]
    requires forall i | |g| + 1 <= i < |r| :: r[i] in S
    ensures forall i | |g| <= i < |r| :: r[i] in S
  {
    assert r[|g|] == r[..|g| + 1][|g|];
  }

  lemma {:induction false} GroupListWithin(b: Grid, ps: seq<Point>, g: seq<Point>, S: set<Point>)
    requires forall q | q in ps :: b.InBounds(q)
    requires GroupInv(b, g) && Closed(b, S)
    requires forall q | q in ps && Qualifies(b, q) && q !in g :: q in S
    decreases |Cells(b, AnyValue)| - |g|, 1, |ps|
    ensures forall i | |g| <= i < |GroupList(b, ps, g)| :: GroupList(b, ps, g)[i] in S
  {
    GroupBound(b, g);
    if ps != [] {
      var g1 := GroupFrom(b, ps[0], g);
      GroupFromWithin(b, ps[0], g, S);
      GroupBound(b, g1);
      assert forall q | q in ps[1..] :: q in ps;
      PrefixKeeps(g, g1);
      GroupListWithin(b, ps[1..], g1, S);
      var r := GroupList(b, ps[1..], g1);
      TailWithin(g, g1, r, S);
    }
  }

  /** What a prefix holds, the whole sequence holds. */
  lemma PrefixKeeps(g: seq<Point>, g1: seq<Point>)
    requires |g| <= |g1| && g1[..|g|] == g
    ensures forall q | q in g :: q in g1
  {
    forall q | q in g
      ensures q in g1
    {
      var j :| 0 <= j < |g| && g[j] == q;
      assert g1[j] == q;
    }
  }

  /** Two stretches inside S make one. */
  lemma TailWithin(g: seq<Point>, g1: seq<Point>, r: seq<Point>, S: set<Point>)
    requires |g| <= |g1| <= |r| && r[..|g1|] == g1
    requires forall i | |g| <= i < |g1| :: g1[i] in S
    requires forall i | |g1| <= i < |r| :: r[i] in S
    ensures forall i | |g| <= i < |r| :: r[i] in S
  {
    forall i | |g| <= i < |r|
      ensures r[i] in S
    {
      if i < |g1| {
        assert r[i] == r[..|g1|][i];
      }
    }
  }

  /**
    A group is the connected component of its first cell: it is closed, and it
    lies inside every closed set that contains that cell.
   */
  lemma BorderGroupIsComponent(b: Grid, p: Point, S: set<Point>)
    requires b.InBounds(p)
    requires Closed(b, S) && (Qualifies(b, p) ==> p in S)
    ensures Closed(b, Members(BorderGroup(b, p)))
    ensures forall q | q in BorderGroup(b, p) :: q in S
  {
    var r := BorderGroup(b, p);
    GroupFromWithin(b, p, [], S);
    forall q | q in r
      ensures q in S
    {
      var i :| 0 <= i < |r| && r[i] == q;
    }
    BorderGroupClosed(b, p);
  }

  /** The cells of a sequence, as a set. */
  function Members(s: seq<Point>): set<Point> {
    set q | q in s
  }

  lemma BorderGroupClosed(b: Grid, p: Point)
    requires b.InBounds(p)
    ensures Closed(b, Members(BorderGroup(b, p)))
  {
    ClosedFromIsClosed(b, BorderGroup(b, p));
  }

  /** A sequence closed from its first index on is closed as a set. */
  lemma ClosedFromIsClosed(b: Grid, r: seq<Point>)
    requires ClosedFrom(b, r, 0)
    ensures Closed(b, Members(r))
  {
    forall m, n | m in Members(r) && Qualifies(b, n) && Near(n, m.x, m.y)
      ensures n in Members(r)
    {
      assert m in r;
      var i :| 0 <= i < |r| && r[i] == m;
      assert Near(n, r[i].x, r[i].y);
      assert n in r;
    }
  }

  // Splitting the border: GetBorderGroups

  /** `List.Remove(x)`: drop the first occurrence of x, if any. */
  function RemoveFirst(s: seq<Point>, x: Point): (r: seq<Point>)
    ensures multiset(r) == multiset(s) - multiset{x}
    ensures x in s ==> |r| == |s| - 1
    ensures x !in s ==> r == s
  {
    if s == [] then []
    else if s[0] == x then
      assert s == [s[0]] + s[1..];
      s[1..]
    else
      assert s == [s[0]] + s[1..];
      [s[0]] + RemoveFirst(s[1..], x)
  }

  /** A sequence whose multiset is below that of a repeat-free one is repeat-free. */
  lemma SubMultisetDistinct(r: seq<Point>, s: seq<Point>)
    requires Distinct(s) && multiset(r) <= multiset(s)
    ensures Distinct(r)
  {
    forall i, j | 0 <= i < j < |r|
      ensures r[i] != r[j]
    {
      if r[i] == r[j] {
        var y := r[i];
        assert multiset(r[..j]) + multiset(r[j..]) == multiset(r) by {
          assert r == r[..j] + r[j..];
        }
        assert y in multiset(r[..j]) by { assert r[..j][i] == y; }
        assert y in multiset(r[j..]) by { assert r[j..][0] == y; }
        assert multiset(r)[y] >= 2;
        DistinctCount(s, y);
      }
    }
  }

  /** In a repeat-free sequence nothing occurs twice. */
  lemma {:induction false} DistinctCount(s: seq<Point>, y: Point)
    requires Distinct(s)
    ensures multiset(s)[y] <= 1
  {
    if s != [] {
      assert s == [s[0]] + s[1..];
      assert Distinct(s[1..]);
      DistinctCount(s[1..], y);
      if s[0] == y {
        assert y !in s[1..];
      }
    }
  }

  /** The `foreach (Point p in grp) brdr.Remove(p)` loop. */
  function RemoveAll(s: seq<Point>, grp: seq<Point>): (r: seq<Point>)
    decreases |grp|
    ensures multiset(r) == multiset(s) - multiset(grp)
    ensures |r| <= |s|
    ensures grp != [] && grp[0] in s ==> |r| < |s|
  {
    if grp == [] then s
    else
      assert grp == [grp[0]] + grp[1..];
      RemoveAll(RemoveFirst(s, grp[0]), grp[1..])
  }

  /** The removal leaves only cells of s, and every cell of s not in grp. */
  lemma RemoveAllMembers(s: seq<Point>, grp: seq<Point>)
    ensures forall y | y in RemoveAll(s, grp) :: y in s
    ensures forall y | y in s && y !in grp :: y in RemoveAll(s, grp)
  {
    var r := RemoveAll(s, grp);
    forall y | y in r
      ensures y in s
    {
      assert multiset(r)[y] > 0;
      assert multiset(s)[y] > 0;
    }
    forall y | y in s && y !in grp
      ensures y in r
    {
      assert multiset(s)[y] > 0;
      assert multiset(grp)[y] == 0;
      assert multiset(r)[y] > 0;
    }
  }

  /** From a repeat-free s the removal leaves no repeats and nothing of grp. */
  lemma RemoveAllDistinct(s: seq<Point>, grp: seq<Point>)
    requires Distinct(s)
    ensures Distinct(RemoveAll(s, grp))
    ensures forall y | y in grp :: y !in RemoveAll(s, grp)
  {
    var r := RemoveAll(s, grp);
    SubMultisetDistinct(r, s);
    forall y | y in grp
      ensures y !in r
    {
      DistinctCount(s, y);
      assert y in multiset(grp);
      assert multiset(r)[y] == 0;
    }
  }

  /**
    `GetBorderGroups(border)`: take the group of the first cell left, remove its
    cells from the list, repeat until the list is empty. When the first cell
    left does not qualify, its group is empty, nothing is removed and the C#
    loop never ends; that outcome is `None`.
   */
  function GroupsFrom(b: Grid, brdr: seq<Point>): (r: Option<seq<seq<Point>>>)
    requires forall q | q in brdr :: b.InBounds(q)
    decreases |brdr|
  {
    if brdr == [] then Some([])
    else
      var grp := BorderGroup(b, brdr[0]);
      if grp == [] then None
      else
        var rest := RemoveAll(brdr, grp);
        RemoveAllMembers(brdr, grp);
        match GroupsFrom(b, rest)
        case None => None
        case Some(gs) => Some([grp] + gs)
  }

  /** The loop finishes exactly when every cell of the border qualifies. */
  lemma {:induction false} GroupsFromTerminates(b: Grid, brdr: seq<Point>)
    requires forall q | q in brdr :: b.InBounds(q)
    decreases |brdr|
    ensures GroupsFrom(b, brdr).Some? <==> forall q | q in brdr :: Qualifies(b, q)
  {
    if brdr != [] {
      var grp := BorderGroup(b, brdr[0]);
      if grp == [] {
        assert !Qualifies(b, brdr[0]);
      } else {
        var rest := RemoveAll(brdr, grp);
        RemoveAllMembers(brdr, grp);
        GroupsFromTerminates(b, rest);
        assert GroupsFrom(b, brdr).Some? <==> GroupsFrom(b, rest).Some?;
        SplitAll(brdr, grp, rest, q => Qualifies(b, q));
      }
    }
  }

  /** A property holds on all of brdr iff on what is left, when it holds on what was removed. */
  lemma SplitAll(brdr: seq<Point>, grp: seq<Point>, rest: seq<Point>, P: Point -> bool)
    requires forall y | y in rest :: y in brdr
    requires forall y | y in brdr && y !in grp :: y in rest
    requires forall y | y in grp :: P(y)
    ensures (forall q | q in brdr :: P(q)) <==> (forall q | q in rest :: P(q))
  {
  }

  /** One round of the loop, unfolded once. */
  lemma GroupsFromStep(b: Grid, brdr: seq<Point>)
    requires forall q | q in brdr :: b.InBounds(q)
    requires brdr != [] && GroupsFrom(b, brdr).Some?
    ensures var grp := BorderGroup(b, brdr[0]);
            var rest := RemoveAll(brdr, grp);
            && grp != []
            && (forall y | y in rest :: y in brdr)
            && (forall y | y in brdr && y !in grp :: y in rest)
            && |rest| < |brdr|
            && GroupsFrom(b, rest).Some?
            && GroupsFrom(b, brdr).value == [grp] + GroupsFrom(b, rest).value
  {
    RemoveAllMembers(brdr, BorderGroup(b, brdr[0]));
  }

  lemma ClosedUnion(b: Grid, U: set<Point>, V: set<Point>)
    requires Closed(b, U) && Closed(b, V)
    ensures Closed(b, U + V)
  {
  }

  /** Every cell of the border lands in some group. */
  lemma {:induction false} GroupsCover(b: Grid, brdr: seq<Point>, q: Point)
    requires forall q | q in brdr :: b.InBounds(q)
    requires GroupsFrom(b, brdr).Some? && q in brdr
    decreases |brdr|
    ensures exists k | 0 <= k < |GroupsFrom(b, brdr).value| :: q in GroupsFrom(b, brdr).value[k]
  {
    GroupsFromStep(b, brdr);
    var grp := BorderGroup(b, brdr[0]);
    var rest := RemoveAll(brdr, grp);
    if q !in grp {
      GroupsCover(b, rest, q);
    }
    ConsCover(grp, GroupsFrom(b, rest).value, q);
  }

  lemma ConsCover(grp: seq<Point>, gr: seq<seq<Point>>, q: Point)
    requires q in grp || exists k | 0 <= k < |gr| :: q in gr[k]
    ensures var gs := [grp] + gr;
            exists k | 0 <= k < |gs| :: q in gs[k]
  {
    var gs := [grp] + gr;
    if q in grp {
      assert q in gs[0];
    } else {
      var k :| 0 <= k < |gr| && q in gr[k];
      assert q in gs[k + 1];
    }
  }

  /** Every group is non-empty, repeat-free, qualifying and closed: a connected component. */
  lemma {:induction false} GroupsClosed(b: Grid, brdr: seq<Point>)
    requires forall q | q in brdr :: b.InBounds(q)
    requires GroupsFrom(b, brdr).Some?
    decreases |brdr|
    ensures forall k | 0 <= k < |GroupsFrom(b, brdr).value| ::
              && |GroupsFrom(b, brdr).value[k]| > 0
              && GroupInv(b, GroupsFrom(b, brdr).value[k])
              && Closed(b, Members(GroupsFrom(b, brdr).value[k]))
  {
    if brdr != [] {
      GroupsFromStep(b, brdr);
      var grp := BorderGroup(b, brdr[0]);
      var rest := RemoveAll(brdr, grp);
      var gs := GroupsFrom(b, brdr).value;
      BorderGroupClosed(b, brdr[0]);
      GroupsClosed(b, rest);
      forall k | 0 <= k < |gs|
        ensures |gs[k]| > 0 && GroupInv(b, gs[k]) && Closed(b, Members(gs[k]))
      {
        if k > 0 {
          assert gs[k] == GroupsFrom(b, rest).value[k - 1];
        }
      }
    }
  }

  /**
    Started on a repeat-free border that avoids a closed set U, no group
    touches U.
   */
  lemma {:induction false} GroupsAvoid(b: Grid, brdr: seq<Point>, U: set<Point>)
    requires forall q | q in brdr :: b.InBounds(q)
    requires GroupsFrom(b, brdr).Some? && Distinct(brdr)
    requires Closed(b, U) && forall q | q in brdr :: q !in U
    decreases |brdr|
    ensures forall k, q | 0 <= k < |GroupsFrom(b, brdr).value| && q in GroupsFrom(b, brdr).value[k] :: q !in U
  {
    if brdr != [] {
      GroupsFromStep(b, brdr);
      var p := brdr[0];
      var grp := BorderGroup(b, p);
      var rest := RemoveAll(brdr, grp);
      var gs := GroupsFrom(b, brdr).value;
      OutsideClosed(b, U);
      BorderGroupIsComponent(b, p, Outside(b, U));
      var G := Members(grp);
      BorderGroupClosed(b, p);
      ClosedUnion(b, U, G);
      RemoveAllDistinct(brdr, grp);
      GroupsAvoid(b, rest, U + G);
      forall k, q | 0 <= k < |gs| && q in gs[k]
        ensures q !in U
      {
        if k > 0 {
          assert gs[k] == GroupsFrom(b, rest).value[k - 1];
        }
      }
    }
  }

  /** On a repeat-free border the groups are pairwise disjoint. */
  lemma {:induction false} GroupsDisjoint(b: Grid, brdr: seq<Point>)
    requires forall q | q in brdr :: b.InBounds(q)
    requires GroupsFrom(b, brdr).Some? && Distinct(brdr)
    decreases |brdr|
    ensures var gs := GroupsFrom(b, brdr).value;
            forall i, j, q | 0 <= i < j < |gs| && q in gs[i] :: q !in gs[j]
  {
    if brdr != [] {
      GroupsFromStep(b, brdr);
      var p := brdr[0];
      var grp := BorderGroup(b, p);
      var rest := RemoveAll(brdr, grp);
      var gr := GroupsFrom(b, rest).value;
      BorderGroupClosed(b, p);
      RemoveAllDistinct(brdr, grp);
      GroupsAvoid(b, rest, Members(grp));
      GroupsDisjoint(b, rest);
      ConsDisjoint(grp, gr);
    }
  }

  /** Adding a group that avoids all later ones keeps the list pairwise disjoint. */
  lemma ConsDisjoint(grp: seq<Point>, gr: seq<seq<Point>>)
    requires forall k, q | 0 <= k < |gr| && q in gr[k] :: q !in Members(grp)
    requires forall i, j, q | 0 <= i < j < |gr| && q in gr[i] :: q !in gr[j]
    ensures var gs := [grp] + gr;
            forall i, j, q | 0 <= i < j < |gs| && q in gs[i] :: q !in gs[j]
  {
    var gs := [grp] + gr;
    forall i, j, q | 0 <= i < j < |gs| && q in gs[i]
      ensures q !in gs[j]
    {
      assert gs[j] == gr[j - 1];
      if i > 0 {
        assert gs[i] == gr[i - 1];
      } else {
        assert q in Members(grp);
      }
    }
  }

  /** `GetBorderGroups(border)`; `None` when the C# loop would not terminate. */
  function BorderGroups(b: Grid, border: seq<Point>): (r: Option<seq<seq<Point>>>)
    requires forall q | q in border :: b.InBounds(q)
    ensures r.Some? <==> forall q | q in border :: Qualifies(b, q)
  {
    GroupsFromTerminates(b, border);
    GroupsFrom(b, border)
  }
}
