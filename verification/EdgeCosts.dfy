/** The costs the edge-driven allocator keeps, against the costs of the input. */
module EdgeCosts {
  import opened AllocSpec
  import opened Allocate
  import opened EdgeAllocSpec
  import opened EdgeGreedy

  function PlanOf(s: Stage): Plan {
    Plan(s.all, s.bs, s.capacity)
  }

  /** The representative carries the block's single-linkage cost to x, and x carries it back once
      a second object has been merged into the block. */
  ghost predicate Carries(input: Graph, g: Graph, members: seq<nat>, x: nat)
    requires members != []
  {
    && Cost(g, members[0], x) == Linkage(input, members, x)
    && (|members| >= 2 ==> Cost(g, x, members[0]) == Linkage(input, members, x))
  }

  /** Between free objects costs are those of the input, and every block with room carries its own. */
  ghost predicate CostsOk(input: Graph, g: Graph, s: Stage) {
    && (forall x, y :: x in s.Free() && y in s.Free() ==> Cost(g, x, y) == Cost(input, x, y))
    && forall i, x :: 0 <= i < |s.bs| && s.bs[i] != [] && |s.bs[i]| < s.capacity && x in s.Free()
         ==> Carries(input, g, s.bs[i], x)
  }

  /** Between rounds no block has just one object. */
  ghost predicate NoSingles(bs: seq<seq<nat>>) {
    forall i :: 0 <= i < |bs| ==> |bs[i]| != 1
  }

  /** Edges in the order in which they are preferred: by cost, then as the search meets them. */
  predicate Preferred(g: Graph, p: nat, n: nat, x: nat, y: nat) {
    Cost(g, p, n) < Cost(g, x, y) || (Cost(g, p, n) == Cost(g, x, y) && (p < x || (p == x && n <= y)))
  }

  /** (p, n) is the preferred usable edge. */
  ghost predicate IsBestEdge(g: Graph, s: Stage, p: nat, n: nat) {
    s.Usable(p, n) && forall x, y :: s.Usable(x, y) ==> Preferred(g, p, n, x, y)
  }

  // ----- blocks grow -----

  lemma LinkageGrows(g: Graph, members: seq<nat>, obj: nat, x: nat)
    requires members != []
    ensures Linkage(g, members + [obj], x) == Min2(Linkage(g, members, x), Cost(g, obj, x))
  {
    assert (members + [obj])[..|members|] == members;
  }

  /** As long as a block has room for another one behind obj, obj has all its edges to free objects. */
  lemma AllEdgesThere(s: Stage, i: nat, obj: nat, x: nat)
    requires s.Ok() && i < |s.bs| && |s.bs[i]| + 1 < s.capacity && obj in s.Free() && x in s.Free() && obj != x
    ensures s.Edge(obj, x)
  {
    hide Taken, Heads, Row;
    NotFull(s, obj);
    NotFull(s, x);
    FreeIsNoHead(s, obj);
    assert !s.NoRoom();
    assert !s.Dead(obj, x);
  }

  lemma HeadOfBlock(s: Stage, i: nat)
    requires i < |s.bs| && s.bs[i] != []
    ensures s.bs[i][0] in Heads(s.bs) && s.bs[i][0] !in s.Free()
  {
    assert HeadsBlock(s.bs, i, s.bs[i][0]);
    HeadIs(s.bs, s.bs[i][0]);
    HeadIsTaken(s.bs, s.bs[i][0]);
  }

  /** The grown block carries its costs to x. */
  lemma GrownCarries(input: Graph, f: Graph, g: Graph, s: Stage, i: nat, obj: nat, x: nat)
    requires s.Ok() && CostsOk(input, f, s) && i < |s.bs| && s.bs[i] != [] && |s.bs[i]| + 1 < s.capacity
    requires obj in s.Free() && x in s.Free() && obj != x
    requires forall a, b :: Cost(g, a, b) == MergedCost(f, s.bs[i][0], obj, Row(s.table, obj), a, b)
    ensures Carries(input, g, s.bs[i] + [obj], x)
  {
    hide Stage.Ok, Linkage, Cost, Taken, Heads;
    AllEdgesThere(s, i, obj, x);
    HeadOfBlock(s, i);
    LinkageGrows(input, s.bs[i], obj, x);
    assert Carries(input, f, s.bs[i], x);
    assert (s.bs[i] + [obj])[0] == s.bs[i][0];
  }

  /** The other blocks carry what they did. */
  lemma OtherCarries(input: Graph, f: Graph, g: Graph, s: Stage, i: nat, obj: nat, j: nat, x: nat)
    requires s.BlocksOk() && CostsOk(input, f, s) && i < |s.bs| && s.bs[i] != []
    requires j < |s.bs| && j != i && s.bs[j] != [] && |s.bs[j]| < s.capacity && x in s.Free()
    requires forall a, b :: Cost(g, a, b) == MergedCost(f, s.bs[i][0], obj, Row(s.table, obj), a, b)
    ensures Carries(input, g, s.bs[j], x)
  {
    hide Linkage, Cost, Taken, Heads, Row;
    HeadOfBlock(s, i);
    assert s.bs[j][0] != s.bs[i][0] by { OneHead(s, i, j); }
    assert Carries(input, f, s.bs[j], x);
  }

  lemma OneHead(s: Stage, i: nat, j: nat)
    requires s.BlocksOk() && i < |s.bs| && j < |s.bs| && i != j && s.bs[i] != [] && s.bs[j] != []
    ensures s.bs[i][0] != s.bs[j][0]
  {
    assert HeadsBlock(s.bs, i, s.bs[i][0]);
    if s.bs[i][0] == s.bs[j][0] {
      OneBlock(s, i, j, s.bs[i][0]);
    }
  }

  lemma JoinKeepsCosts(input: Graph, f: Graph, g: Graph, s: Stage, i: nat, obj: nat, u: Table)
    requires s.Ok() && CostsOk(input, f, s) && i < |s.bs| && s.bs[i] != [] && |s.bs[i]| < s.capacity && obj in s.Free()
    requires forall a, b :: Cost(g, a, b) == MergedCost(f, s.bs[i][0], obj, Row(s.table, obj), a, b)
    ensures CostsOk(input, g, s.(bs := Grown(s.bs, i, obj), table := u))
  {
    var t := s.(bs := Grown(s.bs, i, obj), table := u);
    TakenGrows(s.bs, i, obj);
    assert t.Free() == s.Free() - {obj};
    hide Stage.Ok, Taken, Heads, Row, Linkage, Cost, Carries;
    HeadOfBlock(s, i);
    forall j: nat, x | j < |t.bs| && t.bs[j] != [] && |t.bs[j]| < t.capacity && x in t.Free()
      ensures Carries(input, g, t.bs[j], x)
    {
      if j == i {
        GrownCarries(input, f, g, s, i, obj, x);
      } else {
        assert s.BlocksOk() by { OkBlocks(s); }
        OtherCarries(input, f, g, s, i, obj, j, x);
      }
    }
  }

  lemma OkBlocks(s: Stage)
    requires s.Ok()
    ensures s.BlocksOk()
  {
  }

  lemma StartKeepsCosts(input: Graph, g: Graph, s: Stage, i: nat, obj: nat)
    requires CostsOk(input, g, s) && i < |s.bs| && s.bs[i] == [] && obj in s.Free()
    ensures CostsOk(input, g, s.(bs := Grown(s.bs, i, obj)))
  {
    var t := s.(bs := Grown(s.bs, i, obj));
    TakenGrows(s.bs, i, obj);
    assert t.Free() == s.Free() - {obj};
    hide Taken, Cost;
    forall j: nat, x | j < |t.bs| && t.bs[j] != [] && |t.bs[j]| < t.capacity && x in t.Free()
      ensures Carries(input, g, t.bs[j], x)
    {
      if j == i {
        assert t.bs[i] == [obj];
      } else {
        assert t.bs[j] == s.bs[j];
        assert Carries(input, g, s.bs[j], x);
      }
    }
  }

  // ----- the chosen edge -----

  /** An edge whose ends may be put together has not been dropped. */
  lemma PlaceableIsUsable(s: Stage, x: nat, y: nat)
    requires s.Ok() && PlanOf(s).Placeable(x, y)
    ensures s.Usable(x, y)
  {
    if x in s.Free() { FreeIsNoHead(s, x); NotFull(s, x); }
    if y in s.Free() { FreeIsNoHead(s, y); NotFull(s, y); }
    if PlanOf(s).HasRoom(x) { RoomyHead(s, x); }
    if PlanOf(s).HasRoom(y) { RoomyHead(s, y); }
    assert FirstRoom(s.bs, s.capacity) < |s.bs| ==> !s.NoRoom();
    hide Stage.BlocksOk, Stage.FullHead, Stage.NoRoom, Taken, Heads, IndexOf, FirstRoom, Plan.HasRoom, Row;
    assert PlanOf(s).Free() == s.Free();
    assert !s.Dead(x, y);
    LiveEdge(s, x, y);
  }

  lemma LiveEdge(s: Stage, x: nat, y: nat)
    requires s.TableOk() && s.EdgesOk() && x in s.Live() && y in s.Live() && x != y
    requires !(x in Heads(s.bs) && y in Heads(s.bs)) && !s.Dead(x, y)
    ensures s.Usable(x, y)
  {
  }

  lemma RoomyHead(s: Stage, h: nat)
    requires s.BlocksOk() && PlanOf(s).HasRoom(h)
    ensures h in Heads(s.bs) && !s.FullHead(h) && h !in s.Free()
  {
    var i := IndexOf(s.bs, h);
    HeadIs(s.bs, h);
    HeadIsTaken(s.bs, h);
    if s.FullHead(h) {
      var j :| HeadsBlock(s.bs, j, h) && |s.bs[j]| == s.capacity;
      OneBlock(s, i, j, h);
    }
  }

  /** The current cost of such an edge is the single-linkage cost of the input. */
  lemma CostIsPairCost(input: Graph, g: Graph, s: Stage, x: nat, y: nat)
    requires CostsOk(input, g, s) && NoSingles(s.bs) && PlanOf(s).Placeable(x, y)
    ensures Cost(g, x, y) == PlanOf(s).PairCost(input, x, y)
  {
    hide Cost, Linkage, Taken;
    var p := PlanOf(s);
    assert p.Free() == s.Free();
    if p.HasRoom(x) && y in p.Free() {
      IndexInside(s.bs, x);
      assert Carries(input, g, s.bs[IndexOf(s.bs, x)], y);
    } else if p.HasRoom(y) && x in p.Free() {
      IndexInside(s.bs, y);
      assert Carries(input, g, s.bs[IndexOf(s.bs, y)], x);
    }
  }

  /** The edge the search chooses, if its ends may be put together, is the clustering's choice. */
  lemma ChosenIsGreedy(input: Graph, g: Graph, s: Stage, x: nat, y: nat)
    requires s.Ok() && CostsOk(input, g, s) && NoSingles(s.bs)
    requires IsBestEdge(g, s, x, y) && PlanOf(s).Placeable(x, y)
    ensures PlanOf(s).IsChoice(input, x, y)
  {
    hide Stage.Ok, CostsOk, Cost, Stage.Usable, Plan.Placeable, Plan.PairCost, NoSingles;
    CostIsPairCost(input, g, s, x, y);
    forall p: nat, q: nat | PlanOf(s).Placeable(p, q)
      ensures s.Usable(p, q) && Cost(g, p, q) == PlanOf(s).PairCost(input, p, q)
    {
      PlaceableIsUsable(s, p, q);
      CostIsPairCost(input, g, s, p, q);
    }
  }
}
