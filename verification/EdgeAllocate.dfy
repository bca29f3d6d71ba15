/** The edge-driven allocator: it looks for the cheapest edge again and again, and puts its ends
    into a block or drops it. */
module EdgeAllocate {
  import opened OrderedSets
  import opened AllocSpec
  import opened Allocate
  import opened EdgeAllocSpec
  import opened EdgeAllocResult
  import opened EdgeCosts
  import opened EdgeGreedy

  /** The edges from the given rows, and from `row` to the given columns. */
  predicate Seen(rows: set<nat>, row: nat, cols: set<nat>, x: nat, y: nat) {
    x in rows || (x == row && y in cols)
  }

  /** (p, n) is the preferred one of the usable edges seen so far, if there is one. */
  ghost predicate BestSeen(g: Graph, s: Stage, rows: set<nat>, row: nat, cols: set<nat>, found: bool, p: nat, n: nat) {
    && (found ==> s.Usable(p, n) && Seen(rows, row, cols, p, n))
    && forall x, y :: s.Usable(x, y) && Seen(rows, row, cols, x, y) ==> found && Preferred(g, p, n, x, y)
  }

  /** The blocks hold what the stage says, in block objects of their own. */
  ghost predicate Represents(blocks: seq<CBlock>, bs: seq<seq<nat>>)
    reads blocks
  {
    && |blocks| == |bs|
    && (forall i, j :: 0 <= i < j < |blocks| ==> blocks[i] != blocks[j])
    && (forall i :: 0 <= i < |blocks| ==> blocks[i].Valid() && blocks[i].members == bs[i])
    && forall i :: 0 <= i < |blocks| && bs[i] != [] ==> blocks[i].rep == bs[i][0]
  }

  /** Every representative leads to its block. */
  ghost predicate LedBy(hBlocks: map<nat, CBlock>, blocks: seq<CBlock>, bs: seq<seq<nat>>) {
    |blocks| == |bs| && forall i :: 0 <= i < |bs| && bs[i] != [] ==> bs[i][0] in hBlocks && hBlocks[bs[i][0]] == blocks[i]
  }

  /** The allocator's table, blocks and sets are those of the stage, and its costs still tell those of
      the input. */
  ghost predicate StateIs(a: CAllocate, placed: set<nat>, headVertice: set<nat>, hBlocks: map<nat, CBlock>, s: Stage)
    reads a, a.blocks
  {
    && s.Ok() && CostsOk(a.input, a.fGraph, s) && s.table == a.Atable && s.capacity == a.capacity && a.Atable.Keys <= s.all
    && placed == Taken(s.bs) && headVertice == Heads(s.bs)
    && Represents(a.blocks, s.bs) && LedBy(hBlocks, a.blocks, s.bs)
  }

  // ----- the search -----

  /** One row of the search. It stops at an edge that costs nothing. */
  method ScanRow(g: Graph, obj1: nat, neighbors: set<nat>, headVertice: set<nat>,
                 found0: bool, prev0: nat, next0: nat, ghost s: Stage, ghost rows: set<nat>)
    returns (found: bool, prev: nat, next: nat)
    requires headVertice == Heads(s.bs) && neighbors == Row(s.table, obj1) && obj1 in s.Live()
    requires BestSeen(g, s, rows, obj1, {}, found0, prev0, next0) && forall x :: x in rows ==> x < obj1
    ensures BestSeen(g, s, rows, obj1, neighbors, found, prev, next)
  {
    hide Heads, Row, Stage.Live, Cost;
    found, prev, next := found0, prev0, next0;
    var todo := neighbors;
    while todo != {}
      invariant todo <= neighbors
      invariant forall x, y :: x in neighbors - todo && y in todo ==> x < y
      invariant BestSeen(g, s, rows, obj1, neighbors - todo, found, prev, next)
      decreases todo
    {
      LeastExists(todo);
      var obj2: nat :| IsLeast(todo, obj2);
      ghost var cols := neighbors - todo;
      todo := todo - {obj2};
      assert neighbors - todo == cols + {obj2};
      if obj1 in headVertice && obj2 in headVertice {
        continue;
      }
      var cost := Cost(g, obj1, obj2);
      if !found || cost < Cost(g, prev, next) {
        found, prev, next := true, obj1, obj2;
        if cost == 0 {
          break;
        }
      }
    }
  }

  /** The cheapest edge between two objects that still stand for themselves or for a block; of
      equally cheap ones the first in the order of the table. */
  method FindEdge(a: CAllocate, placed: set<nat>, headVertice: set<nat>, ghost s: Stage)
    returns (found: bool, prev: nat, next: nat)
    requires s.table == a.Atable && a.Atable.Keys <= s.all && placed == Taken(s.bs) && headVertice == Heads(s.bs)
    ensures found <==> exists x, y :: s.Usable(x, y)
    ensures found ==> IsBestEdge(a.fGraph, s, prev, next)
  {
    hide Heads, Taken, Cost;
    found, prev, next := false, 0, 0;
    var keys := a.Atable.Keys;
    var todo := keys;
    ghost var row: nat := 0;
    while todo != {}
      invariant todo <= keys
      invariant forall x, y :: x in keys - todo && y in todo ==> x < y
      invariant BestSeen(a.fGraph, s, keys - todo, 0, {}, found, prev, next)
      decreases todo
    {
      LeastExists(todo);
      var obj1: nat :| IsLeast(todo, obj1);
      ghost var rows := keys - todo;
      todo := todo - {obj1};
      assert keys - todo == rows + {obj1};
      if obj1 in placed && obj1 !in headVertice {
        continue;
      }
      found, prev, next := ScanRow(a.fGraph, obj1, a.Atable[obj1], headVertice, found, prev, next, s, rows);
      if found && Cost(a.fGraph, prev, next) == 0 {
        break;
      }
    }
  }

  // ----- one round -----

  /** An object joins the block of a representative: the block's costs and the table follow. */
  method Join(a: CAllocate, block: CBlock, obj: nat, placed0: set<nat>, headVertice: set<nat>, hBlocks0: map<nat, CBlock>,
              ghost s0: Stage, ghost i: nat)
    returns (placed: set<nat>, hBlocks: map<nat, CBlock>, ghost s: Stage)
    requires StateIs(a, placed0, headVertice, hBlocks0, s0) && i < |s0.bs| && a.blocks[i] == block
    requires s0.bs[i] != [] && |s0.bs[i]| < s0.capacity && obj in s0.Free()
    modifies a`fGraph, a`Atable, block
    ensures StateIs(a, placed, headVertice, hBlocks, s)
    ensures s.all == s0.all && s.capacity == s0.capacity && s.bs == Grown(s0.bs, i, obj)
    ensures hBlocks == hBlocks0[obj := block]
  {
    hide Stage.Ok, Taken, Heads, CostsOk;
    ghost var costs := a.fGraph;
    MergeIsReady(s0, i, obj);
    block.Add(obj);
    hBlocks := hBlocks0[obj := block];
    placed := placed0 + {obj};
    a.UpdateGraph(block, obj);
    s := s0.(bs := Grown(s0.bs, i, obj), table := a.Atable);
    JoinKeeps(s0, i, obj, a.Atable);
    JoinKeepsCosts(a.input, costs, a.fGraph, s0, i, obj, a.Atable);
    TakenGrows(s0.bs, i, obj);
    HeadsGrow(s0.bs, i, obj);
    Led(hBlocks0, a.blocks, s0.bs, i, obj);
  }

  /** What merging needs of the table. */
  lemma MergeIsReady(s: Stage, i: nat, obj: nat)
    requires s.Ok() && i < |s.bs| && s.bs[i] != [] && obj in s.Free()
    ensures obj !in Row(s.table, obj) && s.bs[i][0] != obj
    ensures forall z :: z in Row(s.table, obj) ==> z in s.table
  {
    hide Taken, Heads;
    FreeIsNoHead(s, obj);
    assert HeadsBlock(s.bs, i, s.bs[i][0]);
    HeadIs(s.bs, s.bs[i][0]);
    forall z | z in Row(s.table, obj) ensures z in s.table {
      assert s.Edge(obj, z) && s.Edge(z, obj);
    }
  }

  lemma Led(hBlocks: map<nat, CBlock>, blocks: seq<CBlock>, bs: seq<seq<nat>>, i: nat, obj: nat)
    requires LedBy(hBlocks, blocks, bs) && i < |bs| && obj !in Taken(bs)
    ensures LedBy(hBlocks[obj := blocks[i]], blocks, Grown(bs, i, obj))
  {
    hide Taken;
    forall j | 0 <= j < |bs| && bs[j] != [] ensures bs[j][0] != obj {
      TakenHas(bs, j);
      assert bs[j][0] in Elements(bs[j]);
    }
  }

  /** A free object starts a block and stands for it. */
  method StartBlock(a: CAllocate, block: CBlock, obj: nat, placed0: set<nat>, headVertice0: set<nat>, hBlocks0: map<nat, CBlock>,
                    ghost s0: Stage, ghost i: nat)
    returns (placed: set<nat>, headVertice: set<nat>, hBlocks: map<nat, CBlock>, ghost s: Stage)
    requires StateIs(a, placed0, headVertice0, hBlocks0, s0) && i < |s0.bs| && a.blocks[i] == block
    requires s0.bs[i] == [] && 1 < s0.capacity && obj in s0.Free()
    modifies block
    ensures StateIs(a, placed, headVertice, hBlocks, s)
    ensures s == s0.(bs := Grown(s0.bs, i, obj))
  {
    hide Stage.Ok, Taken, Heads, CostsOk;
    block.Add(obj);
    hBlocks := hBlocks0[obj := block];
    placed := placed0 + {obj};
    block.rep := obj;
    headVertice := headVertice0 + {obj};
    s := s0.(bs := Grown(s0.bs, i, obj));
    StartKeeps(s0, i, obj);
    StartKeepsCosts(a.input, a.fGraph, s0, i, obj);
    TakenGrows(s0.bs, i, obj);
    HeadsGrow(s0.bs, i, obj);
    Led(hBlocks0, a.blocks, s0.bs, i, obj);
  }

  /** The first block with room for two more. */
  method RoomForTwo(a: CAllocate, ghost s: Stage) returns (found: bool, k: nat)
    requires Represents(a.blocks, s.bs) && a.capacity == s.capacity
    ensures k == FirstRoom(s.bs, s.capacity) && (found <==> k < |s.bs|)
    ensures !found ==> s.NoRoom()
  {
    hide FirstRoom;
    k := 0;
    while k < |a.blocks|
      invariant 0 <= k <= |a.blocks| && forall j :: 0 <= j < k ==> |s.bs[j]| + 1 >= s.capacity
    {
      if a.blocks[k].size + 1 < a.capacity {
        FirstRoomIs(s.bs, s.capacity, k);
        return true, k;
      }
      k := k + 1;
    }
    FirstRoomIs(s.bs, s.capacity, k);
    found := false;
  }

  lemma FirstRoomIs(bs: seq<seq<nat>>, capacity: nat, k: nat)
    requires k <= |bs| && (k < |bs| ==> |bs[k]| + 1 < capacity)
    requires forall j :: 0 <= j < k ==> |bs[j]| + 1 >= capacity
    ensures FirstRoom(bs, capacity) == k
  {
  }

  /** Two free objects are put into one block. */
  method PutBoth(a: CAllocate, k: nat, prev: nat, next: nat, placed0: set<nat>, headVertice0: set<nat>, hBlocks0: map<nat, CBlock>,
                 ghost s0: Stage)
    returns (placed: set<nat>, headVertice: set<nat>, hBlocks: map<nat, CBlock>, ghost s: Stage)
    requires StateIs(a, placed0, headVertice0, hBlocks0, s0) && k < |s0.bs| && |s0.bs[k]| + 1 < s0.capacity
    requires prev in s0.Free() && next in s0.Free() && prev != next
    modifies a`fGraph, a`Atable, a.blocks[k]
    ensures StateIs(a, placed, headVertice, hBlocks, s) && s.all == s0.all && s.capacity == s0.capacity
    ensures s.bs == Grown(Grown(s0.bs, k, prev), k, next)
  {
    hide Stage.Ok, Taken, Heads, CostsOk;
    var block := a.blocks[k];
    TakenGrows(s0.bs, k, prev);
    headVertice := headVertice0;
    if block.size == 0 {
      placed, headVertice, hBlocks, s := StartBlock(a, block, prev, placed0, headVertice0, hBlocks0, s0, k);
    } else {
      placed, hBlocks, s := Join(a, block, prev, placed0, headVertice0, hBlocks0, s0, k);
    }
    placed, hBlocks, s := Join(a, block, next, placed, headVertice, hBlocks, s, k);
  }

  /** The block that a representative stands for. */
  lemma BlockOf(a: CAllocate, placed: set<nat>, headVertice: set<nat>, hBlocks: map<nat, CBlock>, s: Stage, h: nat) returns (i: nat)
    requires StateIs(a, placed, headVertice, hBlocks, s) && h in headVertice
    ensures i < |s.bs| && HeadsBlock(s.bs, i, h) && h in hBlocks && hBlocks[h] == a.blocks[i] && hBlocks[h].size == |s.bs[i]|
    ensures |s.bs[i]| >= s.capacity ==> s.FullHead(h)
    ensures i == IndexOf(s.bs, h) && h !in s.Free()
  {
    hide Heads, Taken, Stage.TableOk, Stage.EdgesOk, IndexOf, CostsOk;
    HeadIs(s.bs, h);
    HeadIsTaken(s.bs, h);
    i :| HeadsBlock(s.bs, i, h);
    assert s.BlocksOk();
    OneBlock(s, i, IndexOf(s.bs, h), h);
  }

  function Edges(t: Table): set<(nat, nat)> {
    set x, y | x in t && y in t[x] :: (x, y)
  }

  /** Fewer free objects, or as many and fewer edges. */
  predicate Less(s: Stage, t: Stage) {
    |s.Free()| < |t.Free()| || (|s.Free()| == |t.Free()| && |Edges(s.table)| < |Edges(t.table)|)
  }

  lemma IsLess(s: Stage, t: Stage)
    requires s.Free() < t.Free() || (s.Free() == t.Free() && Edges(s.table) < Edges(t.table))
    ensures Less(s, t)
  {
    Smaller(s.Free(), t.Free());
    Smaller(Edges(s.table), Edges(t.table));
  }

  lemma Smaller<T>(a: set<T>, b: set<T>)
    ensures a < b ==> |a| < |b|
  {
    if a < b {
      var x :| x in b && x !in a;
      assert b == a + {x} + (b - a - {x});
    }
  }

  /** Drops an edge from both of its rows. */
  method DropEdge(a: CAllocate, x: nat, y: nat, placed: set<nat>, headVertice: set<nat>, hBlocks: map<nat, CBlock>, ghost s0: Stage)
    returns (ghost s: Stage)
    requires StateIs(a, placed, headVertice, hBlocks, s0) && s0.Usable(x, y) && s0.Dead(x, y)
    modifies a`Atable
    ensures StateIs(a, placed, headVertice, hBlocks, s) && s == s0.(table := a.Atable)
    ensures Edges(s.table) < Edges(s0.table)
  {
    hide Heads, Taken, Stage.BlocksOk, Stage.EdgesOk, Stage.Dead, Cost, Carries;
    ghost var t := a.Atable;
    EdgeInside(s0, x, y);
    a.Atable := a.Atable[x := a.Atable[x] - {y}];
    a.Atable := a.Atable[y := a.Atable[y] - {x}];
    s := s0.(table := a.Atable);
    DropKeeps(s0, x, y, a.Atable);
    assert (x, y) in Edges(t) && (x, y) !in Edges(a.Atable);
  }

  lemma EdgeInside(s: Stage, x: nat, y: nat)
    requires s.Ok() && s.Usable(x, y)
    ensures x != y && y in s.Live() && x in s.table && y in s.table && x in Row(s.table, y)
  {
    assert s.Edge(y, x);
  }

  /** What a round does to the blocks: it puts the ends of the edge together if they may be. */
  ghost function After(s: Stage, prev: nat, next: nat): seq<seq<nat>> {
    if PlanOf(s).Placeable(prev, next) then PlanOf(s).Placed(prev, next) else s.bs
  }

  /** One round: the edge's free ends join a block, or the edge is dropped because they never can. */
  method Round(a: CAllocate, prev: nat, next: nat, placed0: set<nat>, headVertice0: set<nat>, hBlocks0: map<nat, CBlock>, ghost s0: Stage)
    returns (placed: set<nat>, headVertice: set<nat>, hBlocks: map<nat, CBlock>, ghost s: Stage)
    requires StateIs(a, placed0, headVertice0, hBlocks0, s0) && s0.Usable(prev, next)
    modifies a`fGraph, a`Atable, a.blocks
    ensures StateIs(a, placed, headVertice, hBlocks, s) && s.all == s0.all && s.capacity == s0.capacity && |s.bs| == |s0.bs|
    ensures s.bs == After(s0, prev, next) && Less(s, s0)
  {
    hide Stage.Ok, Taken, Heads, Edges, Stage.Dead, Stage.FullHead, Stage.NoRoom, Grown, Less, CostsOk, IndexOf, FirstRoom, After;
    placed, headVertice, hBlocks, s := placed0, headVertice0, hBlocks0, s0;
    EdgeInside(s0, prev, next);
    if prev in headVertice {
      assert next !in headVertice;
      ghost var i := BlockOf(a, placed, headVertice, hBlocks, s, prev);
      AfterHead(s, prev, next);
      if hBlocks[prev].size < a.capacity {
        placed, hBlocks, s := Join(a, hBlocks[prev], next, placed, headVertice, hBlocks, s, i);
        OneLessFree(s0, i, next);
        IsLess(s, s0);
        return;
      }
    } else if next in headVertice {
      assert prev !in headVertice;
      ghost var i := BlockOf(a, placed, headVertice, hBlocks, s, next);
      AfterHead(s, next, prev);
      AfterSwapped(s, prev, next);
      if hBlocks[next].size < a.capacity {
        placed, hBlocks, s := Join(a, hBlocks[next], prev, placed, headVertice, hBlocks, s, i);
        OneLessFree(s0, i, prev);
        IsLess(s, s0);
        return;
      }
    } else {
      var found, k := RoomForTwo(a, s);
      AfterFree(s, prev, next);
      if found {
        placed, headVertice, hBlocks, s := PutBoth(a, k, prev, next, placed, headVertice, hBlocks, s);
        TwoLessFree(s0, k, prev, next);
        IsLess(s, s0);
        return;
      }
    }
    assert s0.Dead(prev, next) by { NeverTogether(s0, prev, next); }
    s := DropEdge(a, prev, next, placed, headVertice, hBlocks, s);
    IsLess(s, s0);
  }

  lemma AfterHead(s: Stage, h: nat, x: nat)
    requires IndexOf(s.bs, h) < |s.bs| && h !in s.Free() && x in s.Free() && x !in Heads(s.bs)
    ensures var i := IndexOf(s.bs, h);
            After(s, h, x) == if |s.bs[i]| < s.capacity then Grown(s.bs, i, x) else s.bs
  {
    NoHeadNoRoom(s, x);
  }

  lemma AfterSwapped(s: Stage, x: nat, h: nat)
    requires IndexOf(s.bs, h) < |s.bs| && h !in s.Free() && x in s.Free() && x !in Heads(s.bs)
    ensures After(s, x, h) == After(s, h, x)
  {
    NoHeadNoRoom(s, x);
  }

  lemma AfterFree(s: Stage, x: nat, y: nat)
    requires x in s.Free() && y in s.Free() && x != y && x !in Heads(s.bs) && y !in Heads(s.bs)
    ensures var k := FirstRoom(s.bs, s.capacity);
            After(s, x, y) == if k < |s.bs| then Grown(Grown(s.bs, k, x), k, y) else s.bs
  {
    NoHeadNoRoom(s, x);
    NoHeadNoRoom(s, y);
  }

  lemma NoHeadNoRoom(s: Stage, x: nat)
    requires x !in Heads(s.bs)
    ensures !PlanOf(s).HasRoom(x)
  {
    HeadIs(s.bs, x);
  }

  lemma NeverTogether(s: Stage, x: nat, y: nat)
    requires s.FullHead(x) || s.FullHead(y) || (x !in Heads(s.bs) && y !in Heads(s.bs) && s.NoRoom())
    ensures s.Dead(x, y)
  {
  }

  lemma OneLessFree(s: Stage, i: nat, x: nat)
    requires i < |s.bs| && x in s.Free()
    ensures s.(bs := Grown(s.bs, i, x)).Free() == s.Free() - {x}
    ensures |Grown(s.bs, i, x)| == |s.bs|
  {
    TakenGrows(s.bs, i, x);
  }

  lemma TwoLessFree(s: Stage, i: nat, x: nat, y: nat)
    requires i < |s.bs| && x in s.Free() && y in s.Free() && x != y
    ensures s.(bs := Grown(Grown(s.bs, i, x), i, y)).Free() < s.Free()
    ensures |Grown(Grown(s.bs, i, x), i, y)| == |s.bs|
  {
    OneLessFree(s, i, x);
    OneLessFree(s.(bs := Grown(s.bs, i, x)), i, y);
    assert x in s.Free();
  }

  // ----- the allocation of one function -----

  function NoObjects(n: nat): (bs: seq<seq<nat>>)
    ensures |bs| == n && forall i :: 0 <= i < n ==> bs[i] == []
  {
    seq(n, _ => [])
  }

  lemma StartIsOk(a: CAllocate) returns (s: Stage)
    requires forall i :: 0 <= i < |a.blocks| ==> a.blocks[i].Valid() && a.blocks[i].members == []
    requires forall i, j :: 0 <= i < j < |a.blocks| ==> a.blocks[i] != a.blocks[j]
    requires a.fGraph == a.input
    requires if |a.fGraph| == 1 then a.Atable == map[] else a.Atable.Keys == a.fGraph.Keys
    requires forall x :: x in a.Atable ==> a.Atable[x] == a.fGraph.Keys - {x}
    ensures s == Stage(a.fGraph.Keys, a.Atable, NoObjects(|a.blocks|), a.capacity)
    ensures StateIs(a, {}, {}, map[], s) && NoSingles(s.bs)
  {
    hide NoObjects, Heads, Taken;
    s := Stage(a.fGraph.Keys, a.Atable, NoObjects(|a.blocks|), a.capacity);
    NothingTaken(s.bs);
    forall x, y | x in s.Live() && y in s.Live() && x != y ensures s.Edge(x, y) {
      Others(a.fGraph.Keys, x);
    }
  }

  /** Rounds until no edge can be chosen any more. */
  method AllocateEdges(a: CAllocate, ghost s0: Stage) returns (placed: set<nat>, ghost s: Stage)
    requires StateIs(a, {}, {}, map[], s0) && NoSingles(s0.bs)
    modifies a`fGraph, a`Atable, a.blocks
    ensures Represents(a.blocks, s.bs) && s.Ok() && Exhausted(s) && placed == Taken(s.bs)
    ensures s.bs == Clustered(a.input, PlanOf(s0))
    ensures s.all == s0.all && s.capacity == s0.capacity && |s.bs| == |a.blocks|
  {
    hide Stage.Ok, Taken, Heads, Edges, Exhausted, Stage.Free, Stage.Usable, Less, Represents, LedBy, CostsOk, NoSingles, Clustered;
    var headVertice: set<nat>, hBlocks: map<nat, CBlock>;
    placed, headVertice, hBlocks := {}, {}, map[];
    s := s0;
    assert |s.bs| == |a.blocks| by { SameCount(a.blocks, s.bs); }
    while true
      invariant StateIs(a, placed, headVertice, hBlocks, s)
      invariant s.all == s0.all && s.capacity == s0.capacity && |s.bs| == |a.blocks|
      invariant NoSingles(s.bs) && Clustered(a.input, PlanOf(s)) == Clustered(a.input, PlanOf(s0))
      decreases |s.Free()|, |Edges(s.table)|
    {
      var found, prev, next := FindEdge(a, placed, headVertice, s);
      if !found {
        NoneUsable(s);
        NothingPlaceable(a.input, s);
        return;
      }
      ghost var t := s;
      RoundIsGreedy(a.input, a.fGraph, s, prev, next);
      placed, headVertice, hBlocks, s := Round(a, prev, next, placed, headVertice, hBlocks, s);
      IfLess(s, t);
    }
  }

  /** A round places the clustering's choice, or nothing. */
  lemma RoundIsGreedy(input: Graph, g: Graph, s: Stage, prev: nat, next: nat)
    requires s.Ok() && CostsOk(input, g, s) && NoSingles(s.bs) && IsBestEdge(g, s, prev, next)
    ensures var t := PlanOf(s).(bs := After(s, prev, next));
            Clustered(input, t) == Clustered(input, PlanOf(s)) && NoSingles(t.bs)
  {
    hide Stage.Ok, CostsOk, IsBestEdge, Clustered, Plan.Placeable, Plan.Placed, NoSingles;
    if PlanOf(s).Placeable(prev, next) {
      ChosenIsGreedy(input, g, s, prev, next);
      ChoiceStep(input, PlanOf(s), prev, next);
      PlacedHasNoSingles(PlanOf(s), prev, next);
    }
  }

  lemma PlacedHasNoSingles(p: Plan, x: nat, y: nat)
    requires p.Placeable(x, y) && NoSingles(p.bs)
    ensures NoSingles(p.Placed(x, y))
  {
    IndexInside(p.bs, x);
    IndexInside(p.bs, y);
    hide IndexOf, FirstRoom, Taken;
  }

  lemma NothingPlaceable(input: Graph, s: Stage)
    requires s.Ok() && Exhausted(s)
    ensures Clustered(input, PlanOf(s)) == s.bs
  {
    hide Stage.Ok, Plan.Placeable;
    forall x: nat, y: nat ensures !PlanOf(s).Placeable(x, y) {
      if PlanOf(s).Placeable(x, y) { PlaceableIsUsable(s, x, y); }
    }
    NoChoiceLeft(input, PlanOf(s));
  }

  lemma SameCount(blocks: seq<CBlock>, bs: seq<seq<nat>>)
    requires Represents(blocks, bs)
    ensures |bs| == |blocks|
  {
  }

  lemma IfLess(s: Stage, t: Stage)
    ensures Less(s, t) ==> |s.Free()| < |t.Free()| || (|s.Free()| == |t.Free()| && |Edges(s.table)| < |Edges(t.table)|)
  {
  }

  /** The allocation of one function by its cheapest edges: the blocks are those of the greedy
      clustering of the input graph. It ends, no object is put into two blocks,
      no block holds more than its capacity, and no usable edge is left. If a block has room for two
      or more, every block ends up full, and only the objects beyond all blocks are left out; otherwise
      nothing is placed at all. */
  method DoAllocate1(a: CAllocate, blockSize: nat) returns (placed: set<nat>, ghost s: Stage)
    requires blockSize >= 1 && a.capacity == blockSize / 4
    requires a.fGraph == a.input && a.Atable == map[] && a.blocks == []
    modifies a
    ensures |a.blocks| * blockSize <= 4 * |a.input| < (|a.blocks| + 1) * blockSize
    ensures Represents(a.blocks, s.bs)
    ensures s.all == a.input.Keys && s.capacity == a.capacity && s.Ok() && Exhausted(s) && placed == Taken(s.bs)
    ensures s.bs == Clustered(a.input, Plan(a.input.Keys, NoObjects(|a.blocks|), a.capacity))
    ensures a.capacity < 2 ==> placed == {}
    ensures a.capacity >= 2 ==>
              && (forall i :: 0 <= i < |a.blocks| ==> a.blocks[i].size == a.capacity)
              && |a.input.Keys - placed| == |a.input| - Room(|a.blocks|, a.capacity)
  {
    hide Stage.Ok, Taken, Exhausted, StateIs, BlockCount, Room, Represents, Clustered, NoObjects, NoSingles;
    a.AdjacentTable();
    a.CreateBlocks(BlockCount(|a.fGraph|, blockSize));
    WholeBlocks(|a.fGraph|, blockSize);
    BlocksFit(|a.fGraph|, blockSize);
    s := StartIsOk(a);
    placed, s := AllocateEdges(a, s);
    if a.capacity >= 2 {
      EveryBlockIsFull(s);
      FullSizes(a.blocks, s);
    } else {
      SmallBlocksStayEmpty(s);
    }
  }

  lemma FullSizes(blocks: seq<CBlock>, s: Stage)
    requires Represents(blocks, s.bs) && forall i :: 0 <= i < |s.bs| ==> |s.bs[i]| == s.capacity
    ensures forall i :: 0 <= i < |blocks| ==> blocks[i].size == s.capacity
  {
  }

  lemma NoneUsable(s: Stage)
    requires !exists x, y :: s.Usable(x, y)
    ensures Exhausted(s)
  {
  }
}
