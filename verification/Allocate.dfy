/** The allocator: costs and adjacency are changed in place while blocks are filled. */
module Allocate {
  import opened OrderedSets
  import opened AllocSpec

  class CBlock {
    var size: nat
    var rep: nat
    var elements: set<nat>
    // the objects in the order they were added
    ghost var members: seq<nat>

    constructor ()
      ensures size == 0 && elements == {} && members == []
    {
      size, rep, elements, members := 0, 0, {}, [];
    }

    ghost predicate Valid()
      reads this
    {
      size == |members| && elements == Elements(members)
    }

    method Add(obj: nat)
      requires Valid()
      modifies this`size, this`elements, this`members
      ensures Valid() && members == old(members) + [obj]
    {
      size := size + 1;
      elements := elements + {obj};
      members := members + [obj];
    }
  }

  type Table = map<nat, set<nat>>

  /** A row of the table as `operator[]` reads it: a missing row is an empty one. */
  function Row(t: Table, x: nat): set<nat> {
    if x in t then t[x] else {}
  }

  function SetCost(g: Graph, a: nat, b: nat, cost: nat): (r: Graph)
    ensures forall x, y :: Cost(r, x, y) == if x == a && y == b then cost else Cost(g, x, y)
  {
    g[a := (if a in g then g[a] else map[])[b := cost]]
  }

  lemma Others(keys: set<nat>, x: nat)
    requires x in keys
    ensures keys - {x} == {} <==> |keys| == 1
  {
    assert keys == {x} + (keys - {x});
  }

  /** Costs after obj has been merged into rep as far as the neighbours in `done` go. */
  function MergedCost(g: Graph, rep: nat, obj: nat, done: set<nat>, a: nat, b: nat): nat {
    if a == rep && b in done then Min2(Cost(g, a, b), Cost(g, obj, b))
    else if b == rep && a in done then Min2(Cost(g, b, a), Cost(g, obj, a))
    else Cost(g, a, b)
  }

  function MergeOne(g: Graph, rep: nat, obj: nat, z: nat): Graph {
    var g1 := SetCost(g, rep, z, Min2(Cost(g, rep, z), Cost(g, obj, z)));
    SetCost(g1, z, rep, Cost(g1, rep, z))
  }

  lemma NothingMerged(g: Graph, rep: nat, obj: nat)
    ensures forall a, b :: Cost(g, a, b) == MergedCost(g, rep, obj, {}, a, b)
  {
  }

  lemma MergeOneCost(g0: Graph, g: Graph, rep: nat, obj: nat, done: set<nat>, z: nat, a: nat, b: nat)
    requires rep != obj && obj !in done && obj != z && z !in done
    requires Cost(g, rep, z) == MergedCost(g0, rep, obj, done, rep, z)
    requires Cost(g, obj, z) == MergedCost(g0, rep, obj, done, obj, z)
    requires Cost(g, a, b) == MergedCost(g0, rep, obj, done, a, b)
    ensures Cost(MergeOne(g, rep, obj, z), a, b) == MergedCost(g0, rep, obj, done + {z}, a, b)
  {
  }

  /** obj has been merged into rep: the cost between rep and a neighbour of obj is the same in both
      directions, no higher than either of the two was, and one of them; all others are as before. */
  ghost predicate Merged(g0: Graph, g: Graph, rep: nat, obj: nat, near: set<nat>) {
    && (forall z :: z in near ==>
         var cost := Cost(g, rep, z);
         && cost == Cost(g, z, rep)
         && cost <= Cost(g0, rep, z) && cost <= Cost(g0, obj, z)
         && (cost == Cost(g0, rep, z) || cost == Cost(g0, obj, z)))
    && forall a, b :: !(a == rep && b in near) && !(b == rep && a in near) ==> Cost(g, a, b) == Cost(g0, a, b)
  }

  lemma MergedIsLower(g0: Graph, g: Graph, rep: nat, obj: nat, near: set<nat>)
    requires obj !in near
    requires forall a, b :: Cost(g, a, b) == MergedCost(g0, rep, obj, near, a, b)
    ensures Merged(g0, g, rep, obj, near)
  {
    hide Cost;
  }

  /** The graph of one function, and its allocation so far. */
  class CAllocate {
    const capacity: nat
    var fGraph: Graph
    var Atable: Table
    var placed: set<nat>
    var blocks: seq<CBlock>
    // the graph as it was read
    ghost const input: Graph
    // the representatives of the blocks in use
    ghost var reps: set<nat>

    constructor (graph: Graph, capacity: nat)
      ensures this.capacity == capacity && fGraph == input == graph
      ensures Atable == map[] && placed == {} && blocks == [] && reps == {}
    {
      this.capacity, fGraph, input := capacity, graph, graph;
      Atable, placed, blocks, reps := map[], {}, [], {};
    }

    /** Everyone is adjacent to everyone else. A single object gets no row at all. */
    method AdjacentTable()
      requires Atable == map[]
      modifies this`Atable
      ensures if |fGraph| == 1 then Atable == map[] else Atable.Keys == fGraph.Keys
      ensures forall x :: x in Atable ==> Atable[x] == fGraph.Keys - {x}
    {
      var todo, keys := fGraph.Keys, fGraph.Keys;
      while todo != {}
        invariant todo <= keys && PartialTable(keys)
        invariant forall x :: x in keys - todo ==> Row(Atable, x) == keys - {x}
        decreases todo
      {
        var i: nat :| i in todo;
        todo := todo - {i};
        ConnectAll(i, keys);
      }
      forall x | x in keys ensures keys - {x} == {} <==> |keys| == 1 {
        Others(keys, x);
      }
      assert |keys| == 1 ==> Atable.Keys == {};
    }

    ghost predicate PartialTable(keys: set<nat>)
      reads this
    {
      forall x :: Row(Atable, x) <= keys - {x} && (x in Atable ==> x in keys && Atable[x] != {})
    }

    method Insert(a: nat, b: nat, keys: set<nat>)
      requires PartialTable(keys) && a in keys && b in keys && a != b
      modifies this`Atable
      ensures PartialTable(keys) && b in Row(Atable, a)
      ensures forall x :: Row(old(Atable), x) <= Row(Atable, x)
    {
      Atable := Atable[a := Row(Atable, a) + {b}];
    }

    /** One row of the table, and its mirror image in the others. */
    method ConnectAll(i: nat, keys: set<nat>)
      requires i in keys && PartialTable(keys)
      modifies this`Atable
      ensures PartialTable(keys) && keys - {i} <= Row(Atable, i)
      ensures forall x :: Row(old(Atable), x) <= Row(Atable, x)
    {
      hide PartialTable, Row;
      var todo := keys;
      while todo != {}
        invariant todo <= keys && PartialTable(keys)
        invariant forall x :: Row(old(Atable), x) <= Row(Atable, x)
        invariant keys - todo - {i} <= Row(Atable, i)
        decreases todo
      {
        var j: nat :| j in todo;
        todo := todo - {j};
        if i != j {
          Insert(i, j, keys);
          Insert(j, i, keys);
        }
      }
    }

    /** Merges obj into the block: the representative takes the lower of the two costs to each
        neighbour of obj, and obj disappears from its neighbours' rows. */
    method UpdateGraph(block: CBlock, obj: nat)
      requires obj !in Row(Atable, obj) && block.rep != obj
      requires forall z :: z in Row(Atable, obj) ==> z in Atable
      modifies this`fGraph, this`Atable
      ensures var near := Row(old(Atable), obj);
              && (forall a, b :: Cost(fGraph, a, b) == MergedCost(old(fGraph), block.rep, obj, near, a, b))
              && Atable.Keys == old(Atable).Keys
              && (forall x :: x in Atable ==> Atable[x] == if x in near then old(Atable)[x] - {obj} else old(Atable)[x])
      ensures Merged(old(fGraph), fGraph, block.rep, obj, Row(old(Atable), obj))
    {
      hide MergedCost, MergeOne, Cost, Merged;
      var repObj := block.rep;
      var near := Row(Atable, obj);
      var todo := near;
      NothingMerged(fGraph, repObj, obj);
      assert near - todo == {};
      while todo != {}
        invariant todo <= near && Atable.Keys == old(Atable).Keys
        invariant forall a, b :: Cost(fGraph, a, b) == MergedCost(old(fGraph), repObj, obj, near - todo, a, b)
        invariant forall x :: x in Atable ==> Atable[x] == if x in near - todo then old(Atable)[x] - {obj} else old(Atable)[x]
        decreases todo
      {
        var z: nat :| z in todo;
        ghost var before, done := fGraph, near - todo;
        todo := todo - {z};
        assert near - todo == done + {z};
        fGraph := MergeOne(fGraph, repObj, obj, z);
        forall a, b ensures Cost(fGraph, a, b) == MergedCost(old(fGraph), repObj, obj, near - todo, a, b) {
          MergeOneCost(old(fGraph), before, repObj, obj, done, z, a, b);
        }
        Atable := Atable[z := Atable[z] - {obj}];
      }
      assert near - todo == near;
      MergedIsLower(old(fGraph), fGraph, repObj, obj, near);
    }

    // ----- the invariant of the allocation -----

    ghost function Free(): set<nat>
      reads `placed
    {
      input.Keys - placed
    }

    /** Objects that still stand for themselves: the free ones and the representatives. */
    ghost function Live(): set<nat>
      reads `placed, `reps
    {
      Free() + reps
    }

    ghost predicate Inv()
      reads `placed, `reps, `Atable, `fGraph
    {
      && reps <= placed <= input.Keys
      && (forall x :: x in Live() ==> x in Atable && Atable[x] == Live() - {x})
      && (forall x, y :: x in Free() && y in Free() ==> Cost(fGraph, x, y) == Cost(input, x, y))
    }

    /** The representative of the block being filled carries the block's linkage costs. */
    ghost predicate Filling(block: CBlock)
      reads this, block
    {
      && block.Valid() && block.members != [] && block.size <= capacity
      && block.rep == block.members[0] && block.rep in reps && block.elements <= placed
      && forall x :: x in Free() ==> Cost(fGraph, block.rep, x) == Linkage(input, block.members, x)
    }

    /** The cheapest neighbour that is not placed yet, the lowest id among equals. */
    method FindBest(obj: nat, neighbors: set<nat>) returns (found: bool, best: nat)
      ensures found <==> neighbors - placed != {}
      ensures found ==> best in neighbors - placed
      ensures found ==> forall y :: y in neighbors - placed ==>
                Before(Cost(fGraph, obj, best), best, Cost(fGraph, obj, y), y)
    {
      found, best := false, 0;
      var bestCost := 0;
      var todo := neighbors;
      while todo != {}
        invariant todo <= neighbors
        invariant forall x, y :: x in neighbors - todo && y in todo ==> x < y
        invariant found <==> neighbors - todo - placed != {}
        invariant found ==> best in neighbors - todo - placed && bestCost == Cost(fGraph, obj, best)
        invariant found ==> forall y :: y in neighbors - todo - placed ==> Before(bestCost, best, Cost(fGraph, obj, y), y)
        decreases todo
      {
        LeastExists(todo);
        var i: nat :| IsLeast(todo, i);
        ghost var seen := neighbors - todo;
        todo := todo - {i};
        assert neighbors - todo == seen + {i};
        if i in placed {
          assert neighbors - todo - placed == neighbors - (todo + {i}) - placed;
          continue;
        }
        assert neighbors - todo - placed == neighbors - (todo + {i}) - placed + {i};
        var cost := Cost(fGraph, obj, i);
        if !found || cost < bestCost {
          found, best, bestCost := true, i, cost;
        }
      }
    }

    /** Fills the block with the best free objects until it is full (false) or none is left (true). */
    method AddAllocate(block: CBlock, obj: nat) returns (over: bool)
      requires Inv() && Filling(block) && obj == block.rep
      modifies this`fGraph, this`Atable, this`placed, block`size, block`elements, block`members
      ensures Inv() && Filling(block)
      ensures block.members == Cluster(input, old(block.members), old(Free()), capacity)
      ensures placed == old(placed) + Elements(block.members) && Atable.Keys == old(Atable.Keys)
      ensures over <==> |block.members| < capacity
      ensures over ==> Free() == {}
      decreases capacity - block.size
    {
      if block.size == capacity {
        return false;
      }
      var neighbors := Row(Atable, obj);
      var found, obj2 := FindBest(obj, neighbors);
      assert neighbors - placed == Free();
      if !found {
        return true;
      }
      BestIsUnique(input, block.members, Free(), obj2);
      ghost var grown := block.members + [obj2];
      Place(block, obj2);
      assert Free() == old(Free()) - {obj2};
      over := AddAllocate(block, obj);
      assert obj2 in Elements(block.members) by {
        assert block.members[..|grown|] == grown;
        assert grown[|grown| - 1] == obj2 && block.members[|grown| - 1] == obj2;
      }
    }

    /** One object joins the block. */
    method Place(block: CBlock, obj: nat)
      requires Inv() && Filling(block) && block.size < capacity && obj in Free()
      modifies this`fGraph, this`Atable, this`placed, block`size, block`elements, block`members
      ensures Inv() && Filling(block)
      ensures block.members == old(block.members) + [obj] && placed == old(placed) + {obj}
      ensures Atable.Keys == old(Atable.Keys)
    {
      hide Merged;
      block.Add(obj);
      placed := placed + {obj};
      UpdateGraph(block, obj);
    }

    method CreateBlocks(n: nat)
      requires blocks == []
      modifies this`blocks
      ensures |blocks| == n
      ensures forall i :: 0 <= i < n ==> fresh(blocks[i]) && blocks[i].Valid() && blocks[i].members == []
      ensures forall i, j :: 0 <= i < j < n ==> blocks[i] != blocks[j]
    {
      for k := 0 to n
        invariant |blocks| == k
        invariant forall i :: 0 <= i < k ==> fresh(blocks[i]) && blocks[i].Valid() && blocks[i].members == []
        invariant forall i, j :: 0 <= i < j < k ==> blocks[i] != blocks[j]
      {
        var cb := new CBlock();
        blocks := blocks + [cb];
      }
    }

    /** Takes an empty block into use, with obj as its representative. */
    method StartBlock(block: CBlock, obj: nat)
      requires Inv() && obj in Free() && block.Valid() && block.members == [] && capacity >= 1
      modifies this`placed, this`reps, block
      ensures Inv() && Filling(block) && block.members == [obj] && placed == old(placed) + {obj}
    {
      block.Add(obj);
      placed := placed + {obj};
      block.rep := obj;
      reps := reps + {obj};
    }

    /** The blocks created at first, k of them filled with the first k blocks of the goal and
        moved to the back of the list, and the rest of the goal still to be made of the free objects. */
    ghost predicate Progress(created: seq<CBlock>, goal: seq<seq<nat>>, k: nat)
      requires capacity >= 1
      reads this, created
    {
      && (forall i, j :: 0 <= i < j < |created| ==> created[i] != created[j])
      && k <= |created| == |goal|
      && blocks == created[k..] + created[..k]
      && (forall i :: 0 <= i < |created| ==> created[i].Valid())
      && (forall i :: 0 <= i < |created| ==> created[i].members == if i < k then goal[i] else [])
      && (forall i :: 0 <= i < k ==> goal[i] != [] && created[i].rep == goal[i][0])
      && goal[k..] == Blocks(input, Free(), capacity)
    }

    /** Fills the block at the front of the list, starting from obj, and moves it to the back. */
    method FillFront(obj: nat, ghost created: seq<CBlock>, ghost goal: seq<seq<nat>>, ghost k: nat) returns (over: bool)
      requires capacity >= 1 && Inv() && Progress(created, goal, k) && k < |created|
      requires IsLeast(Free(), obj)
      modifies this, created
      ensures |blocks| == |created| && Inv() && Progress(created, goal, k + 1) && obj in placed && old(placed) <= placed
      ensures Atable.Keys == old(Atable.Keys)
      ensures over ==> Free() == {}
    {
      hide Blocks, Cluster, Inv;
      ghost var free := Free();
      BlocksStep(input, free, capacity, obj);
      assert goal[k..][1..] == goal[k + 1..];
      var pBlock := blocks[0];
      assert pBlock == created[k];
      blocks := blocks[1..] + [pBlock];
      StartBlock(pBlock, obj);
      assert Free() == free - {obj};
      over := AddAllocate(pBlock, obj);
      assert obj in Elements(pBlock.members) by { assert pBlock.members[0] == obj; }
      assert Free() == free - Elements(pBlock.members);
      assert pBlock.members == goal[k] by { assert goal[k] == goal[k..][0]; }
    }

    /** All blocks of one function: each starts with the lowest object not placed yet.
        With exactly one object the table has no row, and the object is never placed. */
    method DoAllocate()
      requires capacity >= 1
      requires fGraph == input && Atable == map[] && placed == {} && blocks == [] && reps == {}
      modifies this
      ensures |blocks| == CeilDiv(|input|, capacity)
      ensures forall i :: 0 <= i < |blocks| ==> fresh(blocks[i]) && blocks[i].Valid()
      ensures |input| != 1 ==>
                && placed == input.Keys
                && |Blocks(input, input.Keys, capacity)| == |blocks|
                && forall i :: 0 <= i < |blocks| ==>
                     && blocks[i].members == Blocks(input, input.Keys, capacity)[i]
                     && blocks[i].members != [] && blocks[i].rep == blocks[i].members[0]
      ensures |input| == 1 ==> placed == {} && forall i :: 0 <= i < |blocks| ==> blocks[i].members == []
    {
      hide Blocks, Inv, CeilDiv, Progress, IsLeast;
      AdjacentTable();
      CreateBlocks(CeilDiv(|fGraph|, capacity));
      ghost var created, goal := blocks, Blocks(input, input.Keys, capacity);
      BlocksCount(input, input.Keys, capacity);
      if |input| != 1 {
        InvAtStart();
        ProgressAtStart(created, goal);
      }
      DivSmall(0, capacity);
      assert Atable == map[] ==> |input| <= 1;
      FillAll(created, goal);
    }

    /** Goes through the table in order, starting a new block from every object that is not placed yet. */
    method FillAll(ghost created: seq<CBlock>, ghost goal: seq<seq<nat>>)
      requires capacity >= 1
      requires Atable == map[] || (Inv() && Progress(created, goal, 0) && Atable.Keys == input.Keys)
      modifies this, created
      ensures old(Atable) == map[] ==> placed == old(placed) && blocks == old(blocks) && forall i :: 0 <= i < |created| ==> unchanged(created[i])
      ensures old(Atable) != map[] ==>
                && blocks == created && placed == input.Keys
                && forall i :: 0 <= i < |blocks| ==>
                     blocks[i].Valid() && blocks[i].members == goal[i] && goal[i] != [] && blocks[i].rep == goal[i][0]
    {
      hide Blocks, Inv, Progress, IsLeast;
      var todo := Atable.Keys;
      if todo == {} { return; }
      ghost var k := 0;
      while todo != {}
        invariant todo <= Atable.Keys == input.Keys
        invariant Inv() && Progress(created, goal, k) && input.Keys - todo <= placed
        decreases todo
      {
        LeastNatExists(todo);
        var obj1: nat :| IsLeast(todo, obj1);
        LeastOfFree(todo, obj1);
        todo := todo - {obj1};
        if obj1 in placed {
          continue;
        }
        LeftToFill(obj1, created, goal, k);
        // the block at the front is never in use
        assert blocks[0].size == 0;
        if blocks[0].size != 0 {
          break;
        }
        var over := FillFront(obj1, created, goal, k);
        k := k + 1;
        if over {
          break;
        }
      }
      assert Free() == {};
      AllFilled(created, goal, k);
    }

    lemma LeastOfFree(todo: set<nat>, obj: nat)
      requires IsLeast(todo, obj)
      ensures obj in todo
      ensures input.Keys - todo <= placed && obj in Free() ==> IsLeast(Free(), obj)
    {
    }

    lemma ProgressAtStart(created: seq<CBlock>, goal: seq<seq<nat>>)
      requires capacity >= 1 && blocks == created && |goal| == |created| && goal == Blocks(input, Free(), capacity)
      requires forall i :: 0 <= i < |created| ==> created[i].Valid() && created[i].members == []
      requires forall i, j :: 0 <= i < j < |created| ==> created[i] != created[j]
      ensures Progress(created, goal, 0)
    {
    }

    lemma InvAtStart()
      requires fGraph == input && placed == {} && reps == {} && Atable.Keys == fGraph.Keys
      requires forall x :: x in Atable ==> Atable[x] == fGraph.Keys - {x}
      ensures Inv() && Free() == input.Keys
    {
    }

    /** While an object is free, some block has not been used, and it is at the front. */
    lemma LeftToFill(obj: nat, created: seq<CBlock>, goal: seq<seq<nat>>, k: nat)
      requires capacity >= 1 && Progress(created, goal, k) && obj in Free()
      ensures k < |created| && |blocks| > 0 && blocks[0] == created[k] && blocks[0].size == 0
    {
    }

    /** When nothing is free all blocks are used, and the list is back in its first order. */
    lemma AllFilled(created: seq<CBlock>, goal: seq<seq<nat>>, k: nat)
      requires capacity >= 1 && Progress(created, goal, k) && Inv() && Free() == {}
      ensures k == |created| && blocks == created && placed == input.Keys
      ensures forall i :: 0 <= i < |blocks| ==> blocks[i].Valid() && blocks[i].members == goal[i] && goal[i] != [] && blocks[i].rep == goal[i][0]
    {
      assert input.Keys <= placed by {
        forall x | x in input ensures x in placed {
          assert x !in placed ==> x in Free();
        }
      }
      assert placed <= input.Keys;
    }
  }
}
