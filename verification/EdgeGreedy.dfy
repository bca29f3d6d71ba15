/** The edge-driven allocation as a greedy clustering of the input graph: pairs are placed one after
    the other, the cheapest first, with single-linkage costs. */
module EdgeGreedy {
  import opened AllocSpec
  import opened Allocate
  import opened EdgeAllocSpec

  /** The objects, and the blocks so far. */
  datatype Plan = Plan(all: set<nat>, bs: seq<seq<nat>>, capacity: nat) {
    function Free(): set<nat> {
      all - Taken(bs)
    }

    /** h stands for a block that has room for one more. */
    predicate HasRoom(h: nat) {
      var i := IndexOf(bs, h);
      i < |bs| && |bs[i]| < capacity
    }

    /** x and y may be put into one block: two free objects into a block with room for both, or a
        free object into the block that the other one stands for. */
    predicate Placeable(x: nat, y: nat) {
      || (HasRoom(x) && y in Free())
      || (HasRoom(y) && x in Free())
      || (x in Free() && y in Free() && x != y && FirstRoom(bs, capacity) < |bs|)
    }

    /** The least input cost from any member of the one's block to the other. */
    function PairCost(g: Graph, x: nat, y: nat): nat
      requires Placeable(x, y)
    {
      if HasRoom(x) && y in Free() then IndexInside(bs, x); Linkage(g, bs[IndexOf(bs, x)], y)
      else if HasRoom(y) && x in Free() then IndexInside(bs, y); Linkage(g, bs[IndexOf(bs, y)], x)
      else Cost(g, x, y)
    }

    /** The blocks when x and y have been put together. */
    function Placed(x: nat, y: nat): seq<seq<nat>>
      requires Placeable(x, y)
    {
      if HasRoom(x) && y in Free() then Grown(bs, IndexOf(bs, x), y)
      else if HasRoom(y) && x in Free() then Grown(bs, IndexOf(bs, y), x)
      else
        var k := FirstRoom(bs, capacity);
        Grown(Grown(bs, k, x), k, y)
    }

    /** (x, y) is the cheapest pair that can be placed, the first one of them in ascending order. */
    ghost predicate IsChoice(g: Graph, x: nat, y: nat) {
      && Placeable(x, y)
      && forall p, q :: Placeable(p, q) ==>
           PairCost(g, x, y) < PairCost(g, p, q) || (PairCost(g, x, y) == PairCost(g, p, q) && (x < p || (x == p && y <= q)))
    }
  }

  /** The first block that h stands for, or the number of blocks. */
  function IndexOf(bs: seq<seq<nat>>, h: nat): (i: nat)
    ensures i <= |bs| && (i < |bs| ==> HeadsBlock(bs, i, h))
    ensures forall j :: 0 <= j < i ==> !HeadsBlock(bs, j, h)
  {
    if bs == [] then 0
    else if HeadsBlock(bs, 0, h) then 0
    else
      var i := IndexOf(bs[1..], h);
      assert forall j :: 0 < j < |bs| ==> (HeadsBlock(bs, j, h) <==> HeadsBlock(bs[1..], j - 1, h));
      1 + i
  }

  /** The first block with room for two more, or the number of blocks. */
  function FirstRoom(bs: seq<seq<nat>>, capacity: nat): (k: nat)
    ensures k <= |bs| && (k < |bs| ==> |bs[k]| + 1 < capacity)
    ensures forall j :: 0 <= j < k ==> |bs[j]| + 1 >= capacity
  {
    if bs == [] || |bs[0]| + 1 < capacity then 0 else 1 + FirstRoom(bs[1..], capacity)
  }

  lemma IndexInside(bs: seq<seq<nat>>, h: nat)
    ensures IndexOf(bs, h) < |bs| ==> bs[IndexOf(bs, h)] != []
  {
  }

  /** x stands for itself, or for the members of its block. */
  function Group(bs: seq<seq<nat>>, x: nat): seq<nat> {
    if IndexOf(bs, x) < |bs| then bs[IndexOf(bs, x)] else [x]
  }

  /** The cost of a pair, by the costs alone: it is that of two members, one from each side, and no
      two members are cheaper. */
  lemma PairCostIsLeast(g: Graph, p: Plan, x: nat, y: nat) returns (m: nat)
    requires p.Placeable(x, y)
    ensures var cost := p.PairCost(g, x, y);
            if p.HasRoom(x) && y in p.Free() then
              m in Group(p.bs, x) && cost == Cost(g, m, y) && forall n :: n in Group(p.bs, x) ==> cost <= Cost(g, n, y)
            else if p.HasRoom(y) && x in p.Free() then
              m in Group(p.bs, y) && cost == Cost(g, m, x) && forall n :: n in Group(p.bs, y) ==> cost <= Cost(g, n, x)
            else cost == Cost(g, x, y)
  {
    hide Cost, Linkage, IndexOf;
    m := x;
    if p.HasRoom(x) && y in p.Free() {
      IndexInside(p.bs, x);
      var k := LinkageIsLeast(g, Group(p.bs, x), y);
      m := Group(p.bs, x)[k];
    } else if p.HasRoom(y) && x in p.Free() {
      IndexInside(p.bs, y);
      var k := LinkageIsLeast(g, Group(p.bs, y), x);
      m := Group(p.bs, y)[k];
    }
  }

  lemma PlacedIsTaken(p: Plan, x: nat, y: nat)
    requires p.Placeable(x, y)
    ensures var q := p.(bs := p.Placed(x, y));
            q.Free() < p.Free() && |q.bs| == |p.bs|
  {
    hide Taken, IndexOf, FirstRoom;
    if p.HasRoom(x) && y in p.Free() {
      TakenGrows(p.bs, IndexOf(p.bs, x), y);
      Fewer(p.all, Taken(p.bs), {y});
    } else if p.HasRoom(y) && x in p.Free() {
      TakenGrows(p.bs, IndexOf(p.bs, y), x);
      Fewer(p.all, Taken(p.bs), {x});
    } else {
      var k := FirstRoom(p.bs, p.capacity);
      TakenGrows(p.bs, k, x);
      TakenGrows(Grown(p.bs, k, x), k, y);
      Fewer(p.all, Taken(p.bs), {x, y});
      assert Taken(p.bs) + {x} + {y} == Taken(p.bs) + {x, y};
    }
  }

  lemma Fewer(all: set<nat>, taken: set<nat>, more: set<nat>)
    requires more <= all - taken && more != {}
    ensures all - (taken + more) < all - taken
  {
    var x :| x in more;
    assert x in all - taken && x !in all - (taken + more);
  }

  lemma ChoiceIsUnique(p: Plan, g: Graph, x: nat, y: nat, u: nat, v: nat)
    requires p.IsChoice(g, x, y) && p.IsChoice(g, u, v)
    ensures x == u && y == v
  {
  }

  /** The blocks when the cheapest pair has been placed again and again, until none can be. */
  ghost function Clustered(g: Graph, p: Plan): seq<seq<nat>>
    decreases p.Free()
  {
    if x, y :| p.IsChoice(g, x, y) then
      PlacedIsTaken(p, x, y);
      Clustered(g, p.(bs := p.Placed(x, y)))
    else p.bs
  }

  lemma ChoiceStep(g: Graph, p: Plan, x: nat, y: nat)
    requires p.IsChoice(g, x, y)
    ensures Clustered(g, p) == Clustered(g, p.(bs := p.Placed(x, y)))
  {
    var u, v :| p.IsChoice(g, u, v) && Clustered(g, p) == Clustered(g, p.(bs := p.Placed(u, v)));
    ChoiceIsUnique(p, g, x, y, u, v);
  }

  lemma NoChoiceLeft(g: Graph, p: Plan)
    requires forall x, y :: !p.Placeable(x, y)
    ensures Clustered(g, p) == p.bs
  {
  }

  // ----- there is a cheapest pair -----

  /** The pair that is cheaper, or as cheap and earlier. */
  predicate Ahead(g: Graph, p: Plan, a: (nat, nat), b: (nat, nat))
    requires p.Placeable(a.0, a.1) && p.Placeable(b.0, b.1)
  {
    var x, y := p.PairCost(g, a.0, a.1), p.PairCost(g, b.0, b.1);
    x < y || (x == y && (a.0 < b.0 || (a.0 == b.0 && a.1 <= b.1)))
  }

  lemma {:induction false} FirstPair(g: Graph, p: Plan, pairs: set<(nat, nat)>) returns (first: (nat, nat))
    requires pairs != {} && forall a :: a in pairs ==> p.Placeable(a.0, a.1)
    ensures first in pairs && forall a :: a in pairs ==> Ahead(g, p, first, a)
    decreases pairs
  {
    hide Plan.Placeable, Plan.PairCost;
    var a :| a in pairs;
    first := a;
    if pairs != {a} {
      var b := FirstPair(g, p, pairs - {a});
      first := if Ahead(g, p, a, b) then a else b;
      assert forall c :: c in pairs ==> c == a || c in pairs - {a};
    }
  }

  lemma HeadsAreTaken(bs: seq<seq<nat>>, h: nat)
    requires IndexOf(bs, h) < |bs|
    ensures h in Taken(bs)
  {
    TakenHas(bs, IndexOf(bs, h));
  }

  lemma PlaceableAreKnown(p: Plan, x: nat, y: nat)
    requires p.Placeable(x, y)
    ensures x in p.all + Taken(p.bs) && y in p.all + Taken(p.bs)
  {
    if p.HasRoom(x) { HeadsAreTaken(p.bs, x); }
    if p.HasRoom(y) { HeadsAreTaken(p.bs, y); }
  }

  function Pairs(p: Plan): (r: set<(nat, nat)>)
    ensures forall a :: a in r ==> p.Placeable(a.0, a.1)
  {
    var known := p.all + Taken(p.bs);
    set u, v | u in known && v in known && p.Placeable(u, v) :: (u, v)
  }

  lemma PairIsIn(p: Plan, x: nat, y: nat)
    requires p.Placeable(x, y)
    ensures (x, y) in Pairs(p)
  {
    PlaceableAreKnown(p, x, y);
    hide Plan.Placeable, Taken;
  }

  /** As long as a pair can be placed there is a choice. */
  lemma ChoiceExists(g: Graph, p: Plan, x: nat, y: nat)
    requires p.Placeable(x, y)
    ensures exists u, v :: p.IsChoice(g, u, v)
  {
    hide Plan.Placeable, Plan.PairCost, Pairs;
    PairIsIn(p, x, y);
    var first := FirstPair(g, p, Pairs(p));
    forall u: nat, v: nat | p.Placeable(u, v) ensures Ahead(g, p, first, (u, v)) {
      PairIsIn(p, u, v);
    }
    assert p.IsChoice(g, first.0, first.1);
  }

  /** The clustering goes on until no two objects, and no object and block, can be put together. */
  lemma {:induction false} ClusteredIsComplete(g: Graph, p: Plan)
    ensures forall x, y :: !p.(bs := Clustered(g, p)).Placeable(x, y)
    decreases p.Free()
  {
    hide Plan.Placeable, Plan.Placed, Plan.Free;
    if x, y :| p.IsChoice(g, x, y) {
      PlacedIsTaken(p, x, y);
      ClusteredIsComplete(g, p.(bs := p.Placed(x, y)));
      ChoiceStep(g, p, x, y);
    } else {
      forall x, y ensures !p.Placeable(x, y) {
        if p.Placeable(x, y) { ChoiceExists(g, p, x, y); }
      }
    }
  }
}
