/** What the edge-driven allocator keeps: blocks that hold no object twice, a symmetric table of
    the edges that are left, and a reason for every edge that is gone. */
module EdgeAllocSpec {
  import opened Sequences
  import opened OrderedSets
  import opened AllocSpec
  import opened Allocate

  /** The objects of a function, the edges that are left between them, and the blocks so far. */
  datatype Stage = Stage(all: set<nat>, table: Table, bs: seq<seq<nat>>, capacity: nat) {
    function Free(): set<nat> {
      all - Taken(bs)
    }

    /** Objects that stand for themselves or for a whole block. */
    function Live(): set<nat> {
      Free() + Heads(bs)
    }

    predicate Edge(x: nat, y: nat) {
      y in Row(table, x)
    }

    /** Every object is in at most one block, no block holds more than it can, and a block
        without room for two objects gets none. */
    ghost predicate BlocksOk() {
      && Taken(bs) <= all && (capacity < 2 ==> forall i :: 0 <= i < |bs| ==> bs[i] == [])
      && (forall i :: 0 <= i < |bs| ==> |bs[i]| <= capacity && Distinct(bs[i]))
      && forall i, j :: 0 <= i < j < |bs| ==> Elements(bs[i]) !! Elements(bs[j])
    }

    /** The table is symmetric on the live objects and mentions no other. */
    ghost predicate TableOk() {
      && (forall x :: x in Live() ==> Row(table, x) <= Live() - {x})
      && forall x, y :: x in Live() && y in Live() && Edge(x, y) ==> Edge(y, x)
    }

    /** x stands for a block that has no room left. */
    ghost predicate FullHead(x: nat) {
      exists i :: HeadsBlock(bs, i, x) && |bs[i]| == capacity
    }

    /** No block has room for two more. */
    ghost predicate NoRoom() {
      forall i :: 0 <= i < |bs| ==> |bs[i]| + 1 >= capacity
    }

    /** Why an edge may be gone. */
    ghost predicate Dead(x: nat, y: nat) {
      FullHead(x) || FullHead(y) || (x !in Heads(bs) && y !in Heads(bs) && NoRoom())
    }

    ghost predicate EdgesOk() {
      forall x, y :: x in Live() && y in Live() && x != y && !(x in Heads(bs) && y in Heads(bs)) ==> Edge(x, y) || Dead(x, y)
    }

    ghost predicate Ok() {
      BlocksOk() && TableOk() && EdgesOk()
    }

    /** An edge that the search may choose. */
    predicate Usable(x: nat, y: nat) {
      x in Live() && Edge(x, y) && !(x in Heads(bs) && y in Heads(bs))
    }
  }

  predicate HeadsBlock(bs: seq<seq<nat>>, i: int, x: nat) {
    0 <= i < |bs| && bs[i] != [] && bs[i][0] == x
  }

  function Heads(bs: seq<seq<nat>>): set<nat> {
    set i | 0 <= i < |bs| && bs[i] != [] :: bs[i][0]
  }

  lemma HeadIs(bs: seq<seq<nat>>, x: nat)
    ensures x in Heads(bs) <==> exists i :: HeadsBlock(bs, i, x)
  {
    if x in Heads(bs) {
      var i :| 0 <= i < |bs| && bs[i] != [] && bs[i][0] == x;
      assert HeadsBlock(bs, i, x);
    }
  }

  lemma HeadIsTaken(bs: seq<seq<nat>>, x: nat)
    requires x in Heads(bs)
    ensures x in Taken(bs)
  {
    HeadIs(bs, x);
    var i :| HeadsBlock(bs, i, x);
    TakenHas(bs, i);
  }

  // ----- one more object in a block -----

  function Grown(bs: seq<seq<nat>>, i: nat, x: nat): seq<seq<nat>>
    requires i < |bs|
  {
    bs[i := bs[i] + [x]]
  }

  lemma ElementsGrow(s: seq<nat>, x: nat)
    ensures Elements(s + [x]) == Elements(s) + {x}
  {
    assert forall y :: y in s + [x] <==> y in s || y == x;
  }

  lemma {:induction false} TakenGrows(bs: seq<seq<nat>>, i: nat, x: nat)
    requires i < |bs|
    ensures Taken(Grown(bs, i, x)) == Taken(bs) + {x}
  {
    var cs := Grown(bs, i, x);
    if i == 0 {
      ElementsGrow(bs[0], x);
      assert cs[1..] == bs[1..];
    } else {
      TakenGrows(bs[1..], i - 1, x);
      assert cs[1..] == Grown(bs[1..], i - 1, x);
    }
  }

  lemma HeadsGrow(bs: seq<seq<nat>>, i: nat, x: nat)
    requires i < |bs|
    ensures Heads(Grown(bs, i, x)) == if bs[i] == [] then Heads(bs) + {x} else Heads(bs)
  {
    var cs := Grown(bs, i, x);
    forall y ensures y in Heads(cs) <==> (y in Heads(bs) || (bs[i] == [] && y == x)) {
      HeadIs(bs, y);
      HeadIs(cs, y);
      forall j ensures HeadsBlock(cs, j, y) <==> HeadsBlock(bs, j, y) || (j == i && bs[i] == [] && y == x) {
      }
      if bs[i] == [] { assert HeadsBlock(cs, i, x); }
    }
  }

  lemma NotAmong(s: seq<nat>, x: nat)
    requires x !in Elements(s)
    ensures x !in s
  {
  }

  lemma BlocksGrow(s: Stage, i: nat, x: nat)
    requires s.BlocksOk() && s.capacity >= 2 && i < |s.bs| && |s.bs[i]| < s.capacity && x in s.Free()
    ensures s.(bs := Grown(s.bs, i, x)).BlocksOk()
  {
    var cs := Grown(s.bs, i, x);
    TakenGrows(s.bs, i, x);
    ElementsGrow(s.bs[i], x);
    TakenHas(s.bs, i);
    NotAmong(s.bs[i], x);
    forall j, k | 0 <= j < k < |cs| ensures Elements(cs[j]) !! Elements(cs[k]) {
      TakenHas(s.bs, j);
      TakenHas(s.bs, k);
    }
  }

  /** What was full stays full, and what had no room has none. */
  lemma DeadStays(s: Stage, i: nat, x: nat, a: nat, b: nat)
    requires i < |s.bs| && |s.bs[i]| < s.capacity && s.Dead(a, b)
    requires s.bs[i] == [] ==> a != x && b != x
    ensures s.(bs := Grown(s.bs, i, x)).Dead(a, b)
  {
    var t := s.(bs := Grown(s.bs, i, x));
    HeadsGrow(s.bs, i, x);
    forall y, j | HeadsBlock(s.bs, j, y) && |s.bs[j]| == s.capacity ensures t.FullHead(y) {
      assert HeadsBlock(t.bs, j, y) && |t.bs[j]| == t.capacity;
    }
  }

  /** The table after x has been merged into a block. */
  ghost predicate Merged(t: Table, u: Table, x: nat) {
    forall z :: Row(u, z) == if z in Row(t, x) then Row(t, z) - {x} else Row(t, z)
  }

  /** An object joins a block that has room. */
  lemma JoinKeeps(s: Stage, i: nat, x: nat, u: Table)
    requires s.Ok() && i < |s.bs| && s.bs[i] != [] && |s.bs[i]| < s.capacity && x in s.Free() && Merged(s.table, u, x)
    ensures s.(bs := Grown(s.bs, i, x), table := u).Ok()
  {
    hide Row, Taken, Heads, Distinct, Elements;
    var t := s.(bs := Grown(s.bs, i, x), table := u);
    BlocksGrow(s, i, x);
    TakenGrows(s.bs, i, x);
    HeadsGrow(s.bs, i, x);
    assert x !in Heads(s.bs) by { if x in Heads(s.bs) { HeadIsTaken(s.bs, x); } }
    assert t.Live() == s.Live() - {x};
    forall a | a in t.Live() ensures Row(u, a) == Row(s.table, a) - {x} {
      assert s.Edge(a, x) ==> s.Edge(x, a);
    }
    forall a, b | a in t.Live() && b in t.Live() && a != b && !(a in Heads(t.bs) && b in Heads(t.bs))
      ensures t.Edge(a, b) || t.Dead(a, b)
    {
      if !s.Edge(a, b) {
        DeadStays(s, i, x, a, b);
      }
    }
  }

  /** A free object starts a block while some block has room for two. */
  lemma StartKeeps(s: Stage, i: nat, x: nat)
    requires s.Ok() && i < |s.bs| && s.bs[i] == [] && 1 < s.capacity && x in s.Free()
    ensures s.(bs := Grown(s.bs, i, x)).Ok()
  {
    hide Row, Taken, Heads, Distinct, Elements;
    var t := s.(bs := Grown(s.bs, i, x));
    BlocksGrow(s, i, x);
    TakenGrows(s.bs, i, x);
    HeadsGrow(s.bs, i, x);
    assert t.Live() == s.Live();
    assert !s.NoRoom();
    assert !s.FullHead(x) by { NotFull(s, x); }
    forall a, b | a in t.Live() && b in t.Live() && a != b && !(a in Heads(t.bs) && b in Heads(t.bs))
      ensures t.Edge(a, b) || t.Dead(a, b)
    {
      if !s.Edge(a, b) {
        FullStays(s, i, x, a);
        FullStays(s, i, x, b);
      }
    }
  }

  lemma NotFull(s: Stage, x: nat)
    requires x in s.Free()
    ensures !s.FullHead(x)
  {
    if s.FullHead(x) {
      HeadIs(s.bs, x);
      HeadIsTaken(s.bs, x);
    }
  }

  lemma FullStays(s: Stage, i: nat, x: nat, a: nat)
    requires i < |s.bs| && |s.bs[i]| < s.capacity
    ensures s.FullHead(a) ==> s.(bs := Grown(s.bs, i, x)).FullHead(a)
  {
    if s.FullHead(a) {
      var j :| HeadsBlock(s.bs, j, a) && |s.bs[j]| == s.capacity;
      var t := s.(bs := Grown(s.bs, i, x));
      assert HeadsBlock(t.bs, j, a) && |t.bs[j]| == t.capacity;
    }
  }

  /** An edge that can no longer be used is dropped. */
  lemma DropKeeps(s: Stage, x: nat, y: nat, u: Table)
    requires s.Ok() && x in s.Live() && y in s.Live() && s.Dead(x, y)
    requires forall z :: Row(u, z) == Row(s.table, z) - (if z == x then {y} else {}) - (if z == y then {x} else {})
    ensures s.(table := u).Ok()
  {
    hide Row, Taken, Heads, Distinct, Elements;
    var t := s.(table := u);
    assert t.Live() == s.Live();
    forall a, b ensures t.Edge(a, b) <==> s.Edge(a, b) && !(a == x && b == y) && !(a == y && b == x) {
    }
    forall a, b | a in t.Live() && b in t.Live() && a != b && !(a in Heads(t.bs) && b in Heads(t.bs))
      ensures t.Edge(a, b) || t.Dead(a, b)
    {
      assert s.Edge(a, b) || s.Dead(a, b);
      assert s.Dead(a, b) ==> t.Dead(a, b);
      assert s.Dead(x, y) ==> t.Dead(x, y) && t.Dead(y, x);
    }
  }

  lemma FreeIsNoHead(s: Stage, x: nat)
    requires x in s.Free()
    ensures x !in Heads(s.bs)
  {
    if x in Heads(s.bs) { HeadIsTaken(s.bs, x); }
  }

  lemma OneBlock(s: Stage, i: int, j: int, h: nat)
    requires s.BlocksOk() && HeadsBlock(s.bs, i, h) && HeadsBlock(s.bs, j, h)
    ensures i == j
  {
    assert h in Elements(s.bs[i]) && h in Elements(s.bs[j]);
  }
}
