/** Greedy clustering of objects into cache blocks, as sequences: what the allocator computes. */
module AllocSpec {
  import opened Sequences
  import opened OrderedSets

  /** Symmetric or not, a cost that is not listed counts as 0. */
  type Graph = map<nat, map<nat, nat>>

  function Cost(g: Graph, a: nat, b: nat): nat {
    if a in g && b in g[a] then g[a][b] else 0
  }

  function Min2(a: nat, b: nat): nat {
    if a < b then a else b
  }

  /** Single linkage: the least cost from any member of a block to x. */
  function Linkage(g: Graph, members: seq<nat>, x: nat): nat
    requires members != []
  {
    if |members| == 1 then Cost(g, members[0], x)
    else Min2(Linkage(g, members[..|members| - 1], x), Cost(g, members[|members| - 1], x))
  }

  /** The order in which objects are preferred: by cost, then by id. */
  predicate Before(costX: nat, x: nat, costY: nat, y: nat) {
    costX < costY || (costX == costY && x <= y)
  }

  /** x is the cheapest object for the block among the free ones, the lowest id among equals. */
  ghost predicate IsBest(g: Graph, members: seq<nat>, free: set<nat>, x: nat)
    requires members != []
  {
    && x in free
    && forall y :: y in free ==> Before(Linkage(g, members, x), x, Linkage(g, members, y), y)
  }

  lemma BestExists(g: Graph, members: seq<nat>, free: set<nat>)
    requires members != [] && free != {}
    ensures exists x :: IsBest(g, members, free, x)
    decreases free
  {
    var x :| x in free;
    if free == {x} {
      assert IsBest(g, members, free, x);
    } else {
      BestExists(g, members, free - {x});
      var y :| IsBest(g, members, free - {x}, y);
      var z := if Before(Linkage(g, members, x), x, Linkage(g, members, y), y) then x else y;
      assert IsBest(g, members, free, z);
    }
  }

  ghost function Best(g: Graph, members: seq<nat>, free: set<nat>): (x: nat)
    requires members != [] && free != {}
    ensures IsBest(g, members, free, x)
  {
    BestExists(g, members, free);
    var x :| IsBest(g, members, free, x);
    x
  }

  lemma BestIsUnique(g: Graph, members: seq<nat>, free: set<nat>, x: nat)
    requires members != [] && IsBest(g, members, free, x)
    ensures free != {} && x == Best(g, members, free)
  {
  }

  /** A block grown from `members` until it is full or nothing is free. */
  ghost function Cluster(g: Graph, members: seq<nat>, free: set<nat>, capacity: nat): (r: seq<nat>)
    requires members != [] && |members| <= capacity
    ensures |members| <= |r| <= capacity && r[..|members|] == members
    ensures forall i :: |members| <= i < |r| ==> r[i] in free
    decreases capacity - |members|
  {
    if |members| == capacity || free == {} then members
    else
      var x := Best(g, members, free);
      Cluster(g, members + [x], free - {x}, capacity)
  }

  function Elements(s: seq<nat>): set<nat> {
    set x | x in s
  }

  /** Blocks one after the other, each started by the lowest free object. */
  ghost function Blocks(g: Graph, free: set<nat>, capacity: nat): seq<seq<nat>>
    requires capacity >= 1
    decreases free
  {
    if free == {} then []
    else
      var c := FirstBlock(g, free, capacity);
      assert c[0] in Elements(c);
      [c] + Blocks(g, free - Elements(c), capacity)
  }

  ghost function FirstBlock(g: Graph, free: set<nat>, capacity: nat): (r: seq<nat>)
    requires capacity >= 1 && free != {}
    ensures 1 <= |r| <= capacity && r[0] == Least(free)
  {
    var rep := Least(free);
    var r := Cluster(g, [rep], free - {rep}, capacity);
    assert r[..1] == [rep];
    r
  }

  lemma BlocksStep(g: Graph, free: set<nat>, capacity: nat, rep: nat)
    requires capacity >= 1 && IsLeast(free, rep)
    ensures var c := Cluster(g, [rep], free - {rep}, capacity);
            c[0] == rep && Blocks(g, free, capacity) == [c] + Blocks(g, free - Elements(c), capacity)
  {
    assert rep == Least(free);
    assert FirstBlock(g, free, capacity)[0] == rep;
  }

  // ----- what the clustering guarantees -----

  lemma DistinctCount(s: seq<nat>)
    requires Distinct(s)
    ensures |Elements(s)| == |s|
  {
    if s == [] {
    } else {
      var t := s[..|s| - 1];
      assert s == t + [s[|s| - 1]];
      assert Elements(s) == Elements(t) + {s[|s| - 1]};
      DistinctCount(t);
    }
  }

  /** A cluster takes distinct free objects, stops only when it is full or has taken everything,
      and each object it adds is the best of those that are free at that moment. */
  lemma {:induction false} ClusterIsGreedy(g: Graph, members: seq<nat>, free: set<nat>, capacity: nat)
    requires members != [] && |members| <= capacity && Distinct(members) && Elements(members) !! free
    ensures var r := Cluster(g, members, free, capacity);
            && Distinct(r) && Elements(r) <= Elements(members) + free
            && (|r| == capacity || free <= Elements(r))
            && forall j {:trigger r[j]} :: |members| <= j < |r| ==> IsBest(g, r[..j], free - Elements(r[..j]), r[j])
    decreases capacity - |members|
  {
    if |members| == capacity || free == {} {
    } else {
      var x := Best(g, members, free);
      var more := members + [x];
      assert x in free;
      hide IsBest;
      assert Elements(more) == Elements(members) + {x};
      ClusterIsGreedy(g, more, free - {x}, capacity);
      FirstAndLater(g, members, x, free, Cluster(g, members, free, capacity));
    }
  }

  lemma FirstAndLater(g: Graph, members: seq<nat>, x: nat, free: set<nat>, r: seq<nat>)
    requires members != [] && Elements(members) !! free && IsBest(g, members, free, x)
    requires |r| > |members| && r[..|members| + 1] == members + [x]
    requires forall j {:trigger r[j]} :: |members| < j < |r| ==> IsBest(g, r[..j], free - {x} - Elements(r[..j]), r[j])
    ensures forall j {:trigger r[j]} :: |members| <= j < |r| ==> IsBest(g, r[..j], free - Elements(r[..j]), r[j])
  {
    hide IsBest;
    forall j {:trigger r[j]} | |members| <= j < |r| ensures IsBest(g, r[..j], free - Elements(r[..j]), r[j]) {
      if j == |members| {
        assert r[..j] == members && r[j] == x;
        assert free - Elements(members) == free;
      } else {
        assert r[..j][|members|] == x;
        assert free - {x} - Elements(r[..j]) == free - Elements(r[..j]);
      }
    }
  }

  /** All objects of the given blocks. */
  function Taken(bs: seq<seq<nat>>): set<nat> {
    if bs == [] then {} else Elements(bs[0]) + Taken(bs[1..])
  }

  lemma TakenHas(bs: seq<seq<nat>>, i: nat)
    requires i < |bs|
    ensures Elements(bs[i]) <= Taken(bs)
  {
    if i == 0 {
    } else {
      TakenHas(bs[1..], i - 1);
    }
  }

  lemma TakenFrom(bs: seq<seq<nat>>, x: nat) returns (i: nat)
    requires x in Taken(bs)
    ensures i < |bs| && x in bs[i]
  {
    if x in bs[0] {
      i := 0;
    } else {
      i := TakenFrom(bs[1..], x);
      i := i + 1;
    }
  }

  /** Every object is in exactly one block; no block exceeds the capacity, and only the last
      one may hold less. */
  ghost predicate IsPartition(bs: seq<seq<nat>>, objects: set<nat>, capacity: nat) {
    && Taken(bs) == objects
    && (forall i :: 0 <= i < |bs| ==> 1 <= |bs[i]| <= capacity && Distinct(bs[i]))
    && (forall i, j :: 0 <= i < j < |bs| ==> Elements(bs[i]) !! Elements(bs[j]))
    && (forall i :: 0 <= i < |bs| - 1 ==> |bs[i]| == capacity)
  }

  lemma {:induction false} BlocksPartition(g: Graph, free: set<nat>, capacity: nat)
    requires capacity >= 1
    ensures IsPartition(Blocks(g, free, capacity), free, capacity)
    decreases free
  {
    if free == {} {
    } else {
      hide FirstBlock, IsPartition;
      var c := FirstBlock(g, free, capacity);
      FirstBlockIsGreedy(g, free, capacity);
      assert c[0] in Elements(c);
      BlocksPartition(g, free - Elements(c), capacity);
      OneBlockMore(c, Blocks(g, free - Elements(c), capacity), free, capacity);
    }
  }

  lemma OneBlockMore(c: seq<nat>, rest: seq<seq<nat>>, free: set<nat>, capacity: nat)
    requires 1 <= |c| <= capacity && Distinct(c) && Elements(c) <= free && (|c| == capacity || Elements(c) == free)
    requires IsPartition(rest, free - Elements(c), capacity)
    ensures IsPartition([c] + rest, free, capacity)
  {
    var bs := [c] + rest;
    assert bs[1..] == rest;
    forall i, j | 0 <= i < j < |bs| ensures Elements(bs[i]) !! Elements(bs[j]) {
      TakenHas(rest, j - 1);
    }
    if rest != [] {
      assert rest[0][0] in Elements(rest[0]);
      TakenHas(rest, 0);
    }
  }

  lemma FirstBlockIsGreedy(g: Graph, free: set<nat>, capacity: nat)
    requires capacity >= 1 && free != {}
    ensures var c := FirstBlock(g, free, capacity);
            && Distinct(c) && Elements(c) <= free && (|c| == capacity || free == Elements(c))
            && IsLeast(free, c[0])
            && forall j {:trigger c[j]} :: 1 <= j < |c| ==> IsBest(g, c[..j], free - Elements(c[..j]), c[j])
  {
    var rep := Least(free);
    ClusterIsGreedy(g, [rep], free - {rep}, capacity);
    var c := FirstBlock(g, free, capacity);
    assert Elements([rep]) == {rep};
    forall j {:trigger c[j]} | 1 <= j < |c| ensures IsBest(g, c[..j], free - Elements(c[..j]), c[j]) {
      assert c[..j][0] == rep;
      assert free - {rep} - Elements(c[..j]) == free - Elements(c[..j]);
    }
  }

  function CeilDiv(n: nat, k: nat): nat
    requires k >= 1
  {
    (n + k - 1) / k
  }

  /** Exactly as many blocks as the objects need: ceil(n / capacity). */
  lemma {:induction false} BlocksCount(g: Graph, free: set<nat>, capacity: nat)
    requires capacity >= 1
    ensures |Blocks(g, free, capacity)| == CeilDiv(|free|, capacity)
    decreases free
  {
    hide CeilDiv, FirstBlock, Elements;
    DivSmall(0, capacity);
    if free == {} {
    } else {
      var c := FirstBlock(g, free, capacity);
      var rest := free - Elements(c);
      FirstBlockCount(g, free, capacity);
      BlocksCount(g, rest, capacity);
      if |c| == capacity {
        DivStep(|rest|, capacity);
      } else {
        DivSmall(|c|, capacity);
      }
    }
  }

  lemma FirstBlockCount(g: Graph, free: set<nat>, capacity: nat)
    requires capacity >= 1 && free != {}
    ensures var c := FirstBlock(g, free, capacity);
            var rest := free - Elements(c);
            |free| == |rest| + |c| && 1 <= |c| <= capacity && (|c| < capacity ==> rest == {}) && rest < free
  {
    hide FirstBlock, Distinct;
    var c := FirstBlock(g, free, capacity);
    FirstBlockIsGreedy(g, free, capacity);
    DistinctCount(c);
    assert c[0] in Elements(c);
    assert free == (free - Elements(c)) + Elements(c);
  }

  lemma DivStep(n: nat, k: nat)
    requires k >= 1
    ensures CeilDiv(n + k, k) == CeilDiv(n, k) + 1
  {
    DivPlus(n + k - 1, k);
  }

  lemma DivPlus(a: nat, k: nat)
    requires k >= 1
    ensures (a + k) / k == a / k + 1
  {
    var q, r := a / k, a % k;
    assert a == q * k + r;
    assert a + k == (q + 1) * k + r by { assert (q + 1) * k == q * k + k; }
    DivIs(a + k, k, q + 1, r);
  }

  lemma TimesMore(a: nat, b: nat, k: nat)
    requires a <= b
    ensures a * k <= b * k
  {
  }

  lemma DivIs(a: nat, k: nat, q: nat, r: nat)
    requires k >= 1 && r < k && a == q * k + r
    ensures a / k == q
  {
    var p := a / k;
    assert a == p * k + a % k;
    if p < q { TimesMore(p + 1, q, k); }
    if q < p { TimesMore(q + 1, p, k); }
  }

  lemma DivSmall(n: nat, k: nat)
    requires k >= 1 && n <= k
    ensures CeilDiv(n, k) == if n == 0 then 0 else 1
  {
    DivIs(n + k - 1, k, if n == 0 then 0 else 1, if n == 0 then k - 1 else n - 1);
  }

  lemma {:induction false} EachIsBest(g: Graph, free: set<nat>, capacity: nat, i: nat)
    requires capacity >= 1 && i < |Blocks(g, free, capacity)|
    ensures var bs := Blocks(g, free, capacity);
            var left := free - Taken(bs[..i]);
            && bs[i] != [] && IsLeast(left, bs[i][0])
            && forall j {:trigger bs[i][j]} :: 1 <= j < |bs[i]| ==> IsBest(g, bs[i][..j], left - Elements(bs[i][..j]), bs[i][j])
    decreases free
  {
    var c := FirstBlock(g, free, capacity);
    var rest := free - Elements(c);
    var bs := Blocks(g, free, capacity);
    FirstBlockIsGreedy(g, free, capacity);
    assert c[0] in Elements(c);
    if i == 0 {
      assert free - Taken(bs[..0]) == free;
    } else {
      EachIsBest(g, rest, capacity, i - 1);
      assert bs[..i][1..] == bs[1..][..i - 1];
      assert free - Taken(bs[..i]) == rest - Taken(bs[1..][..i - 1]);
    }
  }

  // ----- the clustering in terms of the costs alone -----

  /** Some member of the block is at least as cheap to x as any member is to y, and if it is just
      as cheap then x is the lower id. */
  ghost predicate Closest(g: Graph, members: seq<nat>, x: nat, y: nat) {
    exists m :: 0 <= m < |members| && ReachesFirst(g, members, m, x, y)
  }

  ghost predicate ReachesFirst(g: Graph, members: seq<nat>, m: nat, x: nat, y: nat)
    requires m < |members|
  {
    forall n :: 0 <= n < |members| ==>
      || Cost(g, members[m], x) < Cost(g, members[n], y)
      || (Cost(g, members[m], x) == Cost(g, members[n], y) && x <= y)
  }

  /** The linkage cost is a lower bound of the costs from the members, and one of them. */
  lemma {:induction false} LinkageIsLeast(g: Graph, members: seq<nat>, x: nat) returns (m: nat)
    requires members != []
    ensures forall n :: 0 <= n < |members| ==> Linkage(g, members, x) <= Cost(g, members[n], x)
    ensures m < |members| && Linkage(g, members, x) == Cost(g, members[m], x)
  {
    hide Cost;
    var last := |members| - 1;
    if last == 0 {
      m := 0;
    } else {
      m := LinkageIsLeast(g, members[..last], x);
      assert forall n :: 0 <= n < last ==> members[..last][n] == members[n];
      if Cost(g, members[last], x) < Cost(g, members[m], x) { m := last; }
    }
  }

  lemma BestIsClosest(g: Graph, members: seq<nat>, free: set<nat>, x: nat, y: nat)
    requires members != [] && IsBest(g, members, free, x) && y in free
    ensures Closest(g, members, x, y)
  {
    hide Cost, Linkage;
    var m := LinkageIsLeast(g, members, x);
    var n := LinkageIsLeast(g, members, y);
    assert ReachesFirst(g, members, m, x, y);
  }

  /** A cost that is not listed is no cost: where one is missing the linkage cost is 0. */
  lemma MissingCostIsFree(g: Graph, members: seq<nat>, x: nat, n: nat)
    requires n < |members| && (members[n] in g ==> x !in g[members[n]])
    ensures Linkage(g, members, x) == 0
  {
    var m := LinkageIsLeast(g, members, x);
  }

  /** Throughout the clustering each object is chosen greedily: a block starts with the lowest object
      that no earlier block has, and every further object is closest to the block, by single linkage
      and then by id, among all objects that are in no block so far. */
  lemma BlocksAreGreedy(g: Graph, free: set<nat>, capacity: nat, i: nat, j: nat, y: nat)
    requires capacity >= 1 && i < |Blocks(g, free, capacity)| && j < |Blocks(g, free, capacity)[i]|
    requires var bs := Blocks(g, free, capacity);
             y in free && (forall h :: 0 <= h < i ==> y !in bs[h]) && y !in bs[i][..j]
    ensures var c := Blocks(g, free, capacity)[i];
            if j == 0 then c[0] <= y else Closest(g, c[..j], c[j], y)
  {
    hide Blocks, IsBest, Closest, Taken;
    var bs := Blocks(g, free, capacity);
    var left := free - Taken(bs[..i]);
    EachIsBest(g, free, capacity, i);
    if y in Taken(bs[..i]) {
      var h := TakenFrom(bs[..i], y);
    }
    assert y in left;
    if j == 0 {
      assert IsLeast(left, bs[i][0]);
    } else {
      BestIsClosest(g, bs[i][..j], left - Elements(bs[i][..j]), bs[i][j], y);
    }
  }
}
