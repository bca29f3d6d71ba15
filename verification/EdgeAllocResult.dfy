/** What the edge-driven allocation comes to when no edge can be chosen any more. */
module EdgeAllocResult {
  import opened Sequences
  import opened AllocSpec
  import opened Allocate
  import opened EdgeAllocSpec

  // ----- what is reached when no edge can be chosen -----

  ghost predicate Exhausted(s: Stage) {
    forall x, y :: !s.Usable(x, y)
  }

  /** At the end a block in use is full if anything is left over, and no block has room for two
      if two objects are. */
  lemma NothingLeftToDo(s: Stage)
    requires s.Ok() && Exhausted(s)
    ensures s.Free() != {} ==> forall i :: 0 <= i < |s.bs| && s.bs[i] != [] ==> |s.bs[i]| == s.capacity
    ensures |s.Free()| >= 2 ==> s.NoRoom()
  {
    hide Row, Taken, Distinct, Elements;
    if x :| x in s.Free() {
      forall i | 0 <= i < |s.bs| && s.bs[i] != [] ensures |s.bs[i]| == s.capacity {
        UsedIsFull(s, x, i);
      }
      if |s.Free()| >= 2 {
        var rest := s.Free() - {x};
        assert |s.Free()| == |rest| + 1 by { assert s.Free() == rest + {x}; }
        var y :| y in rest;
        NotFull(s, x);
        NotFull(s, y);
        FreeIsNoHead(s, x);
        assert !s.Usable(x, y);
        assert s.Dead(x, y);
      }
    }
  }

  lemma UsedIsFull(s: Stage, x: nat, i: nat)
    requires s.Ok() && Exhausted(s) && x in s.Free() && i < |s.bs| && s.bs[i] != []
    ensures |s.bs[i]| == s.capacity
  {
    hide Row, Taken, Distinct, Elements;
    var h := s.bs[i][0];
    assert HeadsBlock(s.bs, i, h);
    HeadIs(s.bs, h);
    FreeIsNoHead(s, x);
    NotFull(s, x);
    assert !s.Usable(x, h);
    assert s.FullHead(h);
    var j :| HeadsBlock(s.bs, j, h) && |s.bs[j]| == s.capacity;
    OneBlock(s, i, j, h);
  }

  lemma SmallBlocksStayEmpty(s: Stage)
    requires s.Ok() && s.capacity < 2
    ensures Taken(s.bs) == {}
  {
    NothingTaken(s.bs);
  }

  lemma {:induction false} NothingTaken(bs: seq<seq<nat>>)
    requires forall i :: 0 <= i < |bs| ==> bs[i] == []
    ensures Taken(bs) == {} == Heads(bs)
  {
    if bs == [] {
    } else {
      NothingTaken(bs[1..]);
    }
  }

  // ----- how many objects are placed -----

  /** The objects that k blocks can hold. */
  function Room(k: nat, capacity: nat): nat {
    k * capacity
  }

  function Total(bs: seq<seq<nat>>): nat {
    if bs == [] then 0 else |bs[0]| + Total(bs[1..])
  }

  lemma {:induction false} TakenCount(bs: seq<seq<nat>>)
    requires forall i :: 0 <= i < |bs| ==> Distinct(bs[i])
    requires forall i, j :: 0 <= i < j < |bs| ==> Elements(bs[i]) !! Elements(bs[j])
    ensures |Taken(bs)| == Total(bs)
  {
    if bs == [] {
    } else {
      hide Distinct, Elements;
      TakenCount(bs[1..]);
      DistinctCount(bs[0]);
      Apart(bs, bs[1..]);
      assert |Elements(bs[0]) + Taken(bs[1..])| == |Elements(bs[0])| + |Taken(bs[1..])|;
    }
  }

  lemma {:induction false} Apart(bs: seq<seq<nat>>, tail: seq<seq<nat>>)
    requires bs != [] && |tail| < |bs| && tail == bs[|bs| - |tail|..]
    requires forall i, j :: 0 <= i < j < |bs| ==> Elements(bs[i]) !! Elements(bs[j])
    ensures Elements(bs[0]) !! Taken(tail)
  {
    hide Elements;
    if tail == [] {
    } else {
      Apart(bs, tail[1..]);
      assert tail[0] == bs[|bs| - |tail|];
    }
  }

  /** Blocks that hold `capacity` objects or none: u of them are in use. */
  lemma {:induction false} TotalOfFull(bs: seq<seq<nat>>, capacity: nat) returns (u: nat)
    requires forall i :: 0 <= i < |bs| ==> bs[i] == [] || |bs[i]| == capacity
    ensures Total(bs) == u * capacity && u <= |bs|
    ensures u == |bs| ==> forall i :: 0 <= i < |bs| ==> |bs[i]| == capacity
  {
    if bs == [] {
      u := 0;
    } else {
      u := TotalOfFull(bs[1..], capacity);
      if bs[0] != [] {
        assert (u + 1) * capacity == u * capacity + capacity;
        u := u + 1;
      }
      forall i | 0 <= i < |bs| && u == |bs| ensures |bs[i]| == capacity {
        assert i > 0 ==> bs[i] == bs[1..][i - 1];
      }
    }
  }

  lemma {:induction false} TotalAtMost(bs: seq<seq<nat>>, capacity: nat)
    requires forall i :: 0 <= i < |bs| ==> |bs[i]| <= capacity
    ensures Total(bs) <= |bs| * capacity
    ensures Total(bs) == |bs| * capacity ==> forall i :: 0 <= i < |bs| ==> |bs[i]| == capacity
  {
    if bs == [] {
    } else {
      TotalAtMost(bs[1..], capacity);
      assert |bs| * capacity == |bs[1..]| * capacity + capacity;
      forall i | 0 <= i < |bs| && Total(bs) == |bs| * capacity ensures |bs[i]| == capacity {
        assert i > 0 ==> bs[i] == bs[1..][i - 1];
      }
    }
  }

  /** u used blocks of k cannot be fewer than k when all but one object of k * capacity or more are placed. */
  lemma AllUsed(k: nat, u: nat, capacity: nat)
    requires capacity >= 2 && u <= k && k * capacity <= u * capacity + 1
    ensures u == k
  {
    assert (u + 1) * capacity == u * capacity + capacity;
    if u < k { TimesMore(u + 1, k, capacity); }
  }

  /** With room for two or more in each block, and objects enough for all blocks, every block
      ends up full; only the objects beyond them are left out. */
  lemma EveryBlockIsFull(s: Stage)
    requires s.Ok() && Exhausted(s) && s.capacity >= 2 && Room(|s.bs|, s.capacity) <= |s.all|
    ensures forall i :: 0 <= i < |s.bs| ==> |s.bs[i]| == s.capacity
    ensures |s.Free()| == |s.all| - Room(|s.bs|, s.capacity)
  {
    hide Exhausted, Stage.TableOk, Stage.EdgesOk, Taken, Total, Distinct, Elements;
    NothingLeftToDo(s);
    TakenCount(s.bs);
    TotalAtMost(s.bs, s.capacity);
    assert |s.all| == |s.Free()| + |Taken(s.bs)| by { assert s.all == s.Free() + Taken(s.bs); }
    if |s.Free()| == 1 {
      var u := TotalOfFull(s.bs, s.capacity);
      AllUsed(|s.bs|, u, s.capacity);
    } else if s.Free() != {} {
      var u := TotalOfFull(s.bs, s.capacity);
      forall i | 0 <= i < |s.bs| ensures |s.bs[i]| == s.capacity {
        assert |s.bs[i]| + 1 >= s.capacity;
      }
      AllFullTotal(s.bs, s.capacity);
    }
  }

  lemma {:induction false} AllFullTotal(bs: seq<seq<nat>>, capacity: nat)
    requires forall i :: 0 <= i < |bs| ==> |bs[i]| == capacity
    ensures Total(bs) == |bs| * capacity
  {
    if bs == [] {
    } else {
      AllFullTotal(bs[1..], capacity);
      assert |bs| * capacity == |bs[1..]| * capacity + capacity;
    }
  }

  /** The number of blocks for n objects of four bytes. */
  function BlockCount(n: nat, blockSize: nat): nat
    requires blockSize >= 1
  {
    4 * n / blockSize
  }

  /** They are as many whole blocks as the objects fill. */
  lemma WholeBlocks(n: nat, blockSize: nat)
    requires blockSize >= 1
    ensures BlockCount(n, blockSize) * blockSize <= 4 * n < (BlockCount(n, blockSize) + 1) * blockSize
  {
    var q := 4 * n / blockSize;
    assert 4 * n == q * blockSize + 4 * n % blockSize;
    assert (q + 1) * blockSize == q * blockSize + blockSize;
  }

  /** As many blocks as the source creates never need more objects than there are. */
  lemma BlocksFit(n: nat, blockSize: nat)
    requires blockSize >= 1
    ensures Room(BlockCount(n, blockSize), blockSize / 4) <= n
  {
    var q, c := 4 * n / blockSize, blockSize / 4;
    assert q * blockSize <= 4 * n;
    TimesLess(q, 4 * c, blockSize);
    assert q * (4 * c) == 4 * (q * c);
  }

  lemma TimesLess(q: nat, a: nat, b: nat)
    requires a <= b
    ensures q * a <= q * b
  {
  }
}
