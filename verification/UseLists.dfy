/** Use lists: the uses of a value form an intrusive doubly linked list whose back
    links point at pointer slots, either a value's head or another use's `Next`. */
module UseLists {
  import opened Sequences

  // ----- what the lists should be, as sequences -----

  function Without<U(==)>(s: seq<U>, u: U): (r: seq<U>)
    ensures u !in r
    ensures forall i :: 0 <= i < |r| ==> r[i] in s
    ensures forall i :: 0 <= i < |s| && s[i] != u ==> s[i] in r
  {
    if s == [] then []
    else if s[0] == u then Without(s[1..], u)
    else [s[0]] + Without(s[1..], u)
  }

  lemma {:induction false} WithoutAt<U>(s: seq<U>, i: nat)
    requires i < |s| && Distinct(s)
    ensures Without(s, s[i]) == s[..i] + s[i + 1..]
  {
    if i == 0 {
      WithoutAbsent(s[1..], s[0]);
    } else {
      WithoutAt(s[1..], i - 1);
      assert [s[0]] + (s[1..][..i - 1] + s[1..][i..]) == s[..i] + s[i + 1..];
    }
  }

  lemma WithoutAbsent<U>(s: seq<U>, u: U)
    requires u !in s
    ensures Without(s, u) == s
  {
  }

  lemma WithoutDistinct<U>(s: seq<U>, u: U)
    requires Distinct(s)
    ensures Distinct(Without(s, u))
  {
    if u in s {
      var i :| 0 <= i < |s| && s[i] == u;
      WithoutAt(s, i);
    } else {
      WithoutAbsent(s, u);
    }
  }

  /** A value's list after use u has been set: u leaves it, and enters at the front if it
      was set to this value. */
  function Relinked<U(==)>(s: seq<U>, u: U, here: bool): seq<U> {
    (if here then [u] else []) + Without(s, u)
  }

  ghost predicate RelinkedMembers<U>(s: seq<U>, u: U, here: bool) {
    && (forall x :: x in Relinked(s, u, here) ==> if x == u then here else x in s)
    && (forall x :: x in s && x != u ==> x in Relinked(s, u, here))
    && (here ==> u in Relinked(s, u, here))
  }

  lemma IsRelinked<U>(s: seq<U>, u: U, here: bool)
    ensures Relinked(s, u, here) == if here then [u] + Without(s, u) else Without(s, u)
    ensures RelinkedMembers(s, u, here)
  {
    hide Without;
  }

  /** The list s without any of `gone`, taken away one after the other. */
  function WithoutAll<U(==)>(s: seq<U>, gone: seq<U>): (r: seq<U>)
  {
    if gone == [] then s else Without(WithoutAll(s, gone[..|gone| - 1]), gone[|gone| - 1])
  }

  lemma WithoutNone<U>(s: seq<U>)
    ensures WithoutAll(s, []) == s
  {
  }

  lemma InFront<U>(gone: seq<U>, i: nat)
    requires i < |gone|
    ensures forall u :: u in gone[..i + 1] <==> u in gone[..i] || u == gone[i]
  {
  }

  lemma WithoutOneMore<U>(s: seq<U>, gone: seq<U>, i: nat)
    requires i < |gone|
    ensures WithoutAll(s, gone[..i + 1]) == Without(WithoutAll(s, gone[..i]), gone[i])
         == Relinked(WithoutAll(s, gone[..i]), gone[i], false)
  {
    hide Without;
    assert gone[..i + 1][..i] == gone[..i];
  }

  // ----- runs of assignments -----

  datatype Target<V> = Nowhere | To(value: V)

  /** One assignment of a use. */
  datatype Assignment<U, V> = Assignment(use: U, target: Target<V>)

  /** v's list after a history of assignments, starting from no uses at all. */
  function ListAfter<U(==), V(==)>(h: seq<Assignment<U, V>>, v: V): seq<U> {
    if h == [] then []
    else
      var a := h[|h| - 1];
      Relinked(ListAfter(h[..|h| - 1], v), a.use, a.target == To(v))
  }

  lemma NoHistory<U, V>(v: V)
    ensures ListAfter<U, V>([], v) == []
  {
  }

  lemma ListAfterOneMore<U, V>(h: seq<Assignment<U, V>>, i: nat, v: V)
    requires i < |h|
    ensures ListAfter(h[..i + 1], v) == Relinked(ListAfter(h[..i], v), h[i].use, h[i].target == To(v))
  {
    hide Relinked;
    assert h[..i + 1][..i] == h[..i];
  }

  /** Where a use points after a history: where it was last set to. */
  function TargetAfter<U(==), V>(h: seq<Assignment<U, V>>, u: U): Target<V> {
    if h == [] then Nowhere
    else if h[|h| - 1].use == u then h[|h| - 1].target
    else TargetAfter(h[..|h| - 1], u)
  }

  /** The uses that point at v after a history, most recently set first, leaving out those in `later`. */
  function LatestFirst<U(==), V(==)>(h: seq<Assignment<U, V>>, v: V, later: set<U>): seq<U> {
    if h == [] then []
    else
      var a := h[|h| - 1];
      var earlier := LatestFirst(h[..|h| - 1], v, later + {a.use});
      if a.use !in later && a.target == To(v) then [a.use] + earlier else earlier
  }

  function Outside<U(==)>(s: seq<U>, gone: set<U>): seq<U> {
    if s == [] then []
    else if s[0] in gone then Outside(s[1..], gone)
    else [s[0]] + Outside(s[1..], gone)
  }

  lemma OutsideWithout<U>(s: seq<U>, u: U, gone: set<U>)
    ensures Outside(Without(s, u), gone) == Outside(s, gone + {u})
  {
  }

  lemma OutsideNone<U>(s: seq<U>)
    ensures Outside(s, {}) == s
  {
  }

  lemma {:induction false} ListAfterOutside<U, V>(h: seq<Assignment<U, V>>, v: V, later: set<U>)
    ensures Outside(ListAfter(h, v), later) == LatestFirst(h, v, later)
  {
    if h == [] {
    } else {
      var a := h[|h| - 1];
      var before := ListAfter(h[..|h| - 1], v);
      ListAfterOutside(h[..|h| - 1], v, later + {a.use});
      OutsideWithout(before, a.use, later);
      if a.target == To(v) {
        assert ([a.use] + Without(before, a.use))[1..] == Without(before, a.use);
      } else {
        assert [] + Without(before, a.use) == Without(before, a.use);
      }
    }
  }

  lemma {:induction false} ListAfterMembers<U, V>(h: seq<Assignment<U, V>>, v: V, u: U)
    ensures u in ListAfter(h, v) <==> TargetAfter(h, u) == To(v)
    ensures Distinct(ListAfter(h, v))
  {
    if h == [] {
    } else {
      var a := h[|h| - 1];
      var before := ListAfter(h[..|h| - 1], v);
      ListAfterMembers(h[..|h| - 1], v, u);
      WithoutDistinct(before, a.use);
    }
  }

  /** After any history of assignments a value's list holds exactly the uses last set to it,
      each once, the most recently set first. */
  lemma ListAfterAnyHistory<U, V>(h: seq<Assignment<U, V>>, v: V)
    ensures ListAfter(h, v) == LatestFirst(h, v, {}) && Distinct(ListAfter(h, v))
    ensures forall i :: 0 <= i < |h| ==> (h[i].use in ListAfter(h, v) <==> TargetAfter(h, h[i].use) == To(v))
  {
    ListAfterOutside(h, v, {});
    OutsideNone(ListAfter(h, v));
    forall i | 0 <= i < |h| ensures h[i].use in ListAfter(h, v) <==> TargetAfter(h, h[i].use) == To(v) {
      ListAfterMembers(h, v, h[i].use);
    }
    if h != [] { ListAfterMembers(h, v, h[0].use); }
  }

  /** Dropping uses one after the other leaves exactly the others, in their order. */
  lemma {:induction false} WithoutAllKeepsOrder<U>(s: seq<U>, gone: seq<U>)
    ensures WithoutAll(s, gone) == Outside(s, set u | u in gone)
  {
    if gone == [] {
      OutsideNone(s);
      assert (set u | u in gone) == {};
    } else {
      var front, u := gone[..|gone| - 1], gone[|gone| - 1];
      WithoutAllKeepsOrder(s, front);
      WithoutOutside(s, u, set x | x in front);
      assert gone == front + [u];
      assert (set x | x in gone) == (set x | x in front) + {u};
    }
  }

  lemma WithoutOutside<U>(s: seq<U>, u: U, gone: set<U>)
    ensures Without(Outside(s, gone), u) == Outside(s, gone + {u})
  {
  }

  // ----- pointers -----

  /** A pointer to a slot that holds a use pointer. */
  datatype Slot = NullSlot | HeadOf(value: Value) | NextOf(use: Use)

  /** The use at position i of a list, null past its end. */
  function UseAt(s: seq<Use>, i: nat): (u: Use?)
    ensures i < |s| ==> u != null
  {
    if i < |s| then s[i] else null
  }

  /** The slot that points at position i of v's list. */
  function SlotAt(v: Value, s: seq<Use>, i: nat): Slot
    requires i <= |s|
  {
    if i == 0 then HeadOf(v) else NextOf(s[i - 1])
  }

  /** The links of the use at position i, in a list s of v. */
  ghost predicate LinkedAt(v: Value, s: seq<Use>, i: nat)
    requires i < |s|
    reads s[i]
  {
    s[i].Val == v && s[i].Next == UseAt(s, i + 1) && s[i].Prev == SlotAt(v, s, i)
  }

  class Value {
    var UseList: Use?
    // the uses in list order
    ghost var Uses: seq<Use>

    constructor ()
      ensures UseList == null && Uses == [] && Valid()
    {
      UseList, Uses := null, [];
    }

    /** The links of this value's list, forwards through `Next` and backwards through `Prev`. */
    ghost predicate Valid()
      reads this, Uses
    {
      && Distinct(Uses)
      && UseList == UseAt(Uses, 0)
      && forall i: nat :: i < |Uses| ==> LinkedAt(this, Uses, i)
    }

    method UseEmpty() returns (r: bool)
      requires Valid()
      ensures r <==> Uses == []
    {
      r := UseList == null;
    }

    method HasOneUse() returns (r: bool)
      requires Valid()
      ensures r <==> |Uses| == 1
    {
      assert |Uses| > 0 ==> LinkedAt(this, Uses, 0);
      var i := UseList;
      if i == null { return false; }
      return i.Next == null;
    }

    /** Iterating from the head through `Next` meets every use once, in order, and ends. */
    method Walk() returns (met: seq<Use>)
      requires Valid()
      ensures met == Uses
    {
      met := [];
      var u := UseList;
      while u != null
        invariant |met| <= |Uses| && met == Uses[..|met|]
        invariant u == UseAt(Uses, |met|)
        decreases |Uses| - |met|
      {
        assert LinkedAt(this, Uses, |met|);
        met := met + [u];
        u := u.Next;
      }
    }
  }

  class Use {
    var Val: Value?
    var Next: Use?
    var Prev: Slot

    constructor ()
      ensures Val == null
    {
      Val, Next, Prev := null, null, NullSlot;
    }

    method AddToList(v: Value)
      requires v.Valid() && this !in v.Uses && Val == v
      modifies this`Next, this`Prev, v`UseList, v`Uses, v.Uses`Prev
      ensures v.Valid() && v.Uses == [this] + old(v.Uses)
    {
      ghost var s := v.Uses;
      if |s| > 0 { assert LinkedAt(v, s, 0); }
      Next := v.UseList;
      if Next != null { Next.Prev := NextOf(this); }
      Prev := HeadOf(v);
      v.UseList := this;
      v.Uses := [this] + s;
      forall i: nat | i < |v.Uses| ensures LinkedAt(v, v.Uses, i) {
        if i > 0 {
          assert old(LinkedAt(v, s, i - 1));
        }
      }
    }

    /** Position j of s after the links have been closed over position k. */
    static ghost predicate LinkedOver(v: Value, s: seq<Use>, k: nat, j: nat)
      requires k < |s| && j < |s|
      reads s[j]
    {
      && s[j].Val == v
      && s[j].Next == UseAt(s, if j + 1 == k then k + 1 else j + 1)
      && s[j].Prev == SlotAt(v, s, if j == k + 1 then k else j)
    }

    /** Positions and slots of the list without position k, in terms of the whole list. */
    static lemma Over(v: Value, s: seq<Use>, t: seq<Use>, k: nat, i: nat)
      requires k < |s| && t == s[..k] + s[k + 1..] && i < |t|
      ensures var j := if i < k then i else i + 1;
              && t[i] == s[j]
              && UseAt(t, i + 1) == UseAt(s, if j + 1 == k then k + 1 else j + 1)
              && SlotAt(v, t, i) == SlotAt(v, s, if j == k + 1 then k else j)
    {
    }

    static lemma Closed(v: Value, s: seq<Use>, k: nat)
      requires k < |s| && Distinct(s) && v.Uses == Without(s, s[k])
      requires v.UseList == if k == 0 then UseAt(s, 1) else s[0]
      requires forall j: nat :: j < |s| && j != k ==> LinkedOver(v, s, k, j)
      ensures v.Valid()
    {
      hide Distinct, Without, UseAt, SlotAt;
      WithoutDistinct(s, s[k]);
      WithoutAt(s, k);
      var t := v.Uses;
      forall i: nat | i < |t| ensures LinkedAt(v, t, i) {
        Over(v, s, t, k, i);
        assert LinkedOver(v, s, k, if i < k then i else i + 1);
      }
      FirstOver(s, t, k);
    }

    static lemma FirstOver(s: seq<Use>, t: seq<Use>, k: nat)
      requires k < |s| && t == s[..k] + s[k + 1..]
      ensures UseAt(t, 0) == if k == 0 then UseAt(s, 1) else s[0]
    {
    }

    method RemoveFromList()
      requires Val != null && Val.Valid() && this in Val.Uses
      modifies Val`UseList, Val`Uses, Val.Uses`Next, Val.Uses`Prev
      ensures Val.Valid() && Val.Uses == Without(old(Val.Uses), this)
    {
      hide Without;
      ghost var v, s := Val, Val.Uses;
      ghost var k: nat :| k < |s| && s[k] == this;
      assert LinkedAt(v, s, k);
      match Prev {
        case HeadOf(value) => value.UseList := Next;
        case NextOf(use) => use.Next := Next;
        case NullSlot => assert false;
      }
      if Next != null { Next.Prev := Prev; }
      v.Uses := Without(s, this);
      forall j: nat | j < |s| && j != k ensures LinkedOver(v, s, k, j) {
        assert old(LinkedAt(v, s, j));
        assert s[j] != s[k];
        assert k > 0 && j != k - 1 ==> s[j] != s[k - 1];
        assert k + 1 < |s| && j != k + 1 ==> s[j] != s[k + 1];
      }
      Closed(v, s, k);
    }

    /** Points this use at another value (or at none). Every list keeps its other uses in order. */
    method Set(v: Value?, ghost values: set<Value>, ghost uses: set<Use>)
      requires Linked(values, uses) && this in uses && (v != null ==> v in values)
      modifies this`Val, values, uses`Next, uses`Prev
      ensures Linked(values, uses) && Val == v
      ensures forall w :: w in values ==> w.Uses == Relinked(old(w.Uses), this, w == v)
    {
      hide Without, Distinct, Value.Valid, Relinked, RelinkedMembers;
      ghost var was := map w | w in values :: w.Uses;
      if Val != null { Detach(values, uses); } else { NotElsewhere(values, uses); }
      Val := v;
      assert forall w :: w in values ==> w.Uses == Without(old(w.Uses), this) && w.Valid();
      if v != null { Attach(v, values, uses); }
      forall w | w in values
        ensures w.Uses == Relinked(old(w.Uses), this, w == v) && RelinkedMembers(old(w.Uses), this, w == v)
      {
        IsRelinked(old(w.Uses), this, w == v);
      }
      StillLinked(values, uses, was);
    }

    lemma StillLinked(values: set<Value>, uses: set<Use>, was: map<Value, seq<Use>>)
      requires this in uses && was.Keys == values && (Val != null ==> Val in values)
      requires forall w :: w in values ==>
        w.Valid() && w.Uses == Relinked(was[w], this, w == Val) && RelinkedMembers(was[w], this, w == Val)
      requires forall w, i :: w in values && 0 <= i < |was[w]| ==> was[w][i] in uses
      requires forall u :: u in uses && u != this && u.Val != null ==> u.Val in values && u in was[u.Val]
      ensures Linked(values, uses)
    {
      hide Relinked, Value.Valid;
      forall w | w in values ensures forall i :: 0 <= i < |w.Uses| ==> w.Uses[i] in uses {
        forall i | 0 <= i < |w.Uses| ensures w.Uses[i] in uses {
          assert w.Uses[i] in Relinked(was[w], this, w == Val);
        }
      }
    }

    /** Takes this use out of its value's list. */
    method Detach(ghost values: set<Value>, ghost uses: set<Use>)
      requires Linked(values, uses) && this in uses && Val != null
      modifies values, uses`Next, uses`Prev
      ensures forall w :: w in values ==> w.Valid() && w.Uses == Without(old(w.Uses), this)
    {
      hide Without, Distinct;
      NotElsewhere(values, uses);
      ApartFrom(Val, values);
      RemoveFromList();
    }

    /** Puts this use in front of v's list. */
    method Attach(v: Value, ghost values: set<Value>, ghost uses: set<Use>)
      requires v in values && Val == v && this in uses
      requires forall w :: w in values ==> w.Valid() && this !in w.Uses && forall i :: 0 <= i < |w.Uses| ==> w.Uses[i] in uses
      modifies values, uses`Next, uses`Prev
      ensures forall w :: w in values ==> w.Valid() && w.Uses == if w == v then [this] + old(w.Uses) else old(w.Uses)
    {
      hide Distinct;
      ApartFrom(v, values);
      AddToList(v);
      forall w | w in values && w != v ensures w.Valid() && w.Uses == old(w.Uses) {
        assert old(w.Valid());
        forall i: nat | i < |w.Uses| ensures LinkedAt(w, w.Uses, i) {
          assert old(LinkedAt(w, w.Uses, i));
          assert w.Uses[i] != this && w.Uses[i] !in old(v.Uses);
        }
      }
    }

    /** The lists of different values share no use. */
    static lemma ApartFrom(v: Value, values: set<Value>)
      requires v in values && forall w :: w in values ==> w.Valid()
      ensures forall w, u :: w in values && w != v && u in w.Uses ==> u !in v.Uses
    {
      hide Value.Valid;
      forall w | w in values ensures forall u :: u in w.Uses ==> u.Val == w {
        OwnUses(w);
      }
    }

    static lemma OwnUses(w: Value)
      requires w.Valid()
      ensures forall u :: u in w.Uses ==> u.Val == w
    {
      forall i: nat | i < |w.Uses| ensures w.Uses[i].Val == w {
        assert LinkedAt(w, w.Uses, i);
      }
    }

    /** A use appears in no list but its value's own. */
    lemma NotElsewhere(values: set<Value>, uses: set<Use>)
      requires Linked(values, uses)
      ensures forall w :: w in values && w != Val ==> this !in w.Uses && Without(w.Uses, this) == w.Uses
    {
      hide Value.Valid;
      forall w | w in values && w != Val ensures this !in w.Uses && Without(w.Uses, this) == w.Uses {
        OwnUses(w);
        WithoutAbsent(w.Uses, this);
      }
    }
  }

  /** An instruction or constant that uses other values through its operands. */
  class User {
    const OperandList: seq<Use>

    constructor (operands: seq<Use>)
      ensures OperandList == operands
    {
      OperandList := operands;
    }

    method SetOperand(i: nat, v: Value?, ghost values: set<Value>, ghost uses: set<Use>)
      requires i < |OperandList| && OperandList[i] in uses
      requires Linked(values, uses) && (v != null ==> v in values)
      modifies values, uses
      ensures Linked(values, uses)
      ensures forall u :: u in uses ==> u.Val == if u == OperandList[i] then v else old(u.Val)
      ensures forall w :: w in values ==> w.Uses == Relinked(old(w.Uses), OperandList[i], w == v)
    {
      OperandList[i].Set(v, values, uses);
    }

    /** Lets go of every value this user refers to. All other uses stay, in order. */
    method DropAllReferences(ghost values: set<Value>, ghost uses: set<Use>)
      requires Linked(values, uses) && forall i :: 0 <= i < |OperandList| ==> OperandList[i] in uses
      modifies values, uses
      ensures Linked(values, uses)
      ensures forall u :: u in uses ==> u.Val == if u in OperandList then null else old(u.Val)
      ensures forall w :: w in values ==> w.Uses == WithoutAll(old(w.Uses), OperandList)
    {
      hide Linked, Without, WithoutAll, Relinked;
      forall w | w in values { WithoutNone(w.Uses); }
      assert OperandList[..0] == [];
      var i := 0;
      while i != |OperandList|
        invariant 0 <= i <= |OperandList|
        invariant Linked(values, uses)
        invariant forall u :: u in uses ==> u.Val == if u in OperandList[..i] then null else old(u.Val)
        invariant forall w :: w in values ==> w.Uses == WithoutAll(old(w.Uses), OperandList[..i])
        decreases |OperandList| - i
      {
        forall w | w in values
          ensures WithoutAll(old(w.Uses), OperandList[..i + 1]) == Relinked(WithoutAll(old(w.Uses), OperandList[..i]), OperandList[i], false)
        {
          WithoutOneMore(old(w.Uses), OperandList, i);
        }
        InFront(OperandList, i);
        OperandList[i].Set(null, values, uses);
        assert forall w :: w in values ==> w.Uses == Relinked(WithoutAll(old(w.Uses), OperandList[..i]), OperandList[i], false);
        i := i + 1;
      }
      assert OperandList[..i] == OperandList;
    }
  }

  /** Any sequence of assignments to uses that start out pointing nowhere. */
  method SetEach(h: seq<Assignment<Use, Value>>, ghost values: set<Value>, ghost uses: set<Use>)
    requires Linked(values, uses) && forall w :: w in values ==> w.Uses == []
    requires forall i :: 0 <= i < |h| ==> h[i].use in uses && (h[i].target.To? ==> h[i].target.value in values)
    modifies values, uses
    ensures Linked(values, uses)
    ensures forall w :: w in values ==> w.Uses == ListAfter(h, w)
  {
    hide Linked, Relinked, ListAfter;
    assert h[..0] == [];
    forall w | w in values { NoHistory<Use, Value>(w); }
    var i := 0;
    while i < |h|
      invariant 0 <= i <= |h| && Linked(values, uses)
      invariant forall w :: w in values ==> w.Uses == ListAfter(h[..i], w)
    {
      forall w | w in values { ListAfterOneMore(h, i, w); }
      h[i].use.Set(if h[i].target.To? then h[i].target.value else null, values, uses);
      i := i + 1;
    }
    assert h[..i] == h;
  }

  /** Every value's list is well linked, and holds exactly the uses that point at the value. */
  ghost predicate Linked(values: set<Value>, uses: set<Use>)
    reads values, uses
  {
    && (forall v :: v in values ==> (forall i :: 0 <= i < |v.Uses| ==> v.Uses[i] in uses) && v.Valid())
    && (forall u :: u in uses && u.Val != null ==> u.Val in values && u in u.Val.Uses)
  }
}
