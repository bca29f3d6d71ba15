/** The personality function: encoded pointers, the action chain and the call-site table,
    read from a byte-addressed memory. Address 0 is the null pointer. */
module Personality {
  import opened Sequences
  import opened OrderedSets
  import opened Leb128

  type Memory = seq<Byte>

  // ----- fixed-size reads -----

  /** n bytes at p, least significant first. */
  function LittleEndian(mem: Memory, p: nat, n: nat): (v: nat)
    requires p + n <= |mem|
    decreases n
  {
    if n == 0 then 0 else mem[p] + 256 * LittleEndian(mem, p + 1, n - 1)
  }

  function Load(mem: Memory, p: nat, n: nat): Reading {
    if p + n <= |mem| then Defined(LittleEndian(mem, p, n), p + n) else Undefined
  }

  /** A number of `bits` bits, sign-extended to 64. */
  function SignExtend(v: nat, bits: nat): nat {
    if bits <= 64 && v < Pow2(bits) && v >= Pow2(bits) / 2 then
      PowBelow64(bits);
      TWO64 - Pow2(bits) + v
    else v
  }

  function Extended(r: Reading, bits: nat): Reading {
    if r.Defined? then Defined(SignExtend(r.value, bits), r.next) else Undefined
  }

  // ----- encoded pointers -----

  const DW_EH_PE_OMIT: Byte := 0xff

  /** A pointer read: its value and the position after it; an unsupported encoding aborts. */
  datatype Pointer = Got(value: nat, next: nat) | Aborts | OutOfBounds

  /** The value as its format gives it. */
  function PlainPointer(mem: Memory, p: nat, format: nat): Pointer {
    var r :=
      if format == 0x00 then Load(mem, p, 8)
      else if format == 0x01 then DigitsFrom(mem, p, 0)
      else if format == 0x02 then Load(mem, p, 2)
      else if format == 0x03 then Load(mem, p, 4)
      else if format == 0x04 then Load(mem, p, 8)
      else if format == 0x09 then SignedFrom(mem, p, 0)
      else if format == 0x0A then Extended(Load(mem, p, 2), 16)
      else if format == 0x0B then Extended(Load(mem, p, 4), 32)
      else Load(mem, p, 8);
    if format > 0x04 && (format < 0x09 || format > 0x0C) then Aborts
    else if r.Defined? then Got(r.value, r.next)
    else OutOfBounds
  }

  /** Plain value, then the base it is relative to, then the indirection. */
  function EncodedPointer(mem: Memory, data: nat, encoding: Byte): Pointer {
    if encoding == DW_EH_PE_OMIT then Got(0, data)
    else
      match PlainPointer(mem, data, encoding % 16)
      case Got(v, next) =>
        var application := encoding / 16 % 8;
        if application > 1 then Aborts
        else
          var address := if application == 1 then (v + data) % TWO64 else v;
          if encoding < 0x80 then Got(address, next)
          else
            (match Load(mem, address, 8)
             case Defined(w, _) => Got(w, next)
             case Undefined => OutOfBounds)
      case stop => stop
  }

  method ReadEncodedPointer(mem: Memory, data: nat, encoding: Byte) returns (r: Pointer)
    ensures r == EncodedPointer(mem, data, encoding)
  {
    if encoding == DW_EH_PE_OMIT { return Got(0, data); }
    var value := Undefined;
    var format := encoding % 16;
    if format == 0x00 { value := Load(mem, data, 8); }
    else if format == 0x01 { value := ReadULEB128(mem, data); }
    else if format == 0x09 { value := ReadSLEB128(mem, data); }
    else if format == 0x02 { value := Load(mem, data, 2); }
    else if format == 0x03 { value := Load(mem, data, 4); }
    else if format == 0x04 { value := Load(mem, data, 8); }
    else if format == 0x0A { value := Extended(Load(mem, data, 2), 16); }
    else if format == 0x0B { value := Extended(Load(mem, data, 4), 32); }
    else if format == 0x0C { value := Load(mem, data, 8); }
    else { return Aborts; }
    if value.Undefined? { return OutOfBounds; }
    var result := value.value;
    var relative := encoding / 16 % 8;
    if relative == 1 {
      result := (result + data) % TWO64;
    } else if relative != 0 {
      return Aborts;
    }
    if encoding >= 0x80 {
      var target := Load(mem, result, 8);
      if target.Undefined? { return OutOfBounds; }
      return Got(target.value, value.next);
    }
    return Got(result, value.next);
  }

  // ----- the action chain -----

  /** 64 bits as a signed number. */
  function Signed64(v: nat): int {
    if v < TWO64 / 2 then v else v - TWO64
  }

  /** `classInfo[-k]->type`: the k-th type info pointer below classInfo, and the number it points at. */
  function TypeAt(mem: Memory, classInfo: nat, k: nat): Reading {
    if classInfo < 8 * k then Undefined
    else
      match Load(mem, classInfo - 8 * k, 8)
      case Undefined => Undefined
      case Defined(pointer, _) => Load(mem, pointer, 4)
  }

  /** One record: the type it names (0 for a cleanup) and the address of the next one, if any. */
  datatype Action = Action(typeOffset: nat, hasNext: bool, next: int) | BadAction

  function ActionAt(mem: Memory, pos: nat): (a: Action)
    ensures a.Action? ==> pos < |mem|
  {
    match SignedFrom(mem, pos, 0)
    case Undefined => BadAction
    case Defined(v, p) =>
      match SignedFrom(mem, p, 0)
      case Undefined => BadAction
      case Defined(offset, _) =>
        if Signed64(v) < 0 then BadAction
        else Action(Signed64(v), offset != 0, p + Signed64(offset))
  }

  /** How a walk along the chain ends: at the i-th record with a match, at the end without one,
      outside of what is defined, or never. */
  datatype Chain = Match(index: nat) | NoMatch | BadChain | Endless

  function Below(n: nat): (r: set<nat>)
    ensures forall x :: x in r <==> 0 <= x < n
    ensures |r| == n
  {
    if n == 0 then {} else Below(n - 1) + {n - 1}
  }

  /** The walk from pos, i records into the chain; `seen` are the records passed already. */
  function WalkChain(mem: Memory, classInfo: nat, typ: nat, pos: nat, i: nat, seen: set<nat>): Chain
    decreases Below(|mem|) - seen
  {
    if pos in seen then Endless
    else
      match ActionAt(mem, pos)
      case BadAction => BadChain
      case Action(k, hasNext, next) =>
        assert pos < |mem|;
        var t := TypeAt(mem, classInfo, k);
        if k > 0 && t.Undefined? then BadChain
        else if k > 0 && t.value == typ then Match(i + 1)
        else if !hasNext then NoMatch
        else if next < 0 then BadChain
        else WalkChain(mem, classInfo, typ, next, i + 1, seen + {pos})
  }

  // ----- what the walk along a chain finds -----

  /** The k-th record of the chain, following the links: negative if the chain does not reach that far. */
  function ChainPos(mem: Memory, entry: nat, k: nat): int {
    if k == 0 then entry
    else
      var q := ChainPos(mem, entry, k - 1);
      if q < 0 then -1
      else
        match ActionAt(mem, q)
        case BadAction => -1
        case Action(_, hasNext, next) => if hasNext then next else -1
  }

  /** The record names the type of the exception. */
  predicate Names(mem: Memory, classInfo: nat, typ: nat, pos: int) {
    pos >= 0 &&
    var a := ActionAt(mem, pos);
    a.Action? && a.typeOffset > 0 &&
    var t := TypeAt(mem, classInfo, a.typeOffset);
    t.Defined? && t.value == typ
  }

  /** The record can be read, and does not. */
  predicate PassesBy(mem: Memory, classInfo: nat, typ: nat, pos: int) {
    pos >= 0 &&
    var a := ActionAt(mem, pos);
    a.Action? && (a.typeOffset > 0 ==> TypeAt(mem, classInfo, a.typeOffset).Defined?) && !Names(mem, classInfo, typ, pos)
  }

  /** The record does not name the type, and there is a next one. */
  predicate GoesOn(mem: Memory, classInfo: nat, typ: nat, pos: int) {
    PassesBy(mem, classInfo, typ, pos) && ActionAt(mem, pos).hasNext
  }

  ghost predicate GoesOnTo(mem: Memory, classInfo: nat, typ: nat, entry: nat, k: nat) {
    forall j :: 0 <= j < k ==> GoesOn(mem, classInfo, typ, ChainPos(mem, entry, j))
  }

  /** Record k is the first one that names the type. */
  ghost predicate FirstNamed(mem: Memory, classInfo: nat, typ: nat, entry: nat, k: nat) {
    GoesOnTo(mem, classInfo, typ, entry, k) && Names(mem, classInfo, typ, ChainPos(mem, entry, k))
  }

  /** The chain ends after record k, and none of its records names the type. */
  ghost predicate NoneNamed(mem: Memory, classInfo: nat, typ: nat, entry: nat, k: nat) {
    && GoesOnTo(mem, classInfo, typ, entry, k) && PassesBy(mem, classInfo, typ, ChainPos(mem, entry, k))
    && !ActionAt(mem, ChainPos(mem, entry, k)).hasNext
  }

  /** Record k lies before the memory, or it or the type that it refers to cannot be read. */
  ghost predicate SpoiledAt(mem: Memory, classInfo: nat, typ: nat, entry: nat, k: nat) {
    && GoesOnTo(mem, classInfo, typ, entry, k)
    && var pos := ChainPos(mem, entry, k);
       pos < 0 ||
       match ActionAt(mem, pos)
       case BadAction => true
       case Action(t, _, _) => t > 0 && TypeAt(mem, classInfo, t).Undefined?
  }

  /** Records a and b are the same one, and the walk gets as far as that. */
  ghost predicate ComesBack(mem: Memory, classInfo: nat, typ: nat, entry: nat, a: nat, b: nat) {
    a < b && GoesOnTo(mem, classInfo, typ, entry, b) && ChainPos(mem, entry, a) == ChainPos(mem, entry, b)
  }

  /** If the chain comes back to a record it repeats itself from there. */
  lemma {:induction false} ChainRepeats(mem: Memory, entry: nat, a: nat, b: nat, m: nat)
    requires ChainPos(mem, entry, a) == ChainPos(mem, entry, b)
    ensures ChainPos(mem, entry, a + m) == ChainPos(mem, entry, b + m)
  {
    hide ActionAt;
    if m == 0 {
    } else {
      ChainRepeats(mem, entry, a, b, m - 1);
    }
  }

  /** A record where the walk stops is not preceded by a loop. */
  lemma StopsOnlyOnce(mem: Memory, classInfo: nat, typ: nat, entry: nat, a: nat, b: nat, k: nat)
    requires GoesOnTo(mem, classInfo, typ, entry, k) && a < b <= k && ChainPos(mem, entry, a) == ChainPos(mem, entry, b)
    ensures GoesOn(mem, classInfo, typ, ChainPos(mem, entry, k))
  {
    hide GoesOn, ChainPos;
    ChainRepeats(mem, entry, a, b, k - b);
    assert GoesOn(mem, classInfo, typ, ChainPos(mem, entry, a + (k - b)));
  }

  /** The records before record i. */
  function Passed(mem: Memory, entry: nat, i: nat): set<nat> {
    if i == 0 then {}
    else
      var pos := ChainPos(mem, entry, i - 1);
      Passed(mem, entry, i - 1) + if pos >= 0 then {pos as nat} else {}
  }

  lemma {:induction false} WasPassed(mem: Memory, entry: nat, i: nat, x: nat) returns (j: nat)
    requires x in Passed(mem, entry, i)
    ensures j < i && ChainPos(mem, entry, j) == x
  {
    hide ChainPos;
    j := i - 1;
    if ChainPos(mem, entry, j) != x { j := WasPassed(mem, entry, i - 1, x); }
  }

  lemma {:induction false} IsPassed(mem: Memory, entry: nat, i: nat, j: nat)
    requires j < i && ChainPos(mem, entry, j) >= 0
    ensures ChainPos(mem, entry, j) in Passed(mem, entry, i)
  {
    hide ChainPos;
    if j == i - 1 {
    } else {
      IsPassed(mem, entry, i - 1, j);
    }
  }

  lemma NotPassed(mem: Memory, entry: nat, k: nat)
    requires AllDifferent(mem, entry, k + 1) && ChainPos(mem, entry, k) >= 0
    ensures ChainPos(mem, entry, k) !in Passed(mem, entry, k)
  {
    hide ChainPos, Passed;
    if ChainPos(mem, entry, k) in Passed(mem, entry, k) {
      var j := WasPassed(mem, entry, k, ChainPos(mem, entry, k));
    }
  }

  /** One step of the walk. */
  lemma WalkStep(mem: Memory, classInfo: nat, typ: nat, pos: nat, i: nat, seen: set<nat>)
    requires pos !in seen
    ensures WalkChain(mem, classInfo, typ, pos, i, seen) ==
              if Names(mem, classInfo, typ, pos) then Match(i + 1)
              else if !PassesBy(mem, classInfo, typ, pos) then BadChain
              else if !GoesOn(mem, classInfo, typ, pos) then NoMatch
              else if ActionAt(mem, pos).next < 0 then BadChain
              else WalkChain(mem, classInfo, typ, ActionAt(mem, pos).next, i + 1, seen + {pos})
  {
    hide TypeAt;
  }

  /** A record where the walk stops. */
  lemma StopsHere(mem: Memory, classInfo: nat, typ: nat, entry: nat, i: nat)
    requires GoesOnTo(mem, classInfo, typ, entry, i)
    ensures var pos := ChainPos(mem, entry, i);
            && (Names(mem, classInfo, typ, pos) <==> FirstNamed(mem, classInfo, typ, entry, i))
            && (PassesBy(mem, classInfo, typ, pos) && !GoesOn(mem, classInfo, typ, pos) <==> NoneNamed(mem, classInfo, typ, entry, i))
            && (!Names(mem, classInfo, typ, pos) && !PassesBy(mem, classInfo, typ, pos) <==> SpoiledAt(mem, classInfo, typ, entry, i))
  {
    hide TypeAt, ChainPos, ActionAt;
  }

  lemma NextPos(mem: Memory, classInfo: nat, typ: nat, entry: nat, i: nat)
    requires GoesOn(mem, classInfo, typ, ChainPos(mem, entry, i))
    ensures ChainPos(mem, entry, i + 1) == ActionAt(mem, ChainPos(mem, entry, i)).next
    ensures GoesOnTo(mem, classInfo, typ, entry, i) ==> GoesOnTo(mem, classInfo, typ, entry, i + 1)
  {
    hide TypeAt, ActionAt;
  }

  /** The walk from record i on: every answer says what stands in the records. */
  lemma {:induction false} WalkFrom(mem: Memory, classInfo: nat, typ: nat, entry: nat, i: nat, seen: set<nat>)
    requires ChainPos(mem, entry, i) >= 0 && GoesOnTo(mem, classInfo, typ, entry, i) && seen == Passed(mem, entry, i)
    ensures var r := WalkChain(mem, classInfo, typ, ChainPos(mem, entry, i), i, seen);
            && (r.Match? ==> r.index > i && FirstNamed(mem, classInfo, typ, entry, r.index - 1))
            && (r.NoMatch? ==> exists k :: NoneNamed(mem, classInfo, typ, entry, k))
            && (r.BadChain? ==> exists k :: SpoiledAt(mem, classInfo, typ, entry, k))
            && (r.Endless? ==> exists a, b :: ComesBack(mem, classInfo, typ, entry, a, b))
    decreases Below(|mem|) - seen
  {
    hide ActionAt, TypeAt, WalkChain, ChainPos, Names, PassesBy, GoesOn, GoesOnTo, FirstNamed, NoneNamed, SpoiledAt;
    var pos: nat := ChainPos(mem, entry, i);
    StopsHere(mem, classInfo, typ, entry, i);
    if pos in seen {
      SeenBefore(mem, classInfo, typ, entry, i);
    } else {
      WalkStep(mem, classInfo, typ, pos, i, seen);
      if GoesOn(mem, classInfo, typ, pos) {
        NextPos(mem, classInfo, typ, entry, i);
        StopsHere(mem, classInfo, typ, entry, i + 1);
        OnTheWay(mem, classInfo, typ, pos);
        OnTheWay(mem, classInfo, typ, ChainPos(mem, entry, i + 1));
        if ChainPos(mem, entry, i + 1) >= 0 {
          WalkFrom(mem, classInfo, typ, entry, i + 1, seen + {pos});
        }
      }
    }
  }

  lemma SeenBefore(mem: Memory, classInfo: nat, typ: nat, entry: nat, i: nat)
    requires GoesOnTo(mem, classInfo, typ, entry, i) && ChainPos(mem, entry, i) >= 0
    requires ChainPos(mem, entry, i) in Passed(mem, entry, i)
    ensures WalkChain(mem, classInfo, typ, ChainPos(mem, entry, i), i, Passed(mem, entry, i)) == Endless
    ensures exists a, b :: ComesBack(mem, classInfo, typ, entry, a, b)
  {
    hide GoesOnTo, ChainPos, Passed;
    var a := WasPassed(mem, entry, i, ChainPos(mem, entry, i));
    assert ComesBack(mem, classInfo, typ, entry, a, i);
  }

  /** Records stand inside the memory. */
  lemma OnTheWay(mem: Memory, classInfo: nat, typ: nat, pos: int)
    ensures Names(mem, classInfo, typ, pos) || PassesBy(mem, classInfo, typ, pos) ==> 0 <= pos < |mem|
    ensures GoesOn(mem, classInfo, typ, pos) ==> PassesBy(mem, classInfo, typ, pos) && !Names(mem, classInfo, typ, pos)
    ensures PassesBy(mem, classInfo, typ, pos) ==> !Names(mem, classInfo, typ, pos)
    ensures pos < 0 ==> !Names(mem, classInfo, typ, pos) && !PassesBy(mem, classInfo, typ, pos)
  {
  }

  /** The first k records are different ones. */
  ghost predicate AllDifferent(mem: Memory, entry: nat, k: nat) {
    forall a, b :: 0 <= a < b < k ==> ChainPos(mem, entry, a) != ChainPos(mem, entry, b)
  }

  /** A walk that comes to no record twice gets as far as the chain goes on. */
  lemma {:induction false} WalkGetsTo(mem: Memory, classInfo: nat, typ: nat, entry: nat, k: nat)
    requires GoesOnTo(mem, classInfo, typ, entry, k) && AllDifferent(mem, entry, k)
    ensures WalkChain(mem, classInfo, typ, entry, 0, {}) ==
              if ChainPos(mem, entry, k) < 0 then BadChain
              else WalkChain(mem, classInfo, typ, ChainPos(mem, entry, k), k, Passed(mem, entry, k))
  {
    hide WalkChain, ChainPos, Names, PassesBy, GoesOn;
    if k == 0 {
      NothingPassed(mem, classInfo, typ, entry);
    } else {
      var pos := ChainPos(mem, entry, k - 1);
      assert GoesOn(mem, classInfo, typ, pos);
      OnTheWay(mem, classInfo, typ, pos);
      NotPassed(mem, entry, k - 1);
      WalkGetsTo(mem, classInfo, typ, entry, k - 1);
      NextPos(mem, classInfo, typ, entry, k - 1);
      WalkStep(mem, classInfo, typ, pos, k - 1, Passed(mem, entry, k - 1));
    }
  }

  /** A chain that comes back to a record is walked for ever. */
  lemma {:induction false} LoopIsEndless(mem: Memory, classInfo: nat, typ: nat, entry: nat, a: nat, b: nat)
    requires ComesBack(mem, classInfo, typ, entry, a, b)
    ensures WalkChain(mem, classInfo, typ, entry, 0, {}) == Endless
    decreases b
  {
    hide ActionAt, TypeAt, Passed, ChainPos, GoesOn, WalkChain;
    if AllDifferent(mem, entry, b) {
      WalkGetsTo(mem, classInfo, typ, entry, b);
      PassedAgain(mem, classInfo, typ, entry, a, b);
    } else {
      var c, d :| 0 <= c < d < b && ChainPos(mem, entry, c) == ChainPos(mem, entry, d);
      LoopIsEndless(mem, classInfo, typ, entry, c, d);
    }
  }

  lemma PassedAgain(mem: Memory, classInfo: nat, typ: nat, entry: nat, a: nat, k: nat)
    requires GoesOn(mem, classInfo, typ, ChainPos(mem, entry, a))
    requires a < k && ChainPos(mem, entry, a) == ChainPos(mem, entry, k)
    ensures ChainPos(mem, entry, k) >= 0
    ensures WalkChain(mem, classInfo, typ, ChainPos(mem, entry, k), k, Passed(mem, entry, k)) == Endless
  {
    hide ChainPos, Passed;
    IsPassed(mem, entry, k, a);
  }

  /** Before a record where the walk stops no record is met twice. */
  lemma AllDifferentUpTo(mem: Memory, classInfo: nat, typ: nat, entry: nat, k: nat)
    requires GoesOnTo(mem, classInfo, typ, entry, k) && !GoesOn(mem, classInfo, typ, ChainPos(mem, entry, k))
    ensures AllDifferent(mem, entry, k + 1)
  {
    hide GoesOn, ChainPos;
    forall a, b | 0 <= a < b < k + 1 ensures ChainPos(mem, entry, a) != ChainPos(mem, entry, b) {
      if ChainPos(mem, entry, a) == ChainPos(mem, entry, b) { StopsOnlyOnce(mem, classInfo, typ, entry, a, b, k); }
    }
  }

  /** What the walk answers at a record where it stops. */
  lemma StopAt(mem: Memory, classInfo: nat, typ: nat, entry: nat, k: nat)
    requires GoesOnTo(mem, classInfo, typ, entry, k) && !GoesOn(mem, classInfo, typ, ChainPos(mem, entry, k))
    ensures WalkChain(mem, classInfo, typ, entry, 0, {}) ==
              if FirstNamed(mem, classInfo, typ, entry, k) then Match(k + 1)
              else if NoneNamed(mem, classInfo, typ, entry, k) then NoMatch
              else BadChain
  {
    hide WalkChain, ActionAt, TypeAt, ChainPos, Passed, Names, PassesBy, GoesOn, GoesOnTo, FirstNamed, NoneNamed;
    var pos := ChainPos(mem, entry, k);
    AllDifferentUpTo(mem, classInfo, typ, entry, k);
    WalkGetsTo(mem, classInfo, typ, entry, k);
    StopsHere(mem, classInfo, typ, entry, k);
    OnTheWay(mem, classInfo, typ, pos);
    if pos >= 0 {
      NotPassed(mem, entry, k);
      WalkStep(mem, classInfo, typ, pos, k, Passed(mem, entry, k));
    }
  }

  lemma StopsThere(mem: Memory, classInfo: nat, typ: nat, entry: nat, k: nat)
    ensures var r := WalkChain(mem, classInfo, typ, entry, 0, {});
            && (FirstNamed(mem, classInfo, typ, entry, k) ==> r == Match(k + 1))
            && (NoneNamed(mem, classInfo, typ, entry, k) ==> r == NoMatch)
            && (SpoiledAt(mem, classInfo, typ, entry, k) ==> r == BadChain)
  {
    hide WalkChain, ActionAt, TypeAt, ChainPos;
    if GoesOnTo(mem, classInfo, typ, entry, k) && !GoesOn(mem, classInfo, typ, ChainPos(mem, entry, k)) {
      StopAt(mem, classInfo, typ, entry, k);
    }
  }

  /** The search answers a 1-based position exactly when that record is the first in the chain
      whose type matches, no match exactly when the chain ends without one, that it fails exactly
      when it comes to something unreadable before that, and nothing, for ever, exactly when the
      chain comes back to a record before any of these. */
  lemma ChainSearchIsExact(mem: Memory, classInfo: nat, typ: nat, entry: nat, k: nat)
    ensures var r := WalkChain(mem, classInfo, typ, entry, 0, {});
            && (r == Match(k + 1) <==> FirstNamed(mem, classInfo, typ, entry, k))
            && (r == NoMatch <==> exists m :: NoneNamed(mem, classInfo, typ, entry, m))
            && (r == BadChain <==> exists m :: SpoiledAt(mem, classInfo, typ, entry, m))
            && (r == Endless <==> exists a, b :: ComesBack(mem, classInfo, typ, entry, a, b))
  {
    hide WalkChain, FirstNamed, NoneNamed, SpoiledAt, ComesBack, Passed;
    NothingPassed(mem, classInfo, typ, entry);
    WalkFrom(mem, classInfo, typ, entry, 0, {});
    StopsThere(mem, classInfo, typ, entry, k);
    if m: nat :| NoneNamed(mem, classInfo, typ, entry, m) { StopsThere(mem, classInfo, typ, entry, m); }
    if m: nat :| SpoiledAt(mem, classInfo, typ, entry, m) { StopsThere(mem, classInfo, typ, entry, m); }
    if a: nat, b: nat :| ComesBack(mem, classInfo, typ, entry, a, b) { LoopIsEndless(mem, classInfo, typ, entry, a, b); }
  }

  lemma NothingPassed(mem: Memory, classInfo: nat, typ: nat, entry: nat)
    ensures ChainPos(mem, entry, 0) == entry && GoesOnTo(mem, classInfo, typ, entry, 0) && Passed(mem, entry, 0) == {}
  {
  }

  lemma {:induction false} PassedCount(mem: Memory, classInfo: nat, typ: nat, entry: nat, k: nat)
    requires GoesOnTo(mem, classInfo, typ, entry, k) && AllDifferent(mem, entry, k)
    ensures Passed(mem, entry, k) <= Below(|mem|) && |Passed(mem, entry, k)| == k
  {
    hide ChainPos, Below, GoesOn, PassesBy, Names;
    if k == 0 {
    } else {
      var pos := ChainPos(mem, entry, k - 1);
      assert GoesOn(mem, classInfo, typ, pos);
      OnTheWay(mem, classInfo, typ, pos);
      NotPassed(mem, entry, k - 1);
      PassedCount(mem, classInfo, typ, entry, k - 1);
    }
  }

  /** A chain with more records than the memory has bytes has come back to one of them. */
  lemma MoreRecordsThanBytes(mem: Memory, classInfo: nat, typ: nat, entry: nat)
    requires GoesOnTo(mem, classInfo, typ, entry, |mem| + 1)
    ensures WalkChain(mem, classInfo, typ, entry, 0, {}) == Endless
  {
    hide GoesOn, ChainPos, WalkChain, Below, Passed;
    var k := |mem| + 1;
    if AllDifferent(mem, entry, k) {
      PassedCount(mem, classInfo, typ, entry, k);
      SubsetCount(Passed(mem, entry, k), Below(|mem|));
    } else {
      var a, b :| 0 <= a < b < k && ChainPos(mem, entry, a) == ChainPos(mem, entry, b);
      LoopIsEndless(mem, classInfo, typ, entry, a, b);
    }
  }

  /** What the walk does at record i, once it has come there. */
  lemma AtRecord(mem: Memory, classInfo: nat, typ: nat, entry: nat, i: nat)
    requires GoesOnTo(mem, classInfo, typ, entry, i) && ChainPos(mem, entry, i) >= 0
    ensures var answer := WalkChain(mem, classInfo, typ, entry, 0, {});
            match ActionAt(mem, ChainPos(mem, entry, i))
            case BadAction => answer == BadChain
            case Action(k, hasNext, next) =>
              var t := TypeAt(mem, classInfo, k);
              if k > 0 && t.Undefined? then answer == BadChain
              else if k > 0 && t.value == typ then answer == Match(i + 1)
              else if !hasNext then answer == NoMatch
              else if next < 0 then answer == BadChain
              else ChainPos(mem, entry, i + 1) == next && GoesOnTo(mem, classInfo, typ, entry, i + 1)
  {
    hide WalkChain, ActionAt, TypeAt;
    if GoesOn(mem, classInfo, typ, ChainPos(mem, entry, i)) {
      if ChainPos(mem, entry, i + 1) < 0 { StopAt(mem, classInfo, typ, entry, i + 1); }
    } else {
      StopAt(mem, classInfo, typ, entry, i);
    }
  }

  /** Searches the chain for the type of the exception. A walk that has passed as many records as
      there are bytes, and one more, goes on for ever: here it ends with that answer. */
  method HandleActionValue(mem: Memory, classInfo: nat, actionEntry: nat, typ: nat) returns (r: Chain)
    ensures r == WalkChain(mem, classInfo, typ, actionEntry, 0, {})
  {
    hide WalkChain, TypeAt, ChainPos, GoesOnTo;
    var actionPos: nat, i: nat := actionEntry, 0;
    NothingPassed(mem, classInfo, typ, actionEntry);
    while i <= |mem|
      invariant i <= |mem| + 1
      invariant actionPos == ChainPos(mem, actionEntry, i) && GoesOnTo(mem, classInfo, typ, actionEntry, i)
    {
      AtRecord(mem, classInfo, typ, actionEntry, i);
      var typeOffset := ReadSLEB128(mem, actionPos);
      if typeOffset.Undefined? { return BadChain; }
      var actionOffset := ReadSLEB128(mem, typeOffset.next);
      if actionOffset.Undefined? { return BadChain; }
      // filters are not supported
      if Signed64(typeOffset.value) < 0 { return BadChain; }
      if Signed64(typeOffset.value) > 0 {
        var t := TypeAt(mem, classInfo, Signed64(typeOffset.value));
        if t.Undefined? { return BadChain; }
        if t.value == typ { return Match(i + 1); }
      }
      if actionOffset.value == 0 { return NoMatch; }
      var next := typeOffset.next + Signed64(actionOffset.value);
      if next < 0 { return BadChain; }
      actionPos := next;
      i := i + 1;
    }
    MoreRecordsThanBytes(mem, classInfo, typ, actionEntry);
    return Endless;
  }

  // ----- the call-site table -----

  /** What the table says about a pc: no landing pad covers it; or the first one that does, with
      the position of the matched type in its selector if there is one; or the read goes wrong. */
  datatype Site = NoPad | Pad(offset: nat, matched: Chain) | Wrong

  datatype Entry = Entry(start: nat, length: nat, landingPad: nat, action: nat, next: nat) | BadEntry

  /** One entry of the call-site table. */
  function EntryAt(mem: Memory, p: nat, encoding: Byte): (e: Entry)
    ensures e.Entry? ==> p < |mem|
  {
    var start := EncodedPointer(mem, p, encoding);
    if !start.Got? then BadEntry else
    var length := EncodedPointer(mem, start.next, encoding);
    if !length.Got? then BadEntry else
    var pad := EncodedPointer(mem, length.next, encoding);
    if !pad.Got? then BadEntry else
    var action := DigitsFrom(mem, pad.next, 0);
    PointerAdvances(mem, p, encoding);
    PointerAdvances(mem, start.next, encoding);
    PointerAdvances(mem, length.next, encoding);
    DigitsAdvance(mem, pad.next, 0);
    if !action.Defined? then BadEntry
    else Entry(start.value, length.value, pad.value, action.value, action.next)
  }

  lemma DigitsAdvance(mem: Memory, p: nat, k: nat)
    ensures var r := DigitsFrom(mem, p, k); r.Defined? ==> p < r.next <= |mem|
    decreases |mem| - p
  {
    if p < |mem| && mem[p] >= 128 { DigitsAdvance(mem, p + 1, k + 1); }
  }

  lemma SignedAdvance(mem: Memory, p: nat, k: nat)
    ensures var r := SignedFrom(mem, p, k); r.Defined? ==> p < r.next <= |mem|
    decreases |mem| - p
  {
    if p < |mem| && mem[p] >= 128 { SignedAdvance(mem, p + 1, k + 1); }
  }

  lemma PointerAdvances(mem: Memory, p: nat, encoding: Byte)
    ensures var r := EncodedPointer(mem, p, encoding); r.Got? ==> p <= r.next
  {
    DigitsAdvance(mem, p, 0);
    SignedAdvance(mem, p, 0);
  }

  /** Every entry takes at least one byte, whatever its encoding: the table walk ends. */
  lemma EntryAdvances(mem: Memory, p: nat, encoding: Byte)
    ensures var e := EntryAt(mem, p, encoding); e.Entry? ==> p < e.next <= |mem|
  {
    var start := EncodedPointer(mem, p, encoding);
    PointerAdvances(mem, p, encoding);
    if start.Got? {
      var length := EncodedPointer(mem, start.next, encoding);
      PointerAdvances(mem, start.next, encoding);
      if length.Got? {
        var pad := EncodedPointer(mem, length.next, encoding);
        PointerAdvances(mem, length.next, encoding);
        if pad.Got? { DigitsAdvance(mem, pad.next, 0); }
      }
    }
  }

  /** The thrown exception, as far as the personality looks at it. */
  datatype Thrown = Foreign | Ours(typ: nat)

  /** What the action of the covering entry means for the exception. */
  function MatchAction(mem: Memory, classInfo: nat, actionTable: nat, action: nat, thrown: Thrown): Chain {
    if thrown.Foreign? || action == 0 then NoMatch
    else WalkChain(mem, classInfo, thrown.typ, actionTable + action - 1, 0, {})
  }

  predicate Covers(e: Entry, pc: nat)
    requires e.Entry?
  {
    e.landingPad != 0 && e.start <= pc < (e.start + e.length) % TWO64
  }

  /** A range that would go beyond the address space holds nothing. */
  lemma WrappedRangeIsEmpty(e: Entry, pc: nat)
    requires e.Entry? && e.start < TWO64 && e.length < TWO64
    ensures Covers(e, pc) <==> e.landingPad != 0 && e.start <= pc < e.start + e.length < TWO64
  {
    var end := e.start + e.length;
    assert end % TWO64 == if end < TWO64 then end else end - TWO64;
  }

  /** The walk through the table, up to the first entry with a landing pad that covers the pc. */
  function WalkTable(mem: Memory, classInfo: nat, p: nat, end: nat, encoding: Byte, pc: nat, thrown: Thrown): Site
    decreases |mem| - p
  {
    if p >= end then NoPad
    else
      var e := EntryAt(mem, p, encoding);
      if e.BadEntry? then Wrong
      else
        EntryAdvances(mem, p, encoding);
        if Covers(e, pc) then Pad(e.landingPad, MatchAction(mem, classInfo, end, e.action, thrown))
        else WalkTable(mem, classInfo, e.next, end, encoding, pc, thrown)
  }

  // ----- what the walk through the table finds -----

  /** Where the k-th entry stands: -1 if one before it cannot be read. */
  function EntryPos(mem: Memory, table: nat, encoding: Byte, k: nat): int {
    if k == 0 then table
    else
      var q := EntryPos(mem, table, encoding, k - 1);
      if q < 0 then -1
      else
        match EntryAt(mem, q, encoding)
        case BadEntry => -1
        case Entry(_, _, _, _, next) => next
  }

  /** The entry can be read, and has no landing pad for the pc. */
  predicate Skipped(mem: Memory, pos: int, end: nat, encoding: Byte, pc: nat) {
    0 <= pos < end && var e := EntryAt(mem, pos, encoding); e.Entry? && !Covers(e, pc)
  }

  ghost predicate SkippedUpTo(mem: Memory, table: nat, end: nat, encoding: Byte, pc: nat, k: nat) {
    forall j :: 0 <= j < k ==> Skipped(mem, EntryPos(mem, table, encoding, j), end, encoding, pc)
  }

  /** Entry k is the first one with a landing pad for the pc. */
  ghost predicate FirstCovering(mem: Memory, table: nat, end: nat, encoding: Byte, pc: nat, k: nat) {
    && SkippedUpTo(mem, table, end, encoding, pc, k)
    && var pos := EntryPos(mem, table, encoding, k);
       0 <= pos < end && var e := EntryAt(mem, pos, encoding); e.Entry? && Covers(e, pc)
  }

  /** The table has k entries, and none of them has a landing pad for the pc. */
  ghost predicate NoneCovering(mem: Memory, table: nat, end: nat, encoding: Byte, pc: nat, k: nat) {
    SkippedUpTo(mem, table, end, encoding, pc, k) && EntryPos(mem, table, encoding, k) >= end
  }

  /** Entry k cannot be read, and none before it has a landing pad for the pc. */
  ghost predicate SpoiledEntry(mem: Memory, table: nat, end: nat, encoding: Byte, pc: nat, k: nat) {
    && SkippedUpTo(mem, table, end, encoding, pc, k)
    && var pos := EntryPos(mem, table, encoding, k);
       0 <= pos < end && EntryAt(mem, pos, encoding).BadEntry?
  }

  lemma {:induction false} TableGetsTo(mem: Memory, classInfo: nat, table: nat, end: nat, encoding: Byte, pc: nat, thrown: Thrown, k: nat)
    requires SkippedUpTo(mem, table, end, encoding, pc, k)
    ensures EntryPos(mem, table, encoding, k) >= 0
    ensures WalkTable(mem, classInfo, table, end, encoding, pc, thrown) ==
            WalkTable(mem, classInfo, EntryPos(mem, table, encoding, k), end, encoding, pc, thrown)
  {
    hide EntryAt, Covers, MatchAction;
    if k == 0 {
    } else {
      assert Skipped(mem, EntryPos(mem, table, encoding, k - 1), end, encoding, pc);
      TableGetsTo(mem, classInfo, table, end, encoding, pc, thrown, k - 1);
    }
  }

  /** The walk from entry i on finds one of the three. */
  lemma {:induction false} TableStops(mem: Memory, table: nat, end: nat, encoding: Byte, pc: nat, i: nat) returns (k: nat)
    requires EntryPos(mem, table, encoding, i) >= 0 && SkippedUpTo(mem, table, end, encoding, pc, i)
    ensures || FirstCovering(mem, table, end, encoding, pc, k)
            || NoneCovering(mem, table, end, encoding, pc, k)
            || SpoiledEntry(mem, table, end, encoding, pc, k)
    decreases |mem| - EntryPos(mem, table, encoding, i)
  {
    hide EntryAt, Covers;
    k := i;
    var pos := EntryPos(mem, table, encoding, i);
    if Skipped(mem, pos, end, encoding, pc) {
      EntryAdvances(mem, pos, encoding);
      k := TableStops(mem, table, end, encoding, pc, i + 1);
    }
  }

  lemma TableStopsAt(mem: Memory, classInfo: nat, table: nat, end: nat, encoding: Byte, pc: nat, thrown: Thrown, k: nat)
    ensures var site := WalkTable(mem, classInfo, table, end, encoding, pc, thrown);
            && (FirstCovering(mem, table, end, encoding, pc, k) ==>
                 var e := EntryAt(mem, EntryPos(mem, table, encoding, k), encoding);
                 site == Pad(e.landingPad, MatchAction(mem, classInfo, end, e.action, thrown)))
            && (NoneCovering(mem, table, end, encoding, pc, k) ==> site == NoPad)
            && (SpoiledEntry(mem, table, end, encoding, pc, k) ==> site == Wrong)
  {
    hide EntryAt, Covers, MatchAction, EntryPos;
    if SkippedUpTo(mem, table, end, encoding, pc, k) {
      TableGetsTo(mem, classInfo, table, end, encoding, pc, thrown, k);
    }
  }

  /** The answer is a landing pad exactly when some entry is the first that has one for the pc, and
      then it is that entry's, with what its action means; that there is none exactly when the table
      ends without one; and that the table is wrong exactly when an unreadable entry comes first. */
  lemma TableSearchIsExact(mem: Memory, classInfo: nat, table: nat, end: nat, encoding: Byte, pc: nat, thrown: Thrown, k: nat)
    ensures var site := WalkTable(mem, classInfo, table, end, encoding, pc, thrown);
            && (site.Pad? <==> exists m :: FirstCovering(mem, table, end, encoding, pc, m))
            && (FirstCovering(mem, table, end, encoding, pc, k) ==>
                 var e := EntryAt(mem, EntryPos(mem, table, encoding, k), encoding);
                 site == Pad(e.landingPad, MatchAction(mem, classInfo, end, e.action, thrown)))
            && (site == NoPad <==> exists m :: NoneCovering(mem, table, end, encoding, pc, m))
            && (site == Wrong <==> exists m :: SpoiledEntry(mem, table, end, encoding, pc, m))
  {
    hide WalkTable, FirstCovering, NoneCovering, SpoiledEntry, EntryAt;
    TableStopsAt(mem, classInfo, table, end, encoding, pc, thrown, k);
    NothingSkipped(mem, table, end, encoding, pc);
    var stop := TableStops(mem, table, end, encoding, pc, 0);
    TableStopsAt(mem, classInfo, table, end, encoding, pc, thrown, stop);
    if m: nat :| FirstCovering(mem, table, end, encoding, pc, m) {
      TableStopsAt(mem, classInfo, table, end, encoding, pc, thrown, m);
    }
    if m: nat :| NoneCovering(mem, table, end, encoding, pc, m) {
      TableStopsAt(mem, classInfo, table, end, encoding, pc, thrown, m);
    }
    if m: nat :| SpoiledEntry(mem, table, end, encoding, pc, m) {
      TableStopsAt(mem, classInfo, table, end, encoding, pc, thrown, m);
    }
  }

  lemma NothingSkipped(mem: Memory, table: nat, end: nat, encoding: Byte, pc: nat)
    ensures EntryPos(mem, table, encoding, 0) >= 0 && SkippedUpTo(mem, table, end, encoding, pc, 0)
  {
  }

  /** The header of the language specific data: where the type infos end, how the call sites are
      encoded, and where their table starts and ends. */
  datatype Header = Header(classInfo: nat, encoding: Byte, table: nat, end: nat) | BadHeader

  function HeaderAt(mem: Memory, lsda: nat): Header {
    if lsda >= |mem| then BadHeader else
    var lpStart := EncodedPointer(mem, lsda + 1, mem[lsda]);
    if !lpStart.Got? || lpStart.next >= |mem| then BadHeader else
    var ttype := mem[lpStart.next];
    var types := if ttype == DW_EH_PE_OMIT then Defined(0, lpStart.next + 1) else DigitsFrom(mem, lpStart.next + 1, 0);
    if !types.Defined? || types.next >= |mem| then BadHeader else
    var classInfo := if ttype == DW_EH_PE_OMIT then 0 else types.next + types.value;
    var length := DigitsFrom(mem, types.next + 1, 0);
    if !length.Defined? then BadHeader
    else Header(classInfo, mem[types.next], length.next, length.next + length.value % 0x1_0000_0000)
  }

  function SiteOf(mem: Memory, lsda: nat, pc: nat, thrown: Thrown): Site {
    match HeaderAt(mem, lsda)
    case BadHeader => Wrong
    case Header(classInfo, encoding, table, end) => WalkTable(mem, classInfo, table, end, encoding, pc, thrown)
  }

  // ----- the two phases -----

  /** The answer to the unwinder. `InstallContext` also sets the selector register and the address to
      go on at. There is no answer to a chain that is walked for ever. */
  datatype Reason = ContinueUnwind | HandlerFound | InstallContext(selector: nat, ip: nat) | Fault | NoAnswer

  function Answer(search: bool, site: Site, funcStart: nat): Reason {
    match site
    case Wrong => Fault
    case NoPad => ContinueUnwind
    case Pad(offset, matched) =>
      match matched
      case BadChain => Fault
      case Endless => NoAnswer
      case Match(i) => if search then HandlerFound else InstallContext(i, (funcStart + offset) % TWO64)
      case NoMatch => if search then ContinueUnwind else InstallContext(0, (funcStart + offset) % TWO64)
  }

  method ReadHeader(mem: Memory, lsda: nat) returns (r: Header)
    ensures r == HeaderAt(mem, lsda)
  {
    hide DigitsFrom, EncodedPointer;
    if lsda >= |mem| { return BadHeader; }
    var lpStart := ReadEncodedPointer(mem, lsda + 1, mem[lsda]);
    if !lpStart.Got? || lpStart.next >= |mem| { return BadHeader; }
    var ttypeEncoding := mem[lpStart.next];
    var p: nat := lpStart.next + 1;
    var classInfo := 0;
    if ttypeEncoding != DW_EH_PE_OMIT {
      var classInfoOffset := ReadULEB128(mem, p);
      if classInfoOffset.Undefined? { return BadHeader; }
      p := classInfoOffset.next;
      classInfo := p + classInfoOffset.value;
    }
    if p >= |mem| { return BadHeader; }
    var callSiteEncoding := mem[p];
    var callSiteTableLength := ReadULEB128(mem, p + 1);
    if callSiteTableLength.Undefined? { return BadHeader; }
    var callSiteTableStart := callSiteTableLength.next;
    return Header(classInfo, callSiteEncoding, callSiteTableStart,
                  callSiteTableStart + callSiteTableLength.value % 0x1_0000_0000);
  }

  method ReadEntry(mem: Memory, callSitePtr: nat, callSiteEncoding: Byte) returns (r: Entry)
    ensures r == EntryAt(mem, callSitePtr, callSiteEncoding)
  {
    hide DigitsFrom, EncodedPointer;
    var start := ReadEncodedPointer(mem, callSitePtr, callSiteEncoding);
    if !start.Got? { return BadEntry; }
    var length := ReadEncodedPointer(mem, start.next, callSiteEncoding);
    if !length.Got? { return BadEntry; }
    var landingPad := ReadEncodedPointer(mem, length.next, callSiteEncoding);
    if !landingPad.Got? { return BadEntry; }
    var action := ReadULEB128(mem, landingPad.next);
    if action.Undefined? { return BadEntry; }
    return Entry(start.value, length.value, landingPad.value, action.value, action.next);
  }

  /** The offset of the call that threw, one before the return address. */
  function PcOffset(ip: nat, funcStart: nat): nat {
    (ip - 1 - funcStart) % TWO64
  }

  /** The offset is in a range of the function if and only if the call, whose return address is ip,
      ends in it: ip is behind the start of the range, and at most at its end. */
  lemma CallInRange(ip: nat, funcStart: nat, start: nat, length: nat)
    requires ip < TWO64 && funcStart + start + length < TWO64
    ensures start <= PcOffset(ip, funcStart) < start + length <==> funcStart + start < ip <= funcStart + start + length
  {
    if ip > funcStart {
      assert PcOffset(ip, funcStart) == ip - 1 - funcStart;
    } else {
      assert PcOffset(ip, funcStart) == ip - 1 - funcStart + TWO64;
    }
  }

  /** The personality's answer to the unwinder: it goes on past functions without a table, and
      otherwise does what the site of the call that threw says. */
  function LsdaAnswer(mem: Memory, lsda: nat, search: bool, thrown: Thrown, ip: nat, funcStart: nat): Reason {
    if lsda == 0 then ContinueUnwind
    else Answer(search, SiteOf(mem, lsda, PcOffset(ip, funcStart), thrown), funcStart)
  }

  /** The personality's work in either phase. */
  method HandleLsda(mem: Memory, lsda: nat, search: bool, thrown: Thrown, ip: nat, funcStart: nat) returns (r: Reason)
    ensures r == LsdaAnswer(mem, lsda, search, thrown, ip, funcStart)
  {
    hide HeaderAt, EntryAt, WalkChain, PcOffset;
    if lsda == 0 { return ContinueUnwind; }
    var pcOffset := PcOffset(ip, funcStart);
    var header := ReadHeader(mem, lsda);
    if header.BadHeader? { return Fault; }
    var callSitePtr := header.table;
    r := ContinueUnwind;
    ghost var goal := SiteOf(mem, lsda, pcOffset, thrown);
    while callSitePtr < header.end
      invariant r == ContinueUnwind
      invariant goal == WalkTable(mem, header.classInfo, callSitePtr, header.end, header.encoding, pcOffset, thrown)
      decreases |mem| - callSitePtr
    {
      EntryAdvances(mem, callSitePtr, header.encoding);
      var entry := ReadEntry(mem, callSitePtr, header.encoding);
      if entry.BadEntry? { return Fault; }
      callSitePtr := entry.next;
      var actionEntry := if thrown.Foreign? then 0 else entry.action;
      if entry.landingPad == 0 {
        continue;
      }
      if actionEntry != 0 {
        actionEntry := actionEntry + header.end - 1;
      }
      if entry.start <= pcOffset < (entry.start + entry.length) % TWO64 {
        var matched := NoMatch;
        if actionEntry != 0 {
          matched := HandleActionValue(mem, header.classInfo, actionEntry, thrown.typ);
          if matched.BadChain? { return Fault; }
          if matched.Endless? { return NoAnswer; }
        }
        if !search {
          r := InstallContext(if matched.Match? then matched.index else 0, (funcStart + entry.landingPad) % TWO64);
        } else if matched.Match? {
          r := HandlerFound;
        }
        break;
      }
    }
  }

  /** Both phases agree on the same data: search finds a handler exactly when cleanup installs a
      selector other than 0; search goes on while cleanup installs selector 0 exactly when the first
      covering landing pad has no match; both go on exactly when no landing pad covers the pc. */
  lemma TwoPhasesAgree(mem: Memory, lsda: nat, pc: nat, thrown: Thrown, funcStart: nat)
    ensures var site := SiteOf(mem, lsda, pc, thrown);
            var search, cleanup := Answer(true, site, funcStart), Answer(false, site, funcStart);
            && (search == HandlerFound <==> cleanup.InstallContext? && cleanup.selector != 0)
            && (search == ContinueUnwind && cleanup.InstallContext? && cleanup.selector == 0 <==> site.Pad? && site.matched == NoMatch)
            && (search == ContinueUnwind && cleanup == ContinueUnwind <==> site == NoPad)
            && (search == Fault <==> cleanup == Fault)
            && (search == NoAnswer <==> cleanup == NoAnswer)
  {
    var header := HeaderAt(mem, lsda);
    if header.Header? {
      MatchesArePositive(mem, header.classInfo, header.table, header.end, header.encoding, pc, thrown);
    }
  }

  lemma {:induction false} MatchesArePositive(mem: Memory, classInfo: nat, p: nat, end: nat, encoding: Byte, pc: nat, thrown: Thrown)
    ensures var site := WalkTable(mem, classInfo, p, end, encoding, pc, thrown);
            site.Pad? && site.matched.Match? ==> site.matched.index > 0
    decreases |mem| - p
  {
    hide EntryAt, WalkChain;
    if p >= end {
    } else {
      var e := EntryAt(mem, p, encoding);
      if e.Entry? {
        EntryAdvances(mem, p, encoding);
        if thrown.Ours? && e.action != 0 {
          WalkFrom(mem, classInfo, thrown.typ, end + e.action - 1, 0, {});
        }
        MatchesArePositive(mem, classInfo, e.next, end, encoding, pc, thrown);
      }
    }
  }
}
