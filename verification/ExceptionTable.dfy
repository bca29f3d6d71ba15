/** The exception table the JIT emits for a function with one landing pad, and what the
    personality function makes of it. */
module ExceptionTable {
  import opened Sequences
  import opened Leb128
  import opened Personality

  // ----- variable length numbers, as they are written -----

  lemma OneByteOn(code: seq<Byte>, byte: Byte, rest: seq<Byte>)
    ensures code + ([byte] + rest) == (code + [byte]) + rest
  {
  }

  method EmitULEB128Bytes(value: nat) returns (code: seq<Byte>)
    ensures code == EncodeU(value)
  {
    code := [];
    var rest := value;
    while true
      invariant code + EncodeU(rest) == EncodeU(value)
      decreases rest
    {
      var byte := rest % 128;
      var more := rest / 128;
      if more == 0 {
        assert EncodeU(rest) == [byte];
        return code + [byte];
      }
      OneByteOn(code, byte + 128, EncodeU(more));
      code := code + [byte + 128];
      rest := more;
    }
  }

  /** `value & 0x7f`. */
  function Low7(value: int): Byte {
    value % 128
  }

  /** `value >>= 7`, which keeps the sign. */
  function Shift7(value: int): int {
    value / 128
  }

  method EmitSLEB128Bytes(value: int) returns (code: seq<Byte>)
    ensures code == EncodeS(value)
  {
    hide EncodeS, Low7, Shift7;
    code := [];
    var rest := value;
    var sign := if value < 0 then -1 else 0;
    while true
      invariant code + EncodeS(rest) == EncodeS(value)
      invariant rest < 0 <==> sign == -1
      decreases if rest < 0 then -rest else rest
    {
      var byte := Low7(rest);
      var more := Shift7(rest);
      var isMore := more != sign || (if sign == 0 then byte >= 64 else byte < 64);
      SignBitShown(rest);
      if !isMore {
        return code + [byte];
      }
      OneByteOn(code, byte + 128, EncodeS(more));
      code := code + [byte + 128];
      rest := more;
    }
  }

  /** A number is finished when what is left is its sign, and the last bit written shows it. */
  lemma SignBitShown(n: int)
    ensures n >= 0 ==> (n < 64 <==> Shift7(n) == 0 && Low7(n) < 64)
    ensures n < 0 ==> (-64 <= n <==> Shift7(n) == -1 && Low7(n) >= 64)
    ensures n < 0 <==> Shift7(n) < 0
    ensures n >= 64 ==> Shift7(n) < n
    ensures n < -64 ==> Shift7(n) > n
    ensures 0 <= Low7(n) < 128
    ensures EncodeS(n) == if -64 <= n < 64 then [Low7(n)] else [Low7(n) + 128] + EncodeS(Shift7(n))
  {
  }

  // ----- the action table -----

  /** A type id (0 for a cleanup), and the distance from the second field to the next record. */
  datatype ActionEntry = ActionEntry(valueForTypeID: nat, nextAction: int)

  function EntrySize(e: ActionEntry): nat {
    |EncodeS(e.valueForTypeID)| + |EncodeS(e.nextAction)|
  }

  function Front<T>(s: seq<T>): seq<T>
    requires s != []
  {
    s[..|s| - 1]
  }

  function Last<T>(s: seq<T>): T
    requires s != []
  {
    s[|s| - 1]
  }

  /** One record for each type id; each links back to the record before it. */
  function Entries(ids: seq<nat>): (r: seq<ActionEntry>)
    ensures |r| == |ids|
  {
    if ids == [] then []
    else
      var before := Entries(Front(ids));
      var link := if before == [] then 0 else -(EntrySize(Last(before)) + |EncodeS(Last(ids))|);
      before + [ActionEntry(Last(ids), link)]
  }

  function ActionBytes(entries: seq<ActionEntry>): seq<Byte> {
    if entries == [] then []
    else
      var e := Last(entries);
      ActionBytes(Front(entries)) + (EncodeS(e.valueForTypeID) + EncodeS(e.nextAction))
  }

  /** Where the chain of a landing pad starts: the 1-based position of its last record. */
  function FirstAction(ids: seq<nat>): (r: nat)
    ensures r == 0 <==> ids == []
  {
    if ids == [] then 0 else |ActionBytes(Entries(Front(ids)))| + 1
  }

  lemma FrontOfAppend<T>(s: seq<T>, x: T)
    ensures Front(s + [x]) == s && Last(s + [x]) == x
  {
  }

  /** The record of one more id, when the record before it takes `size` bytes (0 if it is the first). */
  function NextEntry(id: nat, size: nat): ActionEntry {
    ActionEntry(id, if size != 0 then -(size + |EncodeS(id)|) else 0)
  }

  lemma OneMoreRecord(ids: seq<nat>, id: nat, size: nat)
    requires size == if ids == [] then 0 else EntrySize(Last(Entries(ids)))
    ensures var e := NextEntry(id, size);
            && Entries(ids + [id]) == Entries(ids) + [e]
            && |ActionBytes(Entries(ids) + [e])| == |ActionBytes(Entries(ids))| + EntrySize(e)
            && FirstAction(ids + [id]) == |ActionBytes(Entries(ids))| + 1
  {
    FrontOfAppend(ids, id);
    FrontOfAppend(Entries(ids), NextEntry(id, size));
  }

  /** Computes the records of the only landing pad. */
  method ComputeActions(typeIds: seq<nat>) returns (actions: seq<ActionEntry>, firstAction: nat)
    ensures actions == Entries(typeIds) && firstAction == FirstAction(typeIds)
  {
    hide EncodeS, Entries, ActionBytes, FirstAction;
    actions := [];
    var sizeAction, sizeSiteActions: nat := 0, 0;
    var i := 0;
    firstAction := 0;
    NoRecords();
    while i < |typeIds|
      invariant 0 <= i <= |typeIds|
      invariant actions == Entries(typeIds[..i])
      invariant sizeAction == if i == 0 then 0 else EntrySize(Last(actions))
      invariant sizeSiteActions == |ActionBytes(actions)|
      invariant i > 0 ==> sizeSiteActions - sizeAction + 1 == FirstAction(typeIds[..i])
    {
      assert typeIds[..i + 1] == typeIds[..i] + [typeIds[i]];
      OneMoreRecord(typeIds[..i], typeIds[i], sizeAction);
      var typeID := typeIds[i];
      var sizeTypeID := |EncodeS(typeID)|;
      var nextAction := if sizeAction != 0 then -(sizeAction + sizeTypeID) else 0;
      sizeAction := sizeTypeID + |EncodeS(nextAction)|;
      sizeSiteActions := sizeSiteActions + sizeAction;
      actions := actions + [ActionEntry(typeID, nextAction)];
      i := i + 1;
    }
    assert typeIds[..i] == typeIds;
    if typeIds != [] {
      firstAction := sizeSiteActions - sizeAction + 1;
    }
  }

  lemma NoRecords()
    ensures Entries([]) == [] && ActionBytes([]) == []
  {
  }

  method EmitActions(actions: seq<ActionEntry>) returns (code: seq<Byte>)
    ensures code == ActionBytes(actions)
  {
    code := [];
    var i := 0;
    while i < |actions|
      invariant 0 <= i <= |actions| && code == ActionBytes(actions[..i])
    {
      var value := EmitSLEB128Bytes(actions[i].valueForTypeID);
      var next := EmitSLEB128Bytes(actions[i].nextAction);
      assert actions[..i + 1] == actions[..i] + [actions[i]];
      FrontOfAppend(actions[..i], actions[i]);
      code := code + (value + next);
      i := i + 1;
    }
    assert actions[..i] == actions;
  }

  // ----- reading the action table back -----

  lemma CodeSplit(mem: Memory, p: nat, a: seq<Byte>, b: seq<Byte>)
    requires CodeAt(mem, p, a + b)
    ensures CodeAt(mem, p, a) && CodeAt(mem, p + |a|, b)
  {
    var all := mem[p..p + |a + b|];
    assert all[..|a|] == a && all[|a|..] == b;
    assert mem[p..p + |a|] == all[..|a|];
    assert mem[p + |a|..p + |a| + |b|] == all[|a|..];
  }

  lemma CodeByte(mem: Memory, p: nat, code: seq<Byte>, i: nat)
    requires CodeAt(mem, p, code) && i < |code|
    ensures p + i < |mem| && mem[p + i] == code[i]
  {
    assert mem[p..p + |code|][i] == code[i];
  }

  /** A number in the range that survives decoding. */
  predicate Readable(n: int) {
    -0x800_0000 <= n < TWO31
  }

  lemma ReadBack(mem: Memory, p: nat, n: int)
    requires CodeAt(mem, p, EncodeS(n)) && Readable(n)
    ensures SignedFrom(mem, p, 0) == Defined(Unsigned64(n), p + |EncodeS(n)|)
    ensures Signed64(Unsigned64(n)) == n && (Unsigned64(n) == 0 <==> n == 0)
  {
    hide SignedFrom, EncodeS, CodeAt;
    SignedOfEncoding(mem, p, n, 0);
  }

  predicate ReadableIds(ids: seq<nat>) {
    forall i :: 0 <= i < |ids| ==> ids[i] < TWO31
  }

  lemma CodeLength(n: int)
    requires Readable(n)
    ensures 1 <= |EncodeS(n)| <= 5 && (-64 <= n < 64 ==> |EncodeS(n)| == 1)
  {
    var n1 := n / 128;
    var n2 := n1 / 128;
    var n3 := n2 / 128;
    var n4 := n3 / 128;
    assert -64 <= n4 < 64;
    assert |EncodeS(n4)| == 1;
    assert |EncodeS(n3)| <= 2;
    assert |EncodeS(n2)| <= 3;
    assert |EncodeS(n1)| <= 4;
  }

  /** Links reach back over one record, so they are small. */
  lemma LinksAreShort(ids: seq<nat>)
    requires ids != [] && ReadableIds(ids)
    ensures var e := Last(Entries(ids)); -11 <= e.nextAction <= 0 && 2 <= EntrySize(e) <= 6
  {
    CodeLength(Last(ids));
    if |ids| == 1 {
    } else {
      LinksAreShort(Front(ids));
    }
    CodeLength(Last(Entries(ids)).nextAction);
  }

  /** The last record of the table, as the personality reads it. */
  lemma LastRecord(mem: Memory, base: nat, ids: seq<nat>)
    requires ids != [] && ReadableIds(ids) && CodeAt(mem, base, ActionBytes(Entries(ids)))
    ensures var a := ActionAt(mem, base + FirstAction(ids) - 1);
            && a.Action? && a.typeOffset == Last(ids) && (a.hasNext <==> |ids| > 1)
            && (|ids| > 1 ==> a.next == base + FirstAction(Front(ids)) - 1)
    ensures CodeAt(mem, base, ActionBytes(Entries(Front(ids))))
    ensures FirstAction(ids) - 1 == |ActionBytes(Entries(Front(ids)))| < |ActionBytes(Entries(ids))|
  {
    hide ActionAt, CodeAt, EncodeS, Entries, ActionBytes, FirstAction;
    var e := Last(Entries(ids));
    var before := ActionBytes(Entries(Front(ids)));
    TableShape(ids);
    CodeSplit(mem, base, before, EncodeS(e.valueForTypeID) + EncodeS(e.nextAction));
    var pos := base + |before|;
    CodeSplit(mem, pos, EncodeS(e.valueForTypeID), EncodeS(e.nextAction));
    LinksAreShort(ids);
    RecordRead(mem, pos, e.valueForTypeID, e.nextAction);
    if |ids| > 1 {
      LinkBack(ids);
    }
  }

  lemma TableShape(ids: seq<nat>)
    requires ids != []
    ensures var e := Last(Entries(ids));
            var before := ActionBytes(Entries(Front(ids)));
            && e.valueForTypeID == Last(ids) && (|ids| == 1 ==> e.nextAction == 0)
            && ActionBytes(Entries(ids)) == before + (EncodeS(e.valueForTypeID) + EncodeS(e.nextAction))
            && FirstAction(ids) - 1 == |before|
  {
    var before := Entries(Front(ids));
    var e := Last(Entries(ids));
    assert Entries(ids) == before + [e];
    FrontOfAppend(before, e);
  }

  /** A record that is written: its type id, with an id below 0 for a filter, and its link. */
  lemma RecordRead(mem: Memory, pos: nat, value: int, next: int)
    requires CodeAt(mem, pos, EncodeS(value)) && CodeAt(mem, pos + |EncodeS(value)|, EncodeS(next))
    requires Readable(value) && Readable(next)
    ensures ActionAt(mem, pos) == if value < 0 then BadAction else Action(value, next != 0, pos + |EncodeS(value)| + next)
  {
    hide SignedFrom, EncodeS, CodeAt, Unsigned64, Signed64;
    ReadBack(mem, pos, value);
    ReadBack(mem, pos + |EncodeS(value)|, next);
  }

  lemma LinkBack(ids: seq<nat>)
    requires |ids| > 1
    ensures FirstAction(ids) - 1 + |EncodeS(Last(ids))| + Last(Entries(ids)).nextAction == FirstAction(Front(ids)) - 1
    ensures Last(Entries(ids)).nextAction != 0
  {
    var front := Front(ids);
    var before := Entries(front);
    assert before == Entries(Front(front)) + [Last(before)];
    FrontOfAppend(Entries(Front(front)), Last(before));
  }

  /** Searching a list of type ids from its end, where the walk starts. */
  function SearchIds(mem: Memory, classInfo: nat, typ: nat, ids: seq<nat>, i: nat): Chain {
    if ids == [] then NoMatch
    else
      var id := Last(ids);
      if id > 0 && TypeAt(mem, classInfo, id).Undefined? then BadChain
      else if id > 0 && TypeAt(mem, classInfo, id).value == typ then Match(i + 1)
      else SearchIds(mem, classInfo, typ, Front(ids), i + 1)
  }

  lemma {:induction false} WalkIsSearch(mem: Memory, classInfo: nat, typ: nat, base: nat, ids: seq<nat>, i: nat, seen: set<nat>)
    requires ids != [] && ReadableIds(ids) && CodeAt(mem, base, ActionBytes(Entries(ids)))
    requires forall x :: x in seen ==> x >= base + |ActionBytes(Entries(ids))|
    ensures WalkChain(mem, classInfo, typ, base + FirstAction(ids) - 1, i, seen) == SearchIds(mem, classInfo, typ, ids, i)
    decreases |ids|
  {
    hide ActionAt, TypeAt, Entries, ActionBytes, FirstAction;
    LastRecord(mem, base, ids);
    var pos := base + FirstAction(ids) - 1;
    assert pos !in seen;
    if |ids| > 1 {
      assert ReadableIds(Front(ids));
      WalkIsSearch(mem, classInfo, typ, base, Front(ids), i + 1, seen + {base + FirstAction(ids) - 1});
    } else {
      assert Front(ids) == [];
    }
  }

  // ----- the selector's order -----

  function Reversed(s: seq<nat>): (r: seq<nat>)
    ensures |r| == |s|
  {
    if s == [] then [] else Reversed(s[1..]) + [s[0]]
  }

  /** The ids of a landing pad whose selector lists the given catches and then a cleanup:
      they are collected from the selector's last argument to its first. */
  function CollectedIds(catches: seq<nat>): seq<nat> {
    [0] + Reversed(catches)
  }

  /** The ids that the emitter is given: a cleanup alone is the same as no id at all. */
  function PadIds(catches: seq<nat>): (r: seq<nat>)
    ensures r == [] <==> catches == []
  {
    if |CollectedIds(catches)| == 1 && CollectedIds(catches)[0] == 0 then [] else CollectedIds(catches)
  }

  /** The 1-based position of the first catch whose type info has the given number. */
  function FirstCatch(types: seq<nat>, typ: nat, i: nat): Chain {
    if types == [] then NoMatch
    else if types[0] == typ then Match(i + 1)
    else FirstCatch(types[1..], typ, i + 1)
  }

  /** What a list of catches makes of a thrown exception. */
  function CaughtHere(types: seq<nat>, thrown: Thrown): Chain {
    if thrown.Foreign? then NoMatch else FirstCatch(types, thrown.typ, 0)
  }

  /** The type numbers of the catches, as the personality reads them below classInfo. */
  ghost predicate TypesAre(mem: Memory, classInfo: nat, catches: seq<nat>, types: seq<nat>) {
    && |catches| == |types|
    && forall k :: 0 <= k < |catches| ==>
         1 <= catches[k] < TWO31 && TypeAt(mem, classInfo, catches[k]).Defined? && TypeAt(mem, classInfo, catches[k]).value == types[k]
  }

  lemma {:induction false} SearchInOrder(mem: Memory, classInfo: nat, typ: nat, catches: seq<nat>, types: seq<nat>, i: nat)
    requires TypesAre(mem, classInfo, catches, types)
    ensures SearchIds(mem, classInfo, typ, CollectedIds(catches), i) == FirstCatch(types, typ, i)
    decreases |catches|
  {
    hide TypeAt;
    if catches == [] {
      assert CollectedIds(catches) == [0];
      assert SearchIds(mem, classInfo, typ, Front([0]), i + 1) == NoMatch;
    } else {
      assert CollectedIds(catches) == CollectedIds(catches[1..]) + [catches[0]];
      FrontOfAppend(CollectedIds(catches[1..]), catches[0]);
      SearchInOrder(mem, classInfo, typ, catches[1..], types[1..], i + 1);
    }
  }

  lemma {:induction false} ReversedIn(s: seq<nat>, k: nat)
    requires k < |s|
    ensures Reversed(s)[k] == s[|s| - 1 - k]
  {
    if k == |s| - 1 {
    } else {
      ReversedIn(s[1..], k);
      assert Reversed(s)[k] == Reversed(s[1..])[k];
    }
  }

  lemma CollectedIdsReadable(mem: Memory, classInfo: nat, catches: seq<nat>, types: seq<nat>)
    requires TypesAre(mem, classInfo, catches, types)
    ensures ReadableIds(CollectedIds(catches))
  {
    hide TypeAt;
    var ids := CollectedIds(catches);
    forall i | 0 <= i < |ids| ensures ids[i] < TWO31 {
      if i > 0 {
        ReversedIn(catches, i - 1);
        assert ids[i] == catches[|catches| - i];
      }
    }
  }

  /** What the landing pad's action means, when the emitted records stand at base: the position,
      in the selector, of the first catch that lists the thrown type, and no match exactly when
      none does. Without catches there are no records, and no action. */
  lemma EmittedActionsSearchInOrder(mem: Memory, classInfo: nat, thrown: Thrown, base: nat, catches: seq<nat>, types: seq<nat>)
    requires CodeAt(mem, base, ActionBytes(Entries(PadIds(catches)))) && TypesAre(mem, classInfo, catches, types)
    ensures MatchAction(mem, classInfo, base, FirstAction(PadIds(catches)), thrown) == CaughtHere(types, thrown)
  {
    hide Entries, ActionBytes, FirstAction, WalkChain, SearchIds, TypesAre, ReadableIds, CodeAt, Reversed;
    if thrown.Ours? {
      if catches == [] {
        NoTypes(mem, classInfo, catches, types);
        assert FirstAction(PadIds(catches)) == 0;
      } else {
        hide FirstCatch;
        CollectedIdsReadable(mem, classInfo, catches, types);
        WalkIsSearch(mem, classInfo, thrown.typ, base, PadIds(catches), 0, {});
        SearchInOrder(mem, classInfo, thrown.typ, catches, types, 0);
      }
    }
  }

  lemma NoTypes(mem: Memory, classInfo: nat, catches: seq<nat>, types: seq<nat>)
    requires TypesAre(mem, classInfo, catches, types) && catches == []
    ensures types == []
  {
  }

  // ----- the whole table -----

  /** A call site: its range in the function, its landing pad (0 for none), and its action. */
  datatype CallSite = CallSite(start: nat, length: nat, pad: nat, action: nat)

  function FixedBytes(v: nat, n: nat): (r: seq<Byte>)
    ensures |r| == n
  {
    if n == 0 then [] else [v % 256] + FixedBytes(v / 256, n - 1)
  }

  function SiteBytes(s: CallSite): seq<Byte> {
    FixedBytes(s.start, 4) + (FixedBytes(s.length, 4) + (FixedBytes(s.pad, 4) + EncodeU(s.action)))
  }

  function SitesBytes(sites: seq<CallSite>): seq<Byte> {
    if sites == [] then [] else SiteBytes(sites[0]) + SitesBytes(sites[1..])
  }

  /** Type info pointers, the first one last. */
  function TypesBytes(typeInfos: seq<nat>): seq<Byte> {
    if typeInfos == [] then [] else TypesBytes(typeInfos[1..]) + FixedBytes(typeInfos[0], 8)
  }

  /** The table: no landing pad base, plain type info pointers and where they end, 4-byte call
      sites and how many bytes they take; then call sites, actions and type infos. */
  function TableBytes(sites: seq<CallSite>, actions: seq<Byte>, typeInfos: seq<nat>): seq<Byte> {
    var sized := EncodeU(|SitesBytes(sites)|);
    var body := SitesBytes(sites) + (actions + TypesBytes(typeInfos));
    [DW_EH_PE_OMIT, 0x00] + (EncodeU(1 + |sized| + |body|) + ([0x03] + (sized + body)))
  }

  method EmitFixed(value: nat, n: nat) returns (code: seq<Byte>)
    ensures code == FixedBytes(value, n)
  {
    code := [];
    var rest := value;
    var i := 0;
    while i < n
      invariant 0 <= i <= n && code + FixedBytes(rest, n - i) == FixedBytes(value, n)
    {
      OneByteOn(code, rest % 256, FixedBytes(rest / 256, n - i - 1));
      code := code + [rest % 256];
      rest := rest / 256;
      i := i + 1;
    }
  }

  method EmitCallSites(sites: seq<CallSite>) returns (code: seq<Byte>)
    ensures code == SitesBytes(sites)
  {
    code := [];
    var i := 0;
    while i < |sites|
      invariant 0 <= i <= |sites| && code + SitesBytes(sites[i..]) == SitesBytes(sites)
    {
      var start := EmitFixed(sites[i].start, 4);
      var length := EmitFixed(sites[i].length, 4);
      var pad := EmitFixed(sites[i].pad, 4);
      var action := EmitULEB128Bytes(sites[i].action);
      var one := start + (length + (pad + action));
      assert sites[i..][1..] == sites[i + 1..];
      assert code + (one + SitesBytes(sites[i + 1..])) == (code + one) + SitesBytes(sites[i + 1..]);
      code := code + one;
      i := i + 1;
    }
  }

  method EmitTypeInfos(typeInfos: seq<nat>) returns (code: seq<Byte>)
    ensures code == TypesBytes(typeInfos)
  {
    code := [];
    var m := |typeInfos|;
    while m != 0
      invariant 0 <= m <= |typeInfos| && code == TypesBytes(typeInfos[m..])
    {
      assert typeInfos[m - 1..][1..] == typeInfos[m..];
      var pointer := EmitFixed(typeInfos[m - 1], 8);
      code := code + pointer;
      m := m - 1;
    }
    assert typeInfos[0..] == typeInfos;
  }

  /** The table of a function with one landing pad: every call site either has no pad, or the
      pad's address and the start of its action chain. */
  method EmitExceptionTable(sites: seq<CallSite>, typeIds: seq<nat>, typeInfos: seq<nat>) returns (code: seq<Byte>, firstAction: nat)
    ensures firstAction == FirstAction(typeIds)
    ensures code == TableBytes(SitesFor(sites, firstAction), ActionBytes(Entries(typeIds)), typeInfos)
  {
    var actions;
    actions, firstAction := ComputeActions(typeIds);
    var siteCode := EmitCallSites(SitesFor(sites, firstAction));
    var actionCode := EmitActions(actions);
    var typeCode := EmitTypeInfos(typeInfos);
    var sized := EmitULEB128Bytes(|siteCode|);
    var typeOffset := EmitULEB128Bytes(1 + |sized| + |siteCode + (actionCode + typeCode)|);
    code := [DW_EH_PE_OMIT, 0x00] + (typeOffset + ([0x03] + (sized + (siteCode + (actionCode + typeCode)))));
  }

  /** Fills in the action of every call site that has a landing pad. */
  function SitesFor(sites: seq<CallSite>, firstAction: nat): (r: seq<CallSite>)
    ensures |r| == |sites|
  {
    seq(|sites|, i requires 0 <= i < |sites| => sites[i].(action := if sites[i].pad == 0 then 0 else firstAction))
  }

  // ----- reading the whole table back -----

  function Pow256(n: nat): nat {
    if n == 0 then 1 else 256 * Pow256(n - 1)
  }

  lemma FixedReadBack(mem: Memory, p: nat, v: nat, n: nat)
    requires CodeAt(mem, p, FixedBytes(v, n)) && v < Pow256(n)
    ensures p + n <= |mem| && LittleEndian(mem, p, n) == v
    decreases n
  {
    if n == 0 {
    } else {
      CodeSplit(mem, p, [v % 256], FixedBytes(v / 256, n - 1));
      assert mem[p] == mem[p..p + 1][0];
      FixedReadBack(mem, p + 1, v / 256, n - 1);
    }
  }

  predicate SiteFits(s: CallSite) {
    s.start < 0x1_0000_0000 && s.length < 0x1_0000_0000 && s.pad < 0x1_0000_0000 && s.action < TWO31
  }

  lemma FourBytes()
    ensures Pow256(4) == 0x1_0000_0000
  {
    assert Pow256(4) == 256 * Pow256(3) == 65536 * Pow256(2);
  }

  lemma ReadFour(mem: Memory, p: nat, v: nat)
    requires CodeAt(mem, p, FixedBytes(v, 4)) && v < 0x1_0000_0000
    ensures EncodedPointer(mem, p, 0x03) == Got(v, p + 4)
  {
    FourBytes();
    hide FixedBytes, Pow256, CodeAt, LittleEndian;
    FixedReadBack(mem, p, v, 4);
  }

  lemma ReadUnsigned(mem: Memory, p: nat, v: nat)
    requires CodeAt(mem, p, EncodeU(v)) && v < TWO31
    ensures DigitsFrom(mem, p, 0) == Defined(v, p + |EncodeU(v)|)
  {
    DigitsOfEncoding(mem, p, v, 0);
  }

  lemma ReadSite(mem: Memory, p: nat, s: CallSite)
    requires CodeAt(mem, p, SiteBytes(s)) && SiteFits(s)
    ensures EntryAt(mem, p, 0x03) == Entry(s.start, s.length, s.pad, s.action, p + |SiteBytes(s)|)
  {
    hide CodeAt, EncodedPointer, FixedBytes, DigitsFrom, EncodeU;
    var action := EncodeU(s.action);
    var pad := FixedBytes(s.pad, 4) + action;
    var length := FixedBytes(s.length, 4) + pad;
    CodeSplit(mem, p, FixedBytes(s.start, 4), length);
    CodeSplit(mem, p + 4, FixedBytes(s.length, 4), pad);
    CodeSplit(mem, p + 8, FixedBytes(s.pad, 4), action);
    ReadFour(mem, p, s.start);
    ReadFour(mem, p + 4, s.length);
    ReadFour(mem, p + 8, s.pad);
    ReadUnsigned(mem, p + 12, s.action);
  }

  /** The first call site with a landing pad whose range holds the pc. */
  function Covering(sites: seq<CallSite>, pc: nat): (r: seq<CallSite>)
  {
    if sites == [] then []
    else if sites[0].pad != 0 && sites[0].start <= pc < sites[0].start + sites[0].length then [sites[0]]
    else Covering(sites[1..], pc)
  }

  predicate SitesFit(sites: seq<CallSite>) {
    forall i :: 0 <= i < |sites| ==> SiteFits(sites[i])
  }

  lemma {:induction false} WalkSites(mem: Memory, classInfo: nat, p: nat, sites: seq<CallSite>, pc: nat, thrown: Thrown)
    requires CodeAt(mem, p, SitesBytes(sites)) && SitesFit(sites)
    ensures var end := p + |SitesBytes(sites)|;
            var cover := Covering(sites, pc);
            WalkTable(mem, classInfo, p, end, 0x03, pc, thrown) ==
              if cover == [] then NoPad else Pad(cover[0].pad, MatchAction(mem, classInfo, end, cover[0].action, thrown))
    decreases |sites|
  {
    hide CodeAt, EntryAt, SiteBytes, MatchAction;
    if sites == [] {
    } else {
      var s := sites[0];
      CodeSplit(mem, p, SiteBytes(s), SitesBytes(sites[1..]));
      ReadSite(mem, p, s);
      EntryAdvances(mem, p, 0x03);
      assert (s.start + s.length) % TWO64 == s.start + s.length;
      WalkSites(mem, classInfo, p + |SiteBytes(s)|, sites[1..], pc, thrown);
    }
  }

  lemma {:induction false} TypesLength(typeInfos: seq<nat>)
    ensures |TypesBytes(typeInfos)| == 8 * |typeInfos|
  {
    if typeInfos == [] {
    } else {
      TypesLength(typeInfos[1..]);
    }
  }

  /** The k-th type info pointer stands k pointers before the end of the table. */
  lemma {:induction false} ReadTypeInfo(mem: Memory, p: nat, typeInfos: seq<nat>, k: nat)
    requires CodeAt(mem, p, TypesBytes(typeInfos)) && 1 <= k <= |typeInfos| && typeInfos[k - 1] < TWO64
    ensures var end := p + |TypesBytes(typeInfos)|;
            8 * k <= end && Load(mem, end - 8 * k, 8) == Defined(typeInfos[k - 1], end - 8 * k + 8)
    decreases k
  {
    hide CodeAt, FixedBytes, LittleEndian, Pow256;
    TypesLength(typeInfos);
    TypesLength(typeInfos[1..]);
    CodeSplit(mem, p, TypesBytes(typeInfos[1..]), FixedBytes(typeInfos[0], 8));
    if k == 1 {
      EightBytes();
      FixedReadBack(mem, p + |TypesBytes(typeInfos[1..])|, typeInfos[0], 8);
    } else {
      ReadTypeInfo(mem, p, typeInfos[1..], k - 1);
    }
  }

  lemma EightBytes()
    ensures Pow256(8) == TWO64
  {
    assert Pow256(2) == 0x10000;
    assert Pow256(4) == 0x1_0000_0000;
    assert Pow256(6) == 0x1_0000_0000_0000;
  }

  lemma {:induction false} CoveringWithAction(sites: seq<CallSite>, firstAction: nat, pc: nat)
    ensures var cover := Covering(sites, pc);
            Covering(SitesFor(sites, firstAction), pc) == if cover == [] then [] else [cover[0].(action := firstAction)]
    ensures Covering(sites, pc) != [] ==> Covering(sites, pc)[0].pad != 0
    decreases |sites|
  {
    if sites == [] {
    } else {
      CoveringWithAction(sites[1..], firstAction, pc);
      assert SitesFor(sites, firstAction)[1..] == SitesFor(sites[1..], firstAction);
    }
  }

  /** Where the call sites of an emitted table start. */
  function TableStart(lsda: nat, sites: seq<CallSite>, actions: seq<Byte>, typeInfos: seq<nat>): int {
    lsda + |TableBytes(sites, actions, typeInfos)| - |SitesBytes(sites)| - |actions| - |TypesBytes(typeInfos)|
  }

  /** The parts of an emitted table, each at its place. */
  lemma TableParts(mem: Memory, lsda: nat, sites: seq<CallSite>, actions: seq<Byte>, typeInfos: seq<nat>)
    returns (typeOffset: nat, q: nat)
    requires CodeAt(mem, lsda, TableBytes(sites, actions, typeInfos))
    ensures lsda + 1 < |mem| && mem[lsda] == DW_EH_PE_OMIT && mem[lsda + 1] == 0x00
    ensures CodeAt(mem, lsda + 2, EncodeU(typeOffset)) && q == lsda + 2 + |EncodeU(typeOffset)|
    ensures q + typeOffset == lsda + |TableBytes(sites, actions, typeInfos)|
    ensures |SitesBytes(sites)| <= typeOffset < |TableBytes(sites, actions, typeInfos)|
    ensures q < |mem| && mem[q] == 0x03 && CodeAt(mem, q + 1, EncodeU(|SitesBytes(sites)|))
    ensures TableStart(lsda, sites, actions, typeInfos) == q + 1 + |EncodeU(|SitesBytes(sites)|)|
    ensures CodeAt(mem, q + 1 + |EncodeU(|SitesBytes(sites)|)|, SitesBytes(sites) + (actions + TypesBytes(typeInfos)))
  {
    hide EncodeU, SitesBytes, TypesBytes, CodeAt;
    var sized := EncodeU(|SitesBytes(sites)|);
    var body := SitesBytes(sites) + (actions + TypesBytes(typeInfos));
    typeOffset := 1 + |sized| + |body|;
    var rest := [0x03] + (sized + body);
    CodeSplit(mem, lsda, [DW_EH_PE_OMIT, 0x00], EncodeU(typeOffset) + rest);
    CodeByte(mem, lsda, [DW_EH_PE_OMIT, 0x00], 0);
    CodeByte(mem, lsda, [DW_EH_PE_OMIT, 0x00], 1);
    CodeSplit(mem, lsda + 2, EncodeU(typeOffset), rest);
    q := lsda + 2 + |EncodeU(typeOffset)|;
    CodeSplit(mem, q, [0x03], sized + body);
    CodeByte(mem, q, [0x03], 0);
    CodeSplit(mem, q + 1, sized, body);
  }

  /** The header of an emitted table: it leads to the call sites, and classInfo is the table's end. */
  lemma ReadTableHeader(mem: Memory, lsda: nat, sites: seq<CallSite>, actions: seq<Byte>, typeInfos: seq<nat>)
    requires CodeAt(mem, lsda, TableBytes(sites, actions, typeInfos)) && |TableBytes(sites, actions, typeInfos)| < TWO31
    ensures var table := TableStart(lsda, sites, actions, typeInfos);
            var end := table + |SitesBytes(sites)|;
            && table >= 0
            && HeaderAt(mem, lsda) == Header(lsda + |TableBytes(sites, actions, typeInfos)|, 0x03, table, end)
            && CodeAt(mem, table, SitesBytes(sites))
            && CodeAt(mem, end, actions)
            && CodeAt(mem, end + |actions|, TypesBytes(typeInfos))
  {
    hide DigitsFrom, EncodeU, SitesBytes, TypesBytes, CodeAt, TableBytes, TableStart, HeaderAt;
    var typeOffset, q := TableParts(mem, lsda, sites, actions, typeInfos);
    var siteCode, typeCode := SitesBytes(sites), TypesBytes(typeInfos);
    var table: nat := TableStart(lsda, sites, actions, typeInfos);
    ReadUnsigned(mem, lsda + 2, typeOffset);
    ReadUnsigned(mem, q + 1, |siteCode|);
    HeaderValue(mem, lsda, typeOffset, q, |siteCode|, table);
    CodeSplit(mem, table, siteCode, actions + typeCode);
    CodeSplit(mem, table + |siteCode|, actions, typeCode);
  }

  lemma HeaderValue(mem: Memory, lsda: nat, typeOffset: nat, q: nat, length: nat, table: nat)
    requires lsda + 1 < |mem| && mem[lsda] == DW_EH_PE_OMIT && mem[lsda + 1] == 0x00
    requires DigitsFrom(mem, lsda + 2, 0) == Defined(typeOffset, q) && q < |mem| && mem[q] == 0x03
    requires DigitsFrom(mem, q + 1, 0) == Defined(length, table) && length < TWO31
    ensures HeaderAt(mem, lsda) == Header(q + typeOffset, 0x03, table, table + length)
  {
    hide DigitsFrom, PlainPointer;
    assert EncodedPointer(mem, lsda + 1, DW_EH_PE_OMIT) == Got(0, lsda + 1);
    hide EncodedPointer;
  }

  /** Each catch of the selector refers to a type info of the table, whose object in memory
      holds the type's number. */
  ghost predicate CatchesAre(mem: Memory, typeInfos: seq<nat>, catches: seq<nat>, types: seq<nat>) {
    && |catches| == |types| && |typeInfos| < TWO31
    && forall k :: 0 <= k < |catches| ==>
         && 1 <= catches[k] <= |typeInfos| && typeInfos[catches[k] - 1] < TWO64
         && typeInfos[catches[k] - 1] + 4 <= |mem| && LittleEndian(mem, typeInfos[catches[k] - 1], 4) == types[k]
  }

  lemma TypesRead(mem: Memory, p: nat, typeInfos: seq<nat>, catches: seq<nat>, types: seq<nat>)
    requires CodeAt(mem, p, TypesBytes(typeInfos)) && CatchesAre(mem, typeInfos, catches, types)
    ensures TypesAre(mem, p + |TypesBytes(typeInfos)|, catches, types)
  {
    forall k | 0 <= k < |catches|
      ensures var t := TypeAt(mem, p + |TypesBytes(typeInfos)|, catches[k]);
              1 <= catches[k] < TWO31 && t.Defined? && t.value == types[k]
    {
      hide TypesBytes, CodeAt, LittleEndian;
      ReadTypeInfo(mem, p, typeInfos, catches[k]);
    }
  }

  /** The emitted table of a function with one landing pad stands at lsda, and its fields are wide
      enough for what they hold. */
  ghost predicate TableAt(mem: Memory, lsda: nat, sites: seq<CallSite>, typeInfos: seq<nat>, catches: seq<nat>) {
    var ids := PadIds(catches);
    var all := SitesFor(sites, FirstAction(ids));
    var table := TableBytes(all, ActionBytes(Entries(ids)), typeInfos);
    CodeAt(mem, lsda, table) && |table| < TWO31 && SitesFit(all)
  }

  /** The emitter and the personality agree on whole tables. For a function whose landing pad has a
      selector that lists some catches, or none, and then a cleanup, the personality finds the first
      call site with a landing pad that covers the pc, and there the first catch that lists the
      thrown type. */
  lemma EmittedTableIsObeyed(mem: Memory, lsda: nat, sites: seq<CallSite>, typeInfos: seq<nat>,
                             catches: seq<nat>, types: seq<nat>, pc: nat, thrown: Thrown)
    requires TableAt(mem, lsda, sites, typeInfos, catches) && CatchesAre(mem, typeInfos, catches, types)
    ensures var cover := Covering(sites, pc);
            SiteOf(mem, lsda, pc, thrown) == if cover == [] then NoPad else Pad(cover[0].pad, CaughtHere(types, thrown))
  {
    hide CodeAt, HeaderAt, WalkTable, MatchAction, SitesFor, SitesBytes, TypesBytes, TableBytes, Entries, ActionBytes,
         TypeAt, Covering, PadIds, CaughtHere, FirstAction;
    var ids := PadIds(catches);
    var actions := ActionBytes(Entries(ids));
    var all := SitesFor(sites, FirstAction(ids));
    ReadTableHeader(mem, lsda, all, actions, typeInfos);
    var header := HeaderAt(mem, lsda);
    WalkSites(mem, header.classInfo, header.table, all, pc, thrown);
    CoveringWithAction(sites, FirstAction(ids), pc);
    TypesRead(mem, header.end + |actions|, typeInfos, catches, types);
    EmittedActionsSearchInOrder(mem, header.classInfo, thrown, header.end, catches, types);
  }

  // ----- the call that threw -----

  /** The call that returns to ip lies in the site's range, in the function that starts at `start`,
      and the site has a landing pad. */
  predicate Guards(s: CallSite, start: nat, ip: nat) {
    s.pad != 0 && start + s.start < ip <= start + s.start + s.length
  }

  ghost predicate FirstGuard(sites: seq<CallSite>, start: nat, ip: nat, k: nat) {
    k < |sites| && Guards(sites[k], start, ip) && forall j :: 0 <= j < k ==> !Guards(sites[j], start, ip)
  }

  ghost predicate NoGuard(sites: seq<CallSite>, start: nat, ip: nat) {
    forall j :: 0 <= j < |sites| ==> !Guards(sites[j], start, ip)
  }

  /** The function lies inside the address space. */
  predicate Addressable(sites: seq<CallSite>, start: nat, ip: nat) {
    ip < TWO64 && forall i :: 0 <= i < |sites| ==> start + sites[i].start + sites[i].length < TWO64
  }

  lemma {:induction false} CoveringGuards(sites: seq<CallSite>, start: nat, ip: nat, k: nat)
    requires Addressable(sites, start, ip)
    ensures FirstGuard(sites, start, ip, k) ==> Covering(sites, PcOffset(ip, start)) == [sites[k]]
    ensures NoGuard(sites, start, ip) ==> Covering(sites, PcOffset(ip, start)) == []
    decreases |sites|
  {
    hide PcOffset;
    if sites == [] {
    } else {
      CallInRange(ip, start, sites[0].start, sites[0].length);
      if !Guards(sites[0], start, ip) {
        assert Addressable(sites[1..], start, ip);
        CoveringGuards(sites[1..], start, ip, if k > 0 then k - 1 else 0);
      }
    }
  }

  /** The personality's answer for a landing pad whose selector lists the types. */
  function ByCatches(search: bool, types: seq<nat>, thrown: Thrown, padAddress: nat): Reason {
    match CaughtHere(types, thrown)
    case Match(i) => if search then HandlerFound else InstallContext(i, padAddress)
    case _ => if search then ContinueUnwind else InstallContext(0, padAddress)
  }

  /** Whoever calls and wherever the function stands: with an emitted table, a call inside a guarded
      range is handled by the first site that guards it, with the first catch that lists the thrown
      type; for any other call the personality goes on. */
  lemma EmittedCallIsHandled(mem: Memory, lsda: nat, sites: seq<CallSite>, typeInfos: seq<nat>, catches: seq<nat>, types: seq<nat>,
                             search: bool, thrown: Thrown, ip: nat, start: nat, k: nat)
    requires lsda != 0 && TableAt(mem, lsda, sites, typeInfos, catches) && CatchesAre(mem, typeInfos, catches, types)
    requires Addressable(sites, start, ip)
    ensures FirstGuard(sites, start, ip, k) ==>
              LsdaAnswer(mem, lsda, search, thrown, ip, start) == ByCatches(search, types, thrown, (start + sites[k].pad) % TWO64)
    ensures NoGuard(sites, start, ip) ==> LsdaAnswer(mem, lsda, search, thrown, ip, start) == ContinueUnwind
  {
    hide SiteOf, Covering, CatchesAre, TableAt, FirstCatch, PcOffset, Addressable;
    EmittedTableIsObeyed(mem, lsda, sites, typeInfos, catches, types, PcOffset(ip, start), thrown);
    CoveringGuards(sites, start, ip, k);
    if thrown.Ours? { FirstCatchPositive(types, thrown.typ, 0); }
  }

  lemma FirstCatchPositive(types: seq<nat>, typ: nat, i: nat)
    ensures var r := FirstCatch(types, typ, i);
            (r.Match? ==> i < r.index <= i + |types|) && !r.BadChain? && !r.Endless?
  {
  }
}
