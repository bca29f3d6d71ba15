/** The compiled function as a control flow graph in SSA form. */
module BrainFWellFormed {
  import opened BrainFSource
  import opened BrainFIR
  import opened BrainFCodeGen

  // ----- registers and edges -----

  predicate HasDst(i: Instr) {
    !i.Memset? && !i.Free? && !i.Store? && !i.PutChar? && !i.PutsError? && !IsTerminator(i)
  }

  function DefOf(i: Instr): set<Reg> {
    if HasDst(i) then {i.dst} else {}
  }

  /** The registers an instruction reads; a phi reads on the edge it is entered by. */
  function Uses(i: Instr): set<Reg> {
    match i
    case Memset(ptr, _, _) => {ptr}
    case Free(ptr) => {ptr}
    case Gep(_, ptr, _) => {ptr}
    case Load(_, ptr) => {ptr}
    case Store(src, ptr) => {src, ptr}
    case AddI8(_, src, _) => {src}
    case Trunc(_, src) => {src}
    case SExt(_, src) => {src}
    case ICmpUGE(_, a, b) => {a, b}
    case ICmpULT(_, a, b) => {a, b}
    case ICmpEQ(_, a, _) => {a}
    case Or(_, a, b) => {a, b}
    case PutChar(src) => {src}
    case CondBr(cond, _, _) => {cond}
    case _ => {}
  }

  function Targets(i: Instr): set<Label> {
    match i
    case Br(target) => {target}
    case CondBr(_, ifTrue, ifFalse) => {ifTrue, ifFalse}
    case _ => {}
  }

  function Succ(code: Block): set<Label> {
    if code == [] then {} else Targets(code[|code| - 1])
  }

  function Defs(code: Block): set<Reg> {
    if code == [] then {} else Defs(code[..|code| - 1]) + DefOf(code[|code| - 1])
  }

  predicate Edge(f: Function, a: Label, b: Label) {
    a < |f| && b in Succ(f[a])
  }

  /** No terminator, and a phi only in front. */
  predicate Straight(code: Block) {
    forall i :: 0 <= i < |code| ==> !IsTerminator(code[i]) && (code[i].Phi? ==> i == 0)
  }

  /** Exactly one terminator, at the end. */
  predicate Ended(code: Block) {
    code != [] && IsTerminator(code[|code| - 1]) && Straight(code[..|code| - 1])
  }

  predicate NoPhi(code: Block) {
    code != [] ==> !code[0].Phi?
  }

  // ----- a certificate: registers that are defined whenever a block is entered -----

  type Avail = seq<set<Reg>>

  ghost predicate UsesOk(code: Block, avail: set<Reg>) {
    forall i :: 0 <= i < |code| ==> Uses(code[i]) <= avail + Defs(code[..i])
  }

  /** An edge into block b gives its phi the value of register r. */
  ghost predicate GivenBy(f: Function, avail: Avail, b: Label, edge: (Reg, Label)) {
    Edge(f, edge.1, b) && edge.1 < |avail| && edge.0 in avail[edge.1] + Defs(f[edge.1])
  }

  /** The incoming edges of a phi in block b are exactly the edges into b, one each. */
  ghost predicate Incomings(f: Function, avail: Avail, b: Label, incoming: seq<(Reg, Label)>) {
    && 1 <= |incoming| <= 2 && (|incoming| == 2 ==> incoming[0].1 != incoming[1].1)
    && (forall k :: 0 <= k < |incoming| ==> GivenBy(f, avail, b, incoming[k]))
    && forall a: Label :: Edge(f, a, b) ==> a == incoming[0].1 || a == incoming[|incoming| - 1].1
  }

  ghost predicate PhiOk(f: Function, avail: Avail, b: Label)
    requires b < |f|
  {
    f[b] != [] && f[b][0].Phi? ==> Incomings(f, avail, b, f[b][0].incoming)
  }

  /** No edge leads back to the entry block, and none loses an available register. */
  ghost predicate EdgesOk(f: Function, avail: Avail) {
    forall a: Label, b: Label :: Edge(f, a, b) ==> 0 < b < |f| && a < |avail| && b < |avail| && avail[b] <= avail[a] + Defs(f[a])
  }

  predicate DefAt(f: Function, b: Label, i: nat, r: Reg) {
    b < |f| && i < |f[b]| && r in DefOf(f[b][i])
  }

  /** Every register below `unused` has at most one definition, the others have none. */
  ghost predicate SingleDefs(f: Function, unused: Reg) {
    && (forall b: Label, i: nat, r: Reg :: DefAt(f, b, i, r) ==> r < unused)
    && forall b: Label, i: nat, c: Label, j: nat, r: Reg :: DefAt(f, b, i, r) && DefAt(f, c, j, r) ==> b == c && i == j
  }

  /** The function as far as it is built: the blocks in `loose` have not been ended. */
  ghost predicate Partial(f: Function, avail: Avail, loose: set<Label>, unused: Reg) {
    && 0 < |f| == |avail| && avail[0] == {} && (forall b :: b in loose ==> b < |f|)
    && (forall b :: 0 <= b < |f| ==> if b in loose then Straight(f[b]) else Ended(f[b]))
    && (forall b :: 0 <= b < |f| ==> UsesOk(f[b], avail[b]))
    && (forall b :: 0 <= b < |f| ==> PhiOk(f, avail, b))
    && EdgesOk(f, avail) && SingleDefs(f, unused)
  }

  // ----- the builder's operations keep it -----

  lemma DefsAppend(code: Block, i: Instr)
    ensures Defs(code + [i]) == Defs(code) + DefOf(i)
    ensures Succ(code + [i]) == Targets(i)
  {
    assert (code + [i])[..|code|] == code;
  }

  lemma StraightIsOpen(code: Block)
    requires Straight(code)
    ensures Succ(code) == {}
  {
  }

  lemma UsesAppend(code: Block, i: Instr, avail: set<Reg>)
    requires UsesOk(code, avail) && Uses(i) <= avail + Defs(code)
    ensures UsesOk(code + [i], avail)
  {
    hide Uses, Defs;
    var more := code + [i];
    forall k | 0 <= k < |more| ensures Uses(more[k]) <= avail + Defs(more[..k]) {
      assert more[..k] == code[..k];
      assert k == |code| ==> code[..k] == code;
    }
  }

  lemma DefsStaySingle(f: Function, unused: Reg, b: Label, i: Instr)
    requires SingleDefs(f, unused) && b < |f| && (HasDst(i) ==> i.dst == unused)
    ensures SingleDefs(f[b := f[b] + [i]], if HasDst(i) then unused + 1 else unused)
  {
    var g := f[b := f[b] + [i]];
    forall c: Label, j: nat, r: Reg | DefAt(g, c, j, r) ensures DefAt(f, c, j, r) || (c == b && j == |f[b]| && r == unused && HasDst(i)) {
    }
  }

  /** An instruction other than a phi or a terminator. */
  lemma PutKeeps(f: Function, avail: Avail, loose: set<Label>, unused: Reg, b: Label, i: Instr)
    requires Partial(f, avail, loose, unused) && b in loose
    requires !i.Phi? && !IsTerminator(i) && (HasDst(i) ==> i.dst == unused) && Uses(i) <= avail[b] + Defs(f[b])
    ensures Partial(f[b := f[b] + [i]], avail, loose, if HasDst(i) then unused + 1 else unused)
    ensures Defs(f[b := f[b] + [i]][b]) == Defs(f[b]) + DefOf(i)
  {
    hide Uses, DefOf, Defs, SingleDefs, UsesOk, Succ;
    var g := f[b := f[b] + [i]];
    DefsStaySingle(f, unused, b, i);
    DefsAppend(f[b], i);
    StraightIsOpen(f[b]);
    StraightIsOpen(g[b]);
    UsesAppend(f[b], i, avail[b]);
    forall a: Label, c: Label ensures Edge(g, a, c) <==> Edge(f, a, c) {
    }
    forall c | 0 <= c < |g| ensures PhiOk(g, avail, c) {
      SamePhi(f, g, avail, c);
    }
  }

  /** Changes to blocks that are no sources of edges change no phi of another block. */
  lemma SamePhi(f: Function, g: Function, avail: Avail, c: Label)
    requires |f| == |g| && c < |f| && PhiOk(f, avail, c)
    requires forall x :: 0 <= x < |f| && Succ(f[x]) != {} ==> f[x] == g[x]
    requires forall a: Label :: Edge(g, a, c) <==> Edge(f, a, c)
    requires if f[c] == [] then NoPhi(g[c]) else g[c] != [] && g[c][0] == f[c][0]
    ensures PhiOk(g, avail, c)
  {
    hide Succ, Defs;
    if g[c] != [] && g[c][0].Phi? {
      var incoming := f[c][0].incoming;
      forall k | 0 <= k < |incoming| ensures GivenBy(g, avail, c, incoming[k]) {
        assert GivenBy(f, avail, c, incoming[k]);
      }
    }
  }

  /** A terminator whose targets have no phi. */
  lemma EndKeeps(f: Function, avail: Avail, loose: set<Label>, unused: Reg, b: Label, i: Instr)
    requires Partial(f, avail, loose, unused) && b in loose && IsTerminator(i) && Uses(i) <= avail[b] + Defs(f[b])
    requires forall t :: t in Targets(i) ==> 0 < t < |f| && NoPhi(f[t]) && avail[t] <= avail[b] + Defs(f[b])
    ensures Partial(f[b := f[b] + [i]], avail, loose - {b}, unused)
    ensures forall a: Label, c: Label :: Edge(f[b := f[b] + [i]], a, c) <==> Edge(f, a, c) || (a == b && c in Targets(i))
  {
    hide Uses, DefOf, Defs, SingleDefs, UsesOk, Succ, Targets;
    var g := f[b := f[b] + [i]];
    DefsStaySingle(f, unused, b, i);
    DefsAppend(f[b], i);
    NoDef(i);
    StraightIsOpen(f[b]);
    UsesAppend(f[b], i, avail[b]);
    assert g[b][..|g[b]| - 1] == f[b];
    forall a: Label, c: Label ensures Edge(g, a, c) <==> Edge(f, a, c) || (a == b && c in Targets(i)) {
    }
    forall c | 0 <= c < |g| ensures PhiOk(g, avail, c) {
      if c !in Targets(i) { SamePhi(f, g, avail, c); }
    }
  }

  lemma NoDef(i: Instr)
    requires IsTerminator(i)
    ensures DefOf(i) == {}
  {
  }

  /** A new empty block. */
  lemma AddKeeps(f: Function, avail: Avail, loose: set<Label>, unused: Reg, entered: set<Reg>)
    requires Partial(f, avail, loose, unused)
    ensures Partial(f + [[]], avail + [entered], loose + {|f|}, unused)
    ensures forall a: Label, c: Label :: Edge(f + [[]], a, c) <==> Edge(f, a, c)
  {
    hide Defs, SingleDefs, Uses, Targets;
    var g, more := f + [[]], avail + [entered];
    forall a: Label, c: Label ensures Edge(g, a, c) <==> Edge(f, a, c) {
    }
    forall c: Label | c < |g| ensures PhiOk(g, more, c) {
      if c < |f| && f[c] != [] && f[c][0].Phi? {
        assert PhiOk(f, avail, c);
        var incoming := f[c][0].incoming;
        forall k | 0 <= k < |incoming| ensures GivenBy(g, more, c, incoming[k]) {
          assert GivenBy(f, avail, c, incoming[k]);
        }
      }
    }
    assert SingleDefs(g, unused) by { SameDefs(f, unused); }
  }

  lemma SameDefs(f: Function, unused: Reg)
    requires SingleDefs(f, unused)
    ensures SingleDefs(f + [[]], unused)
  {
    forall b: Label, i: nat, r: Reg ensures DefAt(f + [[]], b, i, r) <==> DefAt(f, b, i, r) {
    }
  }

  /** A phi with one incoming edge, put into an empty block that has one predecessor. */
  lemma PhiKeeps(f: Function, avail: Avail, loose: set<Label>, unused: Reg, b: Label, r: Reg, from: Label)
    requires Partial(f, avail, loose, unused) && b in loose && f[b] == []
    requires forall a: Label :: Edge(f, a, b) <==> a == from
    requires from < |f| && r in avail[from] + Defs(f[from])
    ensures Partial(f[b := [Phi(unused, [(r, from)])]], avail, loose, unused + 1)
    ensures Defs([Phi(unused, [(r, from)])]) == {unused}
  {
    hide Uses, Defs, SingleDefs, UsesOk, Succ;
    var phi := Phi(unused, [(r, from)]);
    assert [] + [phi] == [phi];
    var g := f[b := f[b] + [phi]];
    DefsStaySingle(f, unused, b, phi);
    DefsAppend([], phi);
    NoDefs();
    StraightIsOpen(f[b]);
    StraightIsOpen(g[b]);
    NoUses(phi, avail[b] + Defs([]));
    UsesAppend([], phi, avail[b]);
    forall a: Label, c: Label ensures Edge(g, a, c) <==> Edge(f, a, c) {
    }
    assert Edge(f, from, b);
    assert from != b;
    forall c | 0 <= c < |g| ensures PhiOk(g, avail, c) {
      if c != b { SamePhi(f, g, avail, c); } else { assert GivenBy(g, avail, b, (r, from)); }
    }
  }

  /** The back edge of a loop, and the entry for it in the phi of the test block. */
  lemma BackEdgeKeeps(f: Function, avail: Avail, loose: set<Label>, unused: Reg, b: Label, t: Label, dst: Reg,
                      entry: (Reg, Label), r: Reg)
    requires Partial(f, avail, loose, unused) && b in loose && t in loose && b != t && 0 < t
    requires f[t] == [Phi(dst, [entry])]
    requires avail[t] + {r} <= avail[b] + Defs(f[b])
    ensures var g := f[b := f[b] + [Br(t)]][t := [Phi(dst, [entry, (r, b)])]];
            Partial(g, avail, loose - {b}, unused) && Defs(g[t]) == {dst}
  {
    hide Uses, Defs, SingleDefs, UsesOk, Succ, Targets;
    var phi := Phi(dst, [entry, (r, b)]);
    var g := f[b := f[b] + [Br(t)]][t := [phi]];
    DefsAppend(f[b], Br(t));
    TwoPhis(f[t][0], phi);
    NoDef(Br(t));
    StraightIsOpen(f[b]);
    StraightIsOpen(f[t]);
    NoUses(Br(t), avail[b] + Defs(f[b]));
    UsesAppend(f[b], Br(t), avail[b]);
    UsesOfPhi(phi, avail[t]);
    assert g[b][..|g[b]| - 1] == f[b];
    assert Targets(Br(t)) == {t} by { BrTargets(t); }
    forall a: Label, c: Label ensures Edge(g, a, c) <==> Edge(f, a, c) || (a == b && c == t) {
    }
    assert SingleDefs(g, unused) by { DefsMove(f, g, unused, b, t, phi); }
    forall c | 0 <= c < |g| ensures PhiOk(g, avail, c) {
      if c != t {
        SamePhi(f, g, avail, c);
      } else {
        assert PhiOk(f, avail, t);
        assert GivenBy(f, avail, t, [entry][0]);
        assert GivenBy(g, avail, t, entry) && GivenBy(g, avail, t, (r, b));
      }
    }
  }

  lemma BrTargets(t: Label)
    ensures Targets(Br(t)) == {t}
  {
  }

  lemma TwoPhis(a: Instr, b: Instr)
    requires a.Phi? && b.Phi? && a.dst == b.dst
    ensures Defs([a]) == Defs([b]) == {a.dst} && Succ([b]) == {}
  {
    assert [a][..0] == [] && [b][..0] == [];
  }

  lemma UsesOfPhi(phi: Instr, avail: set<Reg>)
    requires phi.Phi?
    ensures UsesOk([phi], avail)
  {
  }

  lemma DefsMove(f: Function, g: Function, unused: Reg, b: Label, t: Label, phi: Instr)
    requires SingleDefs(f, unused) && b < |f| && t < |f| && b != t
    requires |f[t]| == 1 && f[t][0].Phi? && phi.Phi? && phi.dst == f[t][0].dst
    requires g == f[b := f[b] + [Br(t)]][t := [phi]]
    ensures SingleDefs(g, unused)
  {
    forall c: Label, i: nat, r: Reg ensures DefAt(g, c, i, r) <==> DefAt(f, c, i, r) {
    }
  }

  lemma NoDefs()
    ensures Defs([]) == {}
  {
  }

  lemma NoUses(i: Instr, s: set<Reg>)
    requires i.Phi? || i.Br?
    ensures Uses(i) <= s
  {
  }

  // ----- the code generator keeps it -----

  /** A finished block that any block may branch to. */
  ghost predicate Landing(f: Function, avail: Avail, loose: set<Label>, fixed: Fixed, bb: Label) {
    0 < bb < |f| == |avail| && bb !in loose && NoPhi(f[bb]) && avail[bb] <= {fixed.arr}
  }

  /** The builder stands in an unended block, where the registers it goes on with are defined. */
  ghost predicate Ready(g: Gen, avail: Avail, loose: set<Label>, fixed: Fixed) {
    && g.Valid() && Partial(g.blocks, avail, loose, g.unused) && g.insert in loose
    && {fixed.arr, fixed.arrmax, g.curhead} <= avail[g.insert] + Defs(g.blocks[g.insert])
    && Landing(g.blocks, avail, loose, fixed, fixed.endbb)
    && (fixed.checked ==> Landing(g.blocks, avail, loose, fixed, fixed.aberrorbb))
  }

  /** From g to h the certificate has only grown, and of the unended blocks only the one under
      construction may have changed. */
  ghost predicate Moved(g: Gen, h: Gen, avail: Avail, more: Avail, loose: set<Label>, open: set<Label>) {
    avail <= more && open == loose - {g.insert} + {h.insert} && h.insert !in loose - {g.insert}
  }

  lemma MovedTwice(g: Gen, h: Gen, k: Gen, avail: Avail, more: Avail, most: Avail,
                   loose: set<Label>, open: set<Label>, last: set<Label>)
    requires Moved(g, h, avail, more, loose, open) && Moved(h, k, more, most, open, last)
    ensures Moved(g, k, avail, most, loose, last)
  {
    assert open - {h.insert} == loose - {g.insert};
  }

  /** One instruction other than a phi or a terminator. */
  function Put(g: Gen, i: Instr): (h: Gen)
    requires g.Valid()
    ensures h.Valid()
  {
    g.Emit([i]).(unused := if HasDst(i) then g.unused + 1 else g.unused)
  }

  lemma PutReady(g: Gen, avail: Avail, loose: set<Label>, fixed: Fixed, i: Instr)
    requires Ready(g, avail, loose, fixed)
    requires !i.Phi? && !IsTerminator(i) && (HasDst(i) ==> i.dst == g.unused)
    requires Uses(i) <= avail[g.insert] + Defs(g.blocks[g.insert])
    ensures Ready(Put(g, i), avail, loose, fixed)
    ensures Defs(Put(g, i).blocks[g.insert]) == Defs(g.blocks[g.insert]) + DefOf(i)
  {
    hide Partial, Uses, Defs, DefOf;
    assert |avail| == |g.blocks| by { PartialSize(g.blocks, avail, loose, g.unused); }
    PutKeeps(g.blocks, avail, loose, g.unused, g.insert, i);
  }

  lemma PartialSize(f: Function, avail: Avail, loose: set<Label>, unused: Reg)
    requires Partial(f, avail, loose, unused)
    ensures |avail| == |f| && forall b :: b in loose ==> b < |f|
  {
  }

  lemma EmitTwo(g: Gen, a: Block, b: Block)
    requires g.Valid()
    ensures g.Emit(a).Emit(b) == g.Emit(a + b)
  {
    assert g.blocks[g.insert] + a + b == g.blocks[g.insert] + (a + b);
  }

  lemma ThreePuts(g: Gen, a: Instr, b: Instr, c: Instr)
    requires g.Valid()
    ensures Put(Put(Put(g, a), b), c).(unused := g.unused) == g.Emit([a, b, c])
  {
    EmitTwo(g, [a], [b]);
    EmitTwo(g, [a, b], [c]);
    assert [a] + [b] == [a, b] && [a, b] + [c] == [a, b, c];
  }

  lemma CellOpReady(op: Op, fixed: Fixed, g: Gen, avail: Avail, loose: set<Label>)
    requires Ready(g, avail, loose, fixed) && !op.Move?
    ensures Ready(GenOp(op, fixed, g), avail, loose, fixed)
  {
    hide Ready, Defs, Partial;
    var code := OpCode(op, g.curhead, g.unused);
    ReadyHead(g, avail, loose, fixed);
    var h := Put(g, code[0]);
    PutReady(g, avail, loose, fixed, code[0]);
    ReadyHead(h, avail, loose, fixed);
    var k := Put(h, code[1]);
    PutReady(h, avail, loose, fixed, code[1]);
    ReadyHead(k, avail, loose, fixed);
    PutReady(k, avail, loose, fixed, code[2]);
    ThreePuts(g, code[0], code[1], code[2]);
    assert code == [code[0], code[1], code[2]];
  }

  lemma ReadyHead(g: Gen, avail: Avail, loose: set<Label>, fixed: Fixed)
    requires Ready(g, avail, loose, fixed)
    ensures g.Valid() && |avail| == |g.blocks| && g.insert in loose && loose == loose - {g.insert} + {g.insert}
    ensures {fixed.arr, fixed.arrmax, g.curhead} <= avail[g.insert] + Defs(g.blocks[g.insert])
  {
  }

  /** The bounds test. */
  lemma BoundsReady(fixed: Fixed, g: Gen, avail: Avail, loose: set<Label>) returns (more: Avail, open: set<Label>)
    requires Ready(g, avail, loose, fixed) && fixed.checked
    ensures Ready(GenBounds(fixed, g), more, open, fixed) && Moved(g, GenBounds(fixed, g), avail, more, loose, open)
  {
    hide Ready, Defs, Partial, Uses;
    var bb := |g.blocks|;
    var code := BoundsCode(fixed, g.curhead, g.unused, bb);
    TestUses(fixed, g.curhead, g.unused, bb);
    ReadyHead(g, avail, loose, fixed);
    var h := Put(g, code[0]);
    PutReady(g, avail, loose, fixed, code[0]);
    ReadyHead(h, avail, loose, fixed);
    var k := Put(h, code[1]);
    PutReady(h, avail, loose, fixed, code[1]);
    ReadyHead(k, avail, loose, fixed);
    var l := Put(k, code[2]);
    PutReady(k, avail, loose, fixed, code[2]);
    ReadyHead(l, avail, loose, fixed);
    more, open := GoOn(l, avail, loose, fixed, code[3]);
    ThreePuts(g, code[0], code[1], code[2]);
    EmitTwo(g, [code[0], code[1], code[2]], [code[3]]);
    assert code == [code[0], code[1], code[2]] + [code[3]];
    assert (l.blocks + [[]])[l.insert := l.blocks[l.insert] + [code[3]]] == l.Emit([code[3]]).blocks + [[]];
  }

  lemma TestUses(fixed: Fixed, head: Reg, r: Reg, bb: Label)
    ensures var code := BoundsCode(fixed, head, r, bb);
            && Uses(code[0]) == {head, fixed.arrmax} && Uses(code[1]) == {head, fixed.arr}
            && Uses(code[2]) == {r, r + 1} && Uses(code[3]) == {r + 2}
  {
  }

  /** A conditional branch to the error block or to a new block, where the builder goes on. */
  lemma GoOn(g: Gen, avail: Avail, loose: set<Label>, fixed: Fixed, i: Instr) returns (more: Avail, open: set<Label>)
    requires Ready(g, avail, loose, fixed) && fixed.checked
    requires i.CondBr? && i.ifTrue == fixed.aberrorbb && i.ifFalse == |g.blocks|
    requires Uses(i) <= avail[g.insert] + Defs(g.blocks[g.insert])
    ensures var h := Gen((g.blocks + [[]])[g.insert := g.blocks[g.insert] + [i]], |g.blocks|, g.curhead, g.unused);
            Ready(h, more, open, fixed) && Moved(g, h, avail, more, loose, open)
  {
    hide Defs, Partial, Uses, NoPhi;
    PartialSize(g.blocks, avail, loose, g.unused);
    var entered := {fixed.arr, fixed.arrmax, g.curhead};
    AddKeeps(g.blocks, avail, loose, g.unused, entered);
    NoPhiInNone();
    more, open := avail + [entered], loose + {|g.blocks|};
    EndKeeps(g.blocks + [[]], more, open, g.unused, g.insert, i);
    open := open - {g.insert};
  }

  lemma NoPhiInNone()
    ensures NoPhi([])
  {
  }

  lemma NoPhiAppend(code: Block, i: Instr)
    requires !i.Phi?
    ensures NoPhi(code) ==> NoPhi(code + [i])
  {
  }

  lemma MoveReady(n: int, fixed: Fixed, g: Gen, avail: Avail, loose: set<Label>) returns (h: Gen)
    requires Ready(g, avail, loose, fixed)
    ensures h == g.Emit(OpCode(Move(n), g.curhead, g.unused)).(curhead := g.unused, unused := g.unused + 1)
    ensures Ready(h, avail, loose, fixed)
  {
    var i := Gep(g.unused, g.curhead, n);
    PutReady(g, avail, loose, fixed, i);
    h := Put(g, i).(curhead := g.unused);
    hide Partial, Defs, Landing;
  }

  /** The code of a command keeps the function well formed. */
  lemma OpReady(op: Op, fixed: Fixed, g: Gen, avail: Avail, loose: set<Label>) returns (more: Avail, open: set<Label>)
    requires Ready(g, avail, loose, fixed)
    ensures Ready(GenOp(op, fixed, g), more, open, fixed) && Moved(g, GenOp(op, fixed, g), avail, more, loose, open)
  {
    hide Ready;
    more, open := avail, loose;
    ReadyHead(g, avail, loose, fixed);
    if op.Move? {
      var h := MoveReady(op.n, fixed, g, avail, loose);
      if fixed.checked {
        more, open := BoundsReady(fixed, h, avail, loose);
      }
    } else {
      CellOpReady(op, fixed, g, avail, loose);
    }
  }

  /** Opening a loop: the test block is left with its phi, and the body block is entered from nowhere yet. */
  lemma OpenReady(fixed: Fixed, g: Gen, avail: Avail, loose: set<Label>) returns (more: Avail, open: set<Label>)
    requires Ready(g, avail, loose, fixed)
    ensures var h := OpenLoop(g);
            && Ready(h, more, open, fixed) && avail <= more && |more| == |avail| + 2
            && open == loose - {g.insert} + {|g.blocks|, |g.blocks| + 1}
            && more[|g.blocks|] == {fixed.arr, fixed.arrmax} && more[|g.blocks| + 1] == {fixed.arr, fixed.arrmax, g.unused}
  {
    hide Defs, Partial, Uses, NoPhi, Succ, Targets;
    var f, b, n := g.blocks, g.insert, |g.blocks|;
    var fixedRegs := {fixed.arr, fixed.arrmax};
    PartialSize(f, avail, loose, g.unused);
    NoEdgeTo(f, avail, loose, g.unused, n);
    AddKeeps(f, avail, loose, g.unused, fixedRegs);
    NoPhiInNone();
    NoUses(Br(n), avail[b] + Defs(f[b]));
    BrTargets(n);
    var a1, l1 := avail + [fixedRegs], loose + {n};
    EndKeeps(f + [[]], a1, l1, g.unused, b, Br(n));
    var f2, l2 := (f + [[]])[b := f[b] + [Br(n)]], l1 - {b};
    DefsAppend(f[b], Br(n));
    assert (f + [[]])[b] == f[b];
    forall a: Label ensures Edge(f2, a, n) <==> a == b {
      assert Edge(f + [[]], a, n) <==> Edge(f, a, n);
    }
    PhiKeeps(f2, a1, l2, g.unused, n, g.curhead, b);
    var f3 := f2[n := [Phi(g.unused, [(g.curhead, b)])]];
    AddKeeps(f3, a1, l2, g.unused + 1, fixedRegs + {g.unused});
    more, open := a1 + [fixedRegs + {g.unused}], l2 + {n + 1};
    assert f3 + [[]] == OpenLoop(g).blocks;
    NoDefs();
  }

  lemma NoEdgeTo(f: Function, avail: Avail, loose: set<Label>, unused: Reg, n: Label)
    requires Partial(f, avail, loose, unused) && n >= |f|
    ensures forall a: Label :: !Edge(f, a, n)
  {
  }

  /** What closing a loop needs of its test block and of its body block. */
  ghost predicate LoopOpen(k: Gen, avail: Avail, loose: set<Label>, fixed: Fixed, testbb: Label, bodybb: Label, phi: Reg, entry: (Reg, Label)) {
    && 0 < testbb < |k.blocks| == |avail| && 0 < bodybb < |k.blocks| && testbb in loose && testbb != k.insert
    && k.blocks[testbb] == [Phi(phi, [entry])] && NoPhi(k.blocks[bodybb]) && testbb != bodybb
    && avail[testbb] == {fixed.arr, fixed.arrmax} && avail[bodybb] == {fixed.arr, fixed.arrmax, phi}
  }

  /** The test block is complete: its phi has both edges, and it branches to the body or out of the loop. */
  lemma TestReady(fixed: Fixed, k: Gen, avail: Avail, loose: set<Label>, testbb: Label, bodybb: Label, phi: Reg, entry: (Reg, Label))
    returns (f: Function, more: Avail, open: set<Label>)
    requires Ready(k, avail, loose, fixed) && LoopOpen(k, avail, loose, fixed, testbb, bodybb, phi, entry)
    ensures var exitbb, r := |k.blocks|, k.unused;
            && f == (k.Emit([Br(testbb)]).blocks + [[]])[testbb := TestBlock(phi, entry, (k.curhead, k.insert), r, exitbb, bodybb)]
            && more == avail + [{fixed.arr, fixed.arrmax}] && open == loose - {k.insert, testbb} + {exitbb}
            && Partial(f, more, open, r + 2)
            && (forall a: Label :: Edge(f, a, exitbb) <==> a == testbb) && phi in Defs(f[testbb])
  {
    hide Defs, Partial, Uses, NoPhi, Succ, Targets, TestBlock, EdgesOk;
    var b, r, exitbb := k.insert, k.unused, |k.blocks|;
    PartialSize(k.blocks, avail, loose, r);
    BackEdgeKeeps(k.blocks, avail, loose, r, b, testbb, phi, entry, k.curhead);
    var test := [Phi(phi, [entry, (k.curhead, b)])];
    var f1, l1 := k.blocks[b := k.blocks[b] + [Br(testbb)]][testbb := test], loose - {b};
    TestBlockUses(phi, r, exitbb, bodybb);
    PutKeeps(f1, avail, l1, r, testbb, Load(r, phi));
    var f2 := f1[testbb := test + [Load(r, phi)]];
    PutKeeps(f2, avail, l1, r + 1, testbb, ICmpEQ(r + 1, r, 0));
    var f3 := f2[testbb := test + [Load(r, phi)] + [ICmpEQ(r + 1, r, 0)]];
    NoEdgeTo(f3, avail, l1, r + 2, exitbb);
    more := avail + [{fixed.arr, fixed.arrmax}];
    AddKeeps(f3, avail, l1, r + 2, {fixed.arr, fixed.arrmax});
    NoPhiInNone();
    NoPhiAppend(k.blocks[b], Br(testbb));
    assert f1[testbb] == test && f2[testbb] == test + [Load(r, phi)];
    assert phi in Defs(f3[testbb]);
    assert (f3 + [[]])[testbb] == f3[testbb];
    var branch := CondBr(r + 1, exitbb, bodybb);
    EndKeeps(f3 + [[]], more, l1 + {exitbb}, r + 2, testbb, branch);
    DefsAppend(f3[testbb], branch);
    f, open := (f3 + [[]])[testbb := f3[testbb] + [branch]], l1 + {exitbb} - {testbb};
    forall a: Label ensures Edge(f, a, exitbb) <==> a == testbb {
      assert Edge(f3 + [[]], a, exitbb) <==> Edge(f3, a, exitbb);
    }
    assert f[testbb] == TestBlock(phi, entry, (k.curhead, b), r, exitbb, bodybb) by { TestBlockIs(phi, entry, (k.curhead, b), r, exitbb, bodybb); }
  }

  lemma TestBlockUses(phi: Reg, r: Reg, exitbb: Label, bodybb: Label)
    ensures Uses(Load(r, phi)) == {phi} && DefOf(Load(r, phi)) == {r}
    ensures Uses(ICmpEQ(r + 1, r, 0)) == {r} && DefOf(ICmpEQ(r + 1, r, 0)) == {r + 1}
    ensures Uses(CondBr(r + 1, exitbb, bodybb)) == {r + 1} && Targets(CondBr(r + 1, exitbb, bodybb)) == {exitbb, bodybb}
  {
  }

  lemma TestBlockIs(phi: Reg, entry: (Reg, Label), back: (Reg, Label), r: Reg, exitbb: Label, bodybb: Label)
    ensures TestBlock(phi, entry, back, r, exitbb, bodybb)
         == [Phi(phi, [entry, back])] + [Load(r, phi)] + [ICmpEQ(r + 1, r, 0)] + [CondBr(r + 1, exitbb, bodybb)]
  {
  }

  /** Closing a loop. */
  lemma CloseReady(fixed: Fixed, k: Gen, avail: Avail, loose: set<Label>, testbb: Label, bodybb: Label, phi: Reg, entry: (Reg, Label))
    returns (more: Avail, open: set<Label>)
    requires Ready(k, avail, loose, fixed) && LoopOpen(k, avail, loose, fixed, testbb, bodybb, phi, entry)
    requires fixed.endbb !in {testbb, k.insert} && (fixed.checked ==> fixed.aberrorbb !in {testbb, k.insert})
    ensures var h := CloseLoop(k, testbb, bodybb);
            && Ready(h, more, open, fixed) && avail <= more && open == loose - {k.insert, testbb} + {h.insert}
  {
    hide Defs, Partial, Uses, NoPhi, Succ, Targets, TestBlock;
    var r, exitbb := k.unused, |k.blocks|;
    var f;
    f, more, open := TestReady(fixed, k, avail, loose, testbb, bodybb, phi, entry);
    PhiKeeps(f, more, open, r + 2, exitbb, phi, testbb);
    assert f[exitbb := [Phi(r + 2, [(phi, testbb)])]] == CloseLoop(k, testbb, bodybb).blocks;
  }

  /** Code never starts with a phi where the builder goes on. */
  lemma {:induction false} StartsWithoutPhi(p: Prog, fixed: Fixed, g: Gen)
    requires g.Valid() && NoPhi(g.blocks[g.insert])
    ensures NoPhi(GenProg(p, fixed, g).blocks[g.insert])
    decreases p
  {
    match p
    case End =>
    case Do(op, next) =>
      var h := GenOp(op, fixed, g);
      assert h.blocks[g.insert] != [] && !h.blocks[g.insert][0].Phi?;
    case Loop(body, next) =>
      var h := OpenLoop(g);
      assert h.blocks[g.insert] == g.blocks[g.insert] + [Br(|g.blocks|)];
      var k := GenProg(body, fixed, h);
      assert k.blocks[g.insert] == h.blocks[g.insert];
      assert GenLoop(body, fixed, g).blocks[g.insert] == h.blocks[g.insert];
  }

  /** The code of a program keeps the function well formed: only the block the builder ends up in is unended. */
  lemma {:induction false} ProgReady(p: Prog, fixed: Fixed, g: Gen, avail: Avail, loose: set<Label>)
    returns (more: Avail, open: set<Label>)
    requires Ready(g, avail, loose, fixed)
    ensures var h := GenProg(p, fixed, g);
            Ready(h, more, open, fixed) && Moved(g, h, avail, more, loose, open)
    decreases p
  {
    hide Ready, Moved, GenOp, OpenLoop, CloseLoop, GenLoop;
    ReadyHead(g, avail, loose, fixed);
    match p
    case End =>
      more, open := avail, loose;
      NotMoved(g, avail, loose, fixed);
    case Do(op, next) =>
      var h := GenOp(op, fixed, g);
      var a1, l1 := OpReady(op, fixed, g, avail, loose);
      more, open := ProgReady(next, fixed, h, a1, l1);
      MovedTwice(g, h, GenProg(next, fixed, h), avail, a1, more, loose, l1, open);
    case Loop(body, next) =>
      var h := GenLoop(body, fixed, g);
      var a1, l1 := OpenReady(fixed, g, avail, loose);
      var a2, l2 := ProgReady(body, fixed, OpenLoop(g), a1, l1);
      var a3, l3 := LoopReady(body, fixed, g, avail, loose, a1, l1, a2, l2);
      more, open := ProgReady(next, fixed, h, a3, l3);
      MovedTwice(g, h, GenProg(next, fixed, h), avail, a3, more, loose, l3, open);
  }

  lemma NotMoved(g: Gen, avail: Avail, loose: set<Label>, fixed: Fixed)
    requires Ready(g, avail, loose, fixed)
    ensures Moved(g, g, avail, avail, loose, loose)
  {
    ReadyHead(g, avail, loose, fixed);
  }

  lemma LoopReady(body: Prog, fixed: Fixed, g: Gen, avail: Avail, loose: set<Label>,
                  a1: Avail, l1: set<Label>, a2: Avail, l2: set<Label>)
    returns (more: Avail, open: set<Label>)
    requires Ready(g, avail, loose, fixed) && avail <= a1 && |a1| == |g.blocks| + 2
    requires l1 == loose - {g.insert} + {|g.blocks|, |g.blocks| + 1}
    requires a1[|g.blocks|] == {fixed.arr, fixed.arrmax} && a1[|g.blocks| + 1] == {fixed.arr, fixed.arrmax, g.unused}
    requires var k := GenProg(body, fixed, OpenLoop(g)); Ready(k, a2, l2, fixed) && Moved(OpenLoop(g), k, a1, a2, l1, l2)
    ensures var h := GenLoop(body, fixed, g); Ready(h, more, open, fixed) && Moved(g, h, avail, more, loose, open)
  {
    hide Partial, Defs, NoPhi, GenProg;
    var k, n := GenProg(body, fixed, OpenLoop(g)), |g.blocks|;
    NoPhiInNone();
    StartsWithoutPhi(body, fixed, OpenLoop(g));
    PartialSize(g.blocks, avail, loose, g.unused);
    PartialSize(k.blocks, a2, l2, k.unused);
    assert OpenLoop(g).blocks[n + 1] == [];
    more, open := CloseReady(fixed, k, a2, l2, n, n + 1, g.unused, (g.curhead, g.insert));
    assert loose - {g.insert} + {n, n + 1} - {n + 1} + {k.insert} - {k.insert, n} == loose - {g.insert};
  }

  // ----- the whole function -----

  /** A function with a certificate. */
  ghost predicate Certified(f: Function, avail: Avail) {
    exists unused :: Partial(f, avail, {}, unused)
  }

  lemma {:induction false} HeaderReady(mem: nat, checked: bool) returns (avail: Avail)
    ensures Ready(Header(mem, checked), avail, {0}, HeaderFixed(checked))
  {
    hide Defs, Edge, SingleDefs, Uses, UsesOk, Succ, IsTerminator;
    avail := HeaderAvail(checked);
    HeaderDefs(mem, checked);
    HeaderUses(mem, checked);
    HeaderSingle(mem, checked);
    HeaderEdges(mem, checked);
    HeaderEnds(mem, checked);
  }

  function HeaderAvail(checked: bool): Avail {
    if checked then [{}, {0}, {0}] else [{}, {0}]
  }

  lemma HeaderEnds(mem: nat, checked: bool)
    ensures var f := Header(mem, checked).blocks;
            && Straight(f[0]) && Ended(f[1]) && (checked ==> Ended(f[2]))
            && forall b :: 0 <= b < |f| ==> NoPhi(f[b])
  {
  }

  lemma FooterUses()
    ensures UsesOk([Free(0), Ret], {0}) && UsesOk([PutsError, Br(1)], {0})
  {
    hide Defs;
  }

  lemma HeaderUses(mem: nat, checked: bool)
    ensures var f := Header(mem, checked).blocks;
            && |HeaderAvail(checked)| == |f|
            && forall b :: 0 <= b < |f| ==> UsesOk(f[b], HeaderAvail(checked)[b])
  {
    hide Uses, Defs;
    HeaderDefs(mem, checked);
    FooterUses();
  }

  lemma HeaderDefs(mem: nat, checked: bool)
    ensures var g := Header(mem, checked);
            && Defs(g.blocks[0]) == (if checked then {0, 1, 2} else {0, 1})
            && (forall i :: 0 <= i < |g.blocks[0]| ==> Uses(g.blocks[0][i]) <= Defs(g.blocks[0][..i]))
  {
    var code := Header(mem, checked).blocks[0];
    assert code[..0] == [] && code[..1] == code[..0] + [code[0]] && code[..2] == code[..1] + [code[1]] && code[..3] == code[..2] + [code[2]];
    DefsAppend(code[..0], code[0]);
    DefsAppend(code[..1], code[1]);
    DefsAppend(code[..2], code[2]);
    if checked {
      assert code == code[..3] + [code[3]];
      DefsAppend(code[..3], code[3]);
    } else {
      assert code == code[..3];
    }
  }

  lemma HeaderSingle(mem: nat, checked: bool)
    ensures SingleDefs(Header(mem, checked).blocks, Header(mem, checked).unused)
  {
  }

  lemma HeaderEdges(mem: nat, checked: bool)
    ensures var f := Header(mem, checked).blocks;
            forall a: Label, b: Label :: Edge(f, a, b) <==> checked && a == 2 && b == 1
  {
  }

  lemma CompiledCertified(p: Prog, mem: nat, checked: bool) returns (avail: Avail)
    ensures Certified(CompiledFrom(p, mem, checked), avail)
  {
    hide Partial, Header, GenProg, Defs, Uses, Targets;
    var fixed, g := HeaderFixed(checked), Header(mem, checked);
    var a0 := HeaderReady(mem, checked);
    var loose;
    avail, loose := ProgReady(p, fixed, g, a0, {0});
    assert g.insert == 0 by { HeaderInsert(mem, checked); }
    var h := GenProg(p, fixed, g);
    assert loose == {h.insert};
    PartialSize(h.blocks, avail, loose, h.unused);
    BrTargets(fixed.endbb);
    NoUses(Br(fixed.endbb), avail[h.insert] + Defs(h.blocks[h.insert]));
    EndKeeps(h.blocks, avail, loose, h.unused, h.insert, Br(fixed.endbb));
    assert loose - {h.insert} == {};
  }

  lemma HeaderInsert(mem: nat, checked: bool)
    ensures Header(mem, checked).insert == 0
  {
  }

  ghost predicate Path(f: Function, path: seq<Label>) {
    && path != [] && path[0] == 0 && (forall k :: 0 <= k < |path| ==> path[k] < |f|)
    && forall k :: 0 < k < |path| ==> Edge(f, path[k - 1], path[k])
  }

  /** The registers that have been defined when a path has been walked to its end. */
  function DefsAlong(f: Function, path: seq<Label>): set<Reg>
    requires forall k :: 0 <= k < |path| ==> path[k] < |f|
  {
    if path == [] then {} else DefsAlong(f, path[..|path| - 1]) + Defs(f[path[|path| - 1]])
  }

  /** What instruction i at the end of a path reads has been defined on that path; a phi reads
      the value that belongs to the edge the path came by. */
  ghost predicate ReadsDefined(f: Function, path: seq<Label>, i: nat)
    requires Path(f, path) && i < |f[path[|path| - 1]]|
  {
    var last := |path| - 1;
    var code := f[path[last]];
    if code[i].Phi? then
      last > 0 && |Incoming(code[i].incoming, path[last - 1])| == 1
      && Incoming(code[i].incoming, path[last - 1])[0] in DefsAlong(f, path[..last])
    else Uses(code[i]) <= DefsAlong(f, path[..last]) + Defs(code[..i])
  }

  /** A phi stands in front of its block and has one incoming edge for each predecessor. */
  ghost predicate PhiMatches(f: Function, b: Label)
    requires b < |f|
  {
    f[b] != [] && f[b][0].Phi? ==>
      var incoming := f[b][0].incoming;
      && 1 <= |incoming| <= 2 && (|incoming| == 2 ==> incoming[0].1 != incoming[1].1)
      && (forall k :: 0 <= k < |incoming| ==> Edge(f, incoming[k].1, b))
      && forall a: Label :: Edge(f, a, b) ==> a == incoming[0].1 || a == incoming[|incoming| - 1].1
  }

  ghost predicate InSsaForm(f: Function) {
    && (forall b :: 0 <= b < |f| ==> Ended(f[b]))
    && (forall a: Label, b: Label :: Edge(f, a, b) ==> 0 < b < |f|)
    && (forall b :: 0 <= b < |f| ==> PhiMatches(f, b))
    && (forall b: Label, i: nat, c: Label, j: nat, r: Reg :: DefAt(f, b, i, r) && DefAt(f, c, j, r) ==> b == c && i == j)
    && forall path, i: nat :: Path(f, path) && i < |f[path[|path| - 1]]| ==> ReadsDefined(f, path, i)
  }

  lemma {:induction false} AvailableAlong(f: Function, avail: Avail, path: seq<Label>)
    requires |avail| == |f| > 0 && avail[0] == {} && EdgesOk(f, avail) && Path(f, path)
    ensures avail[path[|path| - 1]] <= DefsAlong(f, path[..|path| - 1])
  {
    hide Defs, Succ;
    var last := |path| - 1;
    if last == 0 {
    } else {
      var front := path[..last];
      AvailableAlong(f, avail, front);
      assert Edge(f, path[last - 1], path[last]);
      assert front[..last - 1] == path[..last - 1];
    }
  }

  lemma IncomingOf(incoming: seq<(Reg, Label)>, from: Label)
    requires 1 <= |incoming| <= 2 && (from == incoming[0].1 || from == incoming[|incoming| - 1].1)
    ensures var r := Incoming(incoming, from); |r| == 1 && (r[0], from) in incoming
  {
    if |incoming| == 2 && incoming[0].1 != from {
      assert incoming[1..][0] == incoming[1];
      assert (incoming[1].0, from) == incoming[1];
    } else {
      assert (incoming[0].0, from) == incoming[0];
    }
  }

  lemma CertifiedReads(f: Function, avail: Avail, unused: Reg, path: seq<Label>, i: nat)
    requires Partial(f, avail, {}, unused) && Path(f, path) && i < |f[path[|path| - 1]]|
    ensures ReadsDefined(f, path, i)
  {
    hide Defs, Uses, Succ, Incoming;
    var last := |path| - 1;
    var b := path[last];
    AvailableAlong(f, avail, path);
    assert UsesOk(f[b], avail[b]);
    if f[b][i].Phi? {
      assert i == 0 by { PhiInFront(f[b], i); }
      assert PhiOk(f, avail, b);
      assert last > 0 by { EntryHasNoPhi(f, avail, unused); }
      var a, front := path[last - 1], path[..last];
      var incoming := f[b][0].incoming;
      assert Edge(f, a, b);
      IncomingOf(incoming, a);
      var r := Incoming(incoming, a)[0];
      var k :| 0 <= k < |incoming| && incoming[k] == (r, a);
      assert GivenBy(f, avail, b, incoming[k]);
      AvailableAlong(f, avail, front);
    }
  }

  lemma PhiInFront(code: Block, i: nat)
    requires Ended(code) && i < |code| && code[i].Phi?
    ensures i == 0
  {
    assert i < |code| - 1 ==> code[..|code| - 1][i] == code[i];
  }

  lemma EntryHasNoPhi(f: Function, avail: Avail, unused: Reg)
    requires Partial(f, avail, {}, unused)
    ensures NoPhi(f[0])
  {
    if f[0] != [] && f[0][0].Phi? {
      FirstEdge(f, avail, 0);
    }
  }

  lemma FirstEdge(f: Function, avail: Avail, b: Label)
    requires b < |f| && f[b] != [] && f[b][0].Phi? && PhiOk(f, avail, b)
    ensures exists a: Label :: Edge(f, a, b)
  {
    var edge := f[b][0].incoming[0];
    assert GivenBy(f, avail, b, edge);
    assert Edge(f, edge.1, b);
  }

  /** Every compiled function is a well-formed control flow graph in SSA form: each block has exactly
      one terminator, at its end; edges lead to blocks of the function other than the entry; a phi has
      exactly one incoming edge for each predecessor; each register has one definition; and on every
      path from the entry whatever an instruction reads has been defined before. */
  lemma CompiledInSsaForm(p: Prog, mem: nat, checked: bool)
    ensures InSsaForm(CompiledFrom(p, mem, checked))
  {
    hide CompiledFrom, ReadsDefined, DefAt;
    var f := CompiledFrom(p, mem, checked);
    var avail := CompiledCertified(p, mem, checked);
    var unused :| Partial(f, avail, {}, unused);
    forall b | 0 <= b < |f| ensures PhiMatches(f, b) {
      PhiMatched(f, avail, unused, b);
    }
    forall path, i: nat | Path(f, path) && i < |f[path[|path| - 1]]| ensures ReadsDefined(f, path, i) {
      CertifiedReads(f, avail, unused, path, i);
    }
  }

  lemma PhiMatched(f: Function, avail: Avail, unused: Reg, b: Label)
    requires Partial(f, avail, {}, unused) && b < |f|
    ensures PhiMatches(f, b)
  {
    hide Defs, Succ, Uses;
    assert PhiOk(f, avail, b);
    if f[b] != [] && f[b][0].Phi? {
      var incoming := f[b][0].incoming;
      forall k | 0 <= k < |incoming| ensures Edge(f, incoming[k].1, b) {
        assert GivenBy(f, avail, b, incoming[k]);
      }
    }
  }
}
