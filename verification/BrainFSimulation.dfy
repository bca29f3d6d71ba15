/** The emitted code simulates the program it was emitted from, inside any function
    that contains it. */
module BrainFSimulation {
  import opened Sequences
  import opened BrainFSource
  import opened BrainFIR
  import opened BrainFCodeGen

  /** Length that block b already had when code generation started from g. */
  function Old(g: Gen, b: Label): nat {
    if b < |g.blocks| then |g.blocks[b]| else 0
  }

  /** The final function f contains, in place, the code that took the builder from g to h. */
  ghost predicate Has(f: Function, g: Gen, h: Gen) {
    && |h.blocks| <= |f|
    && (forall b :: 0 <= b < |h.blocks| ==> Old(g, b) <= |h.blocks[b]| <= |f[b]|)
    && forall b, i :: 0 <= b < |h.blocks| && Old(g, b) <= i < |h.blocks[b]| ==> f[b][i] == h.blocks[b][i]
  }

  lemma HasSplit(f: Function, g: Gen, h: Gen, k: Gen)
    requires Has(f, g, k) && Grows(g, h) && Grows(h, k)
    ensures Has(f, g, h) && Has(f, h, k)
  {
    forall b | 0 <= b < |h.blocks|
      ensures Old(g, b) <= |h.blocks[b]| <= |f[b]|
      ensures forall i :: Old(g, b) <= i < |h.blocks[b]| ==> f[b][i] == h.blocks[b][i]
    {
      assert |h.blocks[b]| <= |k.blocks[b]|;
      forall i | Old(g, b) <= i < |h.blocks[b]| ensures f[b][i] == h.blocks[b][i] {
        assert k.blocks[b][i] == h.blocks[b][i];
      }
    }
    forall b | 0 <= b < |k.blocks| ensures Old(h, b) <= |k.blocks[b]| <= |f[b]| {
    }
    forall b, i | 0 <= b < |k.blocks| && Old(h, b) <= i < |k.blocks[b]| ensures f[b][i] == k.blocks[b][i] {
      assert Old(g, b) <= Old(h, b);
    }
  }

  /** The machine is in the same state as the program, apart from where it stands. */
  ghost predicate Matches(c: Config, fixed: Fixed, s: State) {
    && c.status.Running?
    && fixed.arr in c.env && c.env[fixed.arr] == c.base
    && (fixed.checked ==> fixed.arrmax in c.env && c.env[fixed.arrmax] == c.base + |s.tape|)
    && c.heap == s.tape && c.frees == 0 && c.complaints == 0
    && c.input == s.input && c.output == s.output
  }

  /** The machine stands where the builder g inserts, with the head in g's head register. */
  ghost predicate At(c: Config, g: Gen, fixed: Fixed, s: State) {
    && g.Valid()
    && Matches(c, fixed, s)
    && c.block == g.insert && c.pc == |g.blocks[g.insert]|
    && g.curhead in c.env && c.env[g.curhead] == c.base + s.head
  }

  predicate FixedBelow(fixed: Fixed, g: Gen) {
    fixed.arr < g.unused && fixed.arrmax < g.unused
  }

  /** After n steps the machine mirrors how the program's run ended. */
  ghost predicate Mirrors(f: Function, c: Config, n: nat, clock: nat, r: Outcome, h: Gen, fixed: Fixed) {
    var d := Run(f, c, n);
    match r
    case Done(t, left) => clock <= n + left && At(d, h, fixed, t)
    case OutOfClock(t) => clock <= n && d.status.Running? && d.output == t.output
    case OffTape(t) => d.status.BadAccess? && d.output == t.output && d.complaints == 0
    case LeftTape(t) => Matches(d, fixed, t) && d.block == fixed.aberrorbb && d.pc == 0
  }

  lemma MirrorsLater(f: Function, c: Config, m: nat, n: nat, clock: nat, r: Outcome, h: Gen, fixed: Fixed)
    requires Mirrors(f, Run(f, c, m), n, clock, r, h, fixed)
    ensures Mirrors(f, c, m + n, clock, r, h, fixed)
  {
    RunAdd(f, c, m, n);
  }

  /** `code` stands in f at the machine's program counter. */
  ghost predicate CodeAt(f: Function, c: Config, code: Block) {
    && c.block < |f| && c.pc + |code| <= |f[c.block]|
    && forall i :: 0 <= i < |code| ==> f[c.block][c.pc + i] == code[i]
  }

  lemma Run1(f: Function, c: Config)
    ensures Run(f, c, 1) == Step(f, c)
  {
    assert Run(f, c, 1) == Run(f, Step(f, c), 0);
  }

  lemma Run2(f: Function, c: Config)
    ensures Run(f, c, 2) == Step(f, Step(f, c))
  {
    Run1(f, Step(f, c));
  }

  /** How the machine stands after the code of a command other than a move. */
  ghost predicate AfterCellOp(c: Config, d: Config, r: Outcome, fixed: Fixed, head: Reg) {
    match r
    case Done(t, _) =>
      && Matches(d, fixed, t) && d.block == c.block && d.pc == c.pc + 3
      && head in d.env && d.env[head] == d.base + t.head
    case OffTape(t) => d.status.BadAccess? && d.output == t.output && d.complaints == 0
    case _ => false
  }

  lemma ByteFacts(b: Byte)
    ensures Low8(b) == b && Low8(Signed(b)) == b && Low8(-1) == 255
  {
  }

  /** What getchar puts into the cell; end of input reads as 255. */
  function Typed8(s: State): Byte {
    if s.input == [] then 255 else s.input[0]
  }

  /** The machine is about to run instruction i. */
  ghost predicate Next(f: Function, c: Config, i: Instr) {
    c.status.Running? && c.block < |f| && c.pc < |f[c.block]| && f[c.block][c.pc] == i
  }

  lemma RunsNext(f: Function, c: Config, i: Instr)
    requires Next(f, c, i)
    ensures Run(f, c, 1) == Eval(i, c)
  {
    hide Run, Eval;
    Run1(f, c);
  }

  lemma GetOne(f: Function, c: Config, r: Reg)
    requires Next(f, c, GetChar(r))
    ensures var got: int := if c.input == [] then -1 else c.input[0];
            Run(f, c, 1) == c.(env := c.env[r := got], pc := c.pc + 1, input := if c.input == [] then [] else c.input[1..])
  {
    hide Run;
    RunsNext(f, c, GetChar(r));
  }

  lemma TruncOne(f: Function, c: Config, r: Reg, src: Reg)
    requires Next(f, c, Trunc(r, src)) && src in c.env
    ensures Run(f, c, 1) == c.(env := c.env[r := Low8(c.env[src])], pc := c.pc + 1)
  {
    hide Run, Low8;
    RunsNext(f, c, Trunc(r, src));
  }

  lemma SExtOne(f: Function, c: Config, r: Reg, src: Reg)
    requires Next(f, c, SExt(r, src)) && src in c.env
    ensures Run(f, c, 1) == c.(env := c.env[r := Signed(c.env[src])], pc := c.pc + 1)
  {
    hide Run, Signed;
    RunsNext(f, c, SExt(r, src));
  }

  lemma AddOne(f: Function, c: Config, r: Reg, src: Reg, n: Byte)
    requires Next(f, c, AddI8(r, src, n)) && src in c.env
    ensures Run(f, c, 1) == c.(env := c.env[r := Low8(c.env[src] + n)], pc := c.pc + 1)
  {
    hide Run, Low8;
    RunsNext(f, c, AddI8(r, src, n));
  }

  lemma CompareOne(f: Function, c: Config, i: Instr, yes: bool)
    requires Next(f, c, i)
    requires match i
             case ICmpUGE(_, a, b) => a in c.env && b in c.env && yes == (c.env[a] >= c.env[b])
             case ICmpULT(_, a, b) => a in c.env && b in c.env && yes == (c.env[a] < c.env[b])
             case ICmpEQ(_, a, n) => a in c.env && yes == (c.env[a] == n)
             case Or(_, a, b) => a in c.env && b in c.env && yes == (c.env[a] != 0 || c.env[b] != 0)
             case _ => false
    ensures Run(f, c, 1) == c.(env := c.env[i.dst := Bit(yes)], pc := c.pc + 1)
  {
    hide Run, Bit;
    RunsNext(f, c, i);
  }

  lemma CondBrOne(f: Function, c: Config, r: Reg, yes: Label, no: Label)
    requires Next(f, c, CondBr(r, yes, no)) && r in c.env
    ensures Run(f, c, 1) == c.(prev := c.block, block := if c.env[r] != 0 then yes else no, pc := 0)
  {
    hide Run;
    RunsNext(f, c, CondBr(r, yes, no));
  }

  /** Two steps, one after the other. */
  lemma RunTwice(f: Function, c: Config)
    ensures Run(f, c, 2) == Run(f, Run(f, c, 1), 1)
  {
    RunAdd(f, c, 1, 1);
  }

  lemma ReadTwo(f: Function, c: Config, head: Reg, r: Reg, s: State)
    requires CodeAt(f, c, OpCode(Read, head, r)) && c.status.Running? && c.input == s.input
    ensures var got: int := if c.input == [] then -1 else c.input[0];
            Run(f, c, 2) == c.(env := c.env[r := got][r + 1 := Typed8(s)], pc := c.pc + 2,
                               input := if c.input == [] then [] else c.input[1..])
  {
    hide Run, Low8;
    var code := OpCode(Read, head, r);
    assert f[c.block][c.pc + 0] == code[0];
    assert f[c.block][c.pc + 1] == code[1];
    GetOne(f, c, r);
    TruncOne(f, Run(f, c, 1), r + 1, r);
    RunTwice(f, c);
    ByteFacts(if c.input == [] then 0 else c.input[0]);
  }

  lemma ReadSteps(fixed: Fixed, f: Function, c: Config, head: Reg, r: Reg, clock: nat, s: State)
    requires CodeAt(f, c, OpCode(Read, head, r))
    requires Matches(c, fixed, s) && head in c.env && c.env[head] == c.base + s.head
    requires fixed.arr < r && fixed.arrmax < r && head < r
    ensures AfterCellOp(c, Run(f, c, 3), Perform(Read, clock, s, fixed.checked), fixed, head)
  {
    hide Run;
    ReadTwo(f, c, head, r, s);
    RunAdd(f, c, 2, 1);
    var code := OpCode(Read, head, r);
    assert f[c.block][c.pc + 2] == code[2];
    StoreLast(f, Run(f, c, 2), r + 1, head);
  }

  lemma StoreLast(f: Function, c: Config, src: Reg, ptr: Reg)
    requires c.status.Running? && c.block < |f| && c.pc < |f[c.block]|
    requires f[c.block][c.pc] == Store(src, ptr) && src in c.env && 0 <= c.env[src] < 256 && ptr in c.env
    ensures Run(f, c, 1) == if c.Live(ptr) then c.(heap := c.heap[c.env[ptr] - c.base := c.env[src]], pc := c.pc + 1)
                            else c.Stop(BadAccess)
  {
    hide Run, Low8;
    RunsNext(f, c, Store(src, ptr));
    ByteFacts(c.env[src]);
  }

  lemma PutLast(f: Function, c: Config, src: Reg, b: Byte)
    requires c.status.Running? && c.block < |f| && c.pc < |f[c.block]|
    requires f[c.block][c.pc] == PutChar(src) && src in c.env && c.env[src] == Signed(b)
    ensures Run(f, c, 1) == c.(output := c.output + [b], pc := c.pc + 1)
  {
    hide Run, Low8, Signed;
    RunsNext(f, c, PutChar(src));
    ByteFacts(b);
  }

  lemma WriteTwo(f: Function, c: Config, head: Reg, r: Reg)
    requires CodeAt(f, c, OpCode(Write, head, r)) && c.status.Running? && c.Live(head)
    ensures var v := c.heap[c.env[head] - c.base];
            Run(f, c, 2) == c.(env := c.env[r := v][r + 1 := Signed(v)], pc := c.pc + 2)
  {
    hide Run, Signed;
    var code := OpCode(Write, head, r);
    assert f[c.block][c.pc + 0] == code[0];
    assert f[c.block][c.pc + 1] == code[1];
    LoadOne(f, c, r, head);
    SExtOne(f, Run(f, c, 1), r + 1, r);
    RunTwice(f, c);
  }

  lemma WriteSteps(fixed: Fixed, f: Function, c: Config, head: Reg, r: Reg, clock: nat, s: State)
    requires CodeAt(f, c, OpCode(Write, head, r))
    requires Matches(c, fixed, s) && head in c.env && c.env[head] == c.base + s.head
    requires fixed.arr < r && fixed.arrmax < r && head < r
    ensures AfterCellOp(c, Run(f, c, 3), Perform(Write, clock, s, fixed.checked), fixed, head)
  {
    hide Run;
    var code := OpCode(Write, head, r);
    if s.OnTape() {
      WriteTwo(f, c, head, r);
      RunAdd(f, c, 2, 1);
      assert f[c.block][c.pc + 2] == code[2];
      PutLast(f, Run(f, c, 2), r + 1, s.Cell());
    } else {
      assert f[c.block][c.pc + 0] == code[0];
      LoadOffTape(f, c, r, head, 3);
    }
  }

  lemma LoadOffTape(f: Function, c: Config, r: Reg, head: Reg, n: nat)
    requires n > 0 && c.status.Running? && c.block < |f| && c.pc < |f[c.block]|
    requires f[c.block][c.pc] == Load(r, head) && head in c.env && !c.Live(head)
    ensures Run(f, c, n) == c.Stop(BadAccess)
  {
    hide Run;
    RunsNext(f, c, Load(r, head));
    HaltedForGood(f, c, 1, n);
  }

  lemma ChangeTwo(n: int, f: Function, c: Config, head: Reg, r: Reg)
    requires CodeAt(f, c, OpCode(Change(n), head, r)) && c.status.Running? && c.Live(head)
    ensures var v := c.heap[c.env[head] - c.base];
            Run(f, c, 2) == c.(env := c.env[r := v][r + 1 := Low8(v + n)], pc := c.pc + 2)
  {
    hide Run, Low8;
    var code := OpCode(Change(n), head, r);
    assert f[c.block][c.pc + 0] == code[0];
    assert f[c.block][c.pc + 1] == code[1];
    LoadOne(f, c, r, head);
    AddOne(f, Run(f, c, 1), r + 1, r, Low8(n));
    RunTwice(f, c);
    AddMod(c.heap[c.env[head] - c.base], n);
  }

  lemma AddMod(v: int, n: int)
    ensures Low8(v + Low8(n)) == Low8(v + n)
  {
  }

  lemma ChangeThree(n: int, f: Function, c: Config, head: Reg, r: Reg)
    requires CodeAt(f, c, OpCode(Change(n), head, r)) && c.status.Running? && c.Live(head) && head < r
    ensures var v := c.heap[c.env[head] - c.base];
            var w := Low8(v + n);
            Run(f, c, 3) == c.(env := c.env[r := v][r + 1 := w], pc := c.pc + 3,
                               heap := c.heap[c.env[head] - c.base := w])
  {
    hide Run;
    ChangeTwo(n, f, c, head, r);
    RunAdd(f, c, 2, 1);
    var code := OpCode(Change(n), head, r);
    assert f[c.block][c.pc + 2] == code[2];
    StoreLast(f, Run(f, c, 2), r + 1, head);
  }

  lemma ChangeSteps(n: int, fixed: Fixed, f: Function, c: Config, head: Reg, r: Reg, clock: nat, s: State)
    requires CodeAt(f, c, OpCode(Change(n), head, r))
    requires Matches(c, fixed, s) && head in c.env && c.env[head] == c.base + s.head
    requires fixed.arr < r && fixed.arrmax < r && head < r
    ensures AfterCellOp(c, Run(f, c, 3), Perform(Change(n), clock, s, fixed.checked), fixed, head)
  {
    hide Run;
    if s.OnTape() {
      ChangeThree(n, f, c, head, r);
    } else {
      var code := OpCode(Change(n), head, r);
      assert f[c.block][c.pc + 0] == code[0];
      LoadOffTape(f, c, r, head, 3);
    }
  }

  lemma GepOne(n: int, f: Function, c: Config, head: Reg, r: Reg)
    requires CodeAt(f, c, OpCode(Move(n), head, r)) && c.status.Running? && head in c.env
    ensures Run(f, c, 1) == c.(env := c.env[r := c.env[head] + n], pc := c.pc + 1)
  {
    hide Run;
    var code := OpCode(Move(n), head, r);
    assert f[c.block][c.pc + 0] == code[0];
    RunsNext(f, c, code[0]);
  }

  lemma BoundsTwo(fixed: Fixed, f: Function, c: Config, head: Reg, r: Reg, nextbb: Label)
    requires CodeAt(f, c, BoundsCode(fixed, head, r, nextbb)) && c.status.Running?
    requires head in c.env && fixed.arr in c.env && fixed.arrmax in c.env
    requires head < r && fixed.arr < r && fixed.arrmax < r
    ensures Run(f, c, 2) == c.(env := c.env[r := Bit(c.env[head] >= c.env[fixed.arrmax])]
                                           [r + 1 := Bit(c.env[head] < c.env[fixed.arr])], pc := c.pc + 2)
  {
    hide Run, Bit;
    var code := BoundsCode(fixed, head, r, nextbb);
    assert f[c.block][c.pc + 0] == code[0];
    assert f[c.block][c.pc + 1] == code[1];
    CompareOne(f, c, code[0], c.env[head] >= c.env[fixed.arrmax]);
    CompareOne(f, Run(f, c, 1), code[1], c.env[head] < c.env[fixed.arr]);
    RunTwice(f, c);
  }

  lemma BranchTwo(f: Function, c: Config, r: Reg, x: bool, y: bool, yes: Label, no: Label)
    requires CodeAt(f, c, [Or(r + 2, r, r + 1), CondBr(r + 2, yes, no)]) && c.status.Running?
    requires r in c.env && r + 1 in c.env && c.env[r] == Bit(x) && c.env[r + 1] == Bit(y)
    ensures Run(f, c, 2) == c.(env := c.env[r + 2 := Bit(x || y)], prev := c.block,
                               block := if x || y then yes else no, pc := 0)
  {
    hide Run;
    var code := [Or(r + 2, r, r + 1), CondBr(r + 2, yes, no)];
    assert f[c.block][c.pc + 0] == code[0];
    assert f[c.block][c.pc + 1] == code[1];
    CompareOne(f, c, code[0], x || y);
    CondBrOne(f, Run(f, c, 1), r + 2, yes, no);
    RunTwice(f, c);
  }

  /** The bounds test goes to the error block exactly when the head is outside the tape. */
  lemma BoundsFour(fixed: Fixed, f: Function, c: Config, head: Reg, r: Reg, nextbb: Label)
    requires CodeAt(f, c, BoundsCode(fixed, head, r, nextbb)) && c.status.Running?
    requires head in c.env && fixed.arr in c.env && fixed.arrmax in c.env
    requires head < r && fixed.arr < r && fixed.arrmax < r
    ensures var x := c.env[head] >= c.env[fixed.arrmax];
            var y := c.env[head] < c.env[fixed.arr];
            Run(f, c, 4) == c.(env := c.env[r := Bit(x)][r + 1 := Bit(y)][r + 2 := Bit(x || y)],
                               prev := c.block, block := if x || y then fixed.aberrorbb else nextbb, pc := 0)
  {
    hide Run;
    BoundsTwo(fixed, f, c, head, r, nextbb);
    RunAdd(f, c, 2, 2);
    var d := Run(f, c, 2);
    var code := BoundsCode(fixed, head, r, nextbb);
    assert f[c.block][c.pc + 2] == code[2] && f[c.block][c.pc + 3] == code[3];
    assert CodeAt(f, d, [code[2], code[3]]);
    BranchTwo(f, d, r, c.env[head] >= c.env[fixed.arrmax], c.env[head] < c.env[fixed.arr], fixed.aberrorbb, nextbb);
  }

  lemma CodeOfOp(op: Op, fixed: Fixed, f: Function, g: Gen, c: Config)
    requires g.Valid() && Has(f, g, GenOp(op, fixed, g))
    requires c.block == g.insert && c.pc == |g.blocks[g.insert]|
    ensures CodeAt(f, c, OpCode(op, g.curhead, g.unused))
    ensures op.Move? && fixed.checked ==>
              CodeAt(f, c.(pc := c.pc + 1), BoundsCode(fixed, g.unused, g.unused + 1, |g.blocks|))
  {
    var h := GenOp(op, fixed, g);
    var b := g.insert;
    var code := OpCode(op, g.curhead, g.unused);
    assert h.blocks[b] == g.blocks[b] + code +
      (if op.Move? && fixed.checked then BoundsCode(fixed, g.unused, g.unused + 1, |g.blocks|) else []);
    forall i | 0 <= i < |code| ensures f[b][c.pc + i] == code[i] {
      assert h.blocks[b][c.pc + i] == code[i];
    }
    if op.Move? && fixed.checked {
      var bounds := BoundsCode(fixed, g.unused, g.unused + 1, |g.blocks|);
      forall i | 0 <= i < |bounds| ensures f[b][c.pc + 1 + i] == bounds[i] {
        assert h.blocks[b][c.pc + 1 + i] == bounds[i];
      }
    }
  }

  lemma SimulateCell(op: Op, fixed: Fixed, f: Function, g: Gen, c: Config, clock: nat, s: State)
    requires g.Valid() && Has(f, g, GenOp(op, fixed, g)) && FixedBelow(fixed, g) && g.curhead < g.unused
    requires At(c, g, fixed, s) && !op.Move?
    ensures AfterCellOp(c, Run(f, c, 3), Perform(op, clock, s, fixed.checked), fixed, g.curhead)
  {
    hide Run, Has, GenOp, AfterCellOp, Perform, OpCode, CodeAt;
    CodeOfOp(op, fixed, f, g, c);
    match op
    case Read => ReadSteps(fixed, f, c, g.curhead, g.unused, clock, s);
    case Write => WriteSteps(fixed, f, c, g.curhead, g.unused, clock, s);
    case Change(k) => ChangeSteps(k, fixed, f, c, g.curhead, g.unused, clock, s);
  }

  lemma SimulateMove(k: int, fixed: Fixed, f: Function, g: Gen, c: Config, clock: nat, s: State) returns (n: nat)
    requires g.Valid() && Has(f, g, GenOp(Move(k), fixed, g)) && FixedBelow(fixed, g) && g.curhead < g.unused
    requires At(c, g, fixed, s)
    ensures Mirrors(f, c, n, clock, Perform(Move(k), clock, s, fixed.checked), GenOp(Move(k), fixed, g), fixed)
  {
    hide Run, Has, BoundsCode;
    CodeOfOp(Move(k), fixed, f, g, c);
    var h, r := g.curhead, g.unused;
    GepOne(k, f, c, h, r);
    n := 1;
    if fixed.checked {
      RunAdd(f, c, 1, 4);
      BoundsFour(fixed, f, Run(f, c, 1), r, r + 1, |g.blocks|);
      n := 5;
    }
  }

  /** The emitted code of one command does what the command does. */
  lemma SimulateOp(op: Op, fixed: Fixed, f: Function, g: Gen, c: Config, clock: nat, s: State) returns (n: nat)
    requires g.Valid() && Has(f, g, GenOp(op, fixed, g)) && FixedBelow(fixed, g) && g.curhead < g.unused
    requires At(c, g, fixed, s)
    ensures Mirrors(f, c, n, clock, Perform(op, clock, s, fixed.checked), GenOp(op, fixed, g), fixed)
  {
    hide Run, Has, Perform;
    if op.Move? {
      n := SimulateMove(op.n, fixed, f, g, c, clock, s);
    } else {
      SimulateCell(op, fixed, f, g, c, clock, s);
      n := 3;
    }
  }

  /** The finished code of a loop, found in f: the branch into the test block, the test
      block, the body, the branch back, and the exit block's phi. */
  ghost predicate LoopAt(f: Function, body: Prog, fixed: Fixed, g: Gen)
    requires g.Valid()
  {
    var open := OpenLoop(g);
    var inner := GenProg(body, fixed, open);
    var testbb, bodybb, exitbb := |g.blocks|, |g.blocks| + 1, |inner.blocks|;
    var test := TestBlock(g.unused, (g.curhead, g.insert), (inner.curhead, inner.insert), inner.unused, exitbb, bodybb);
    && Has(f, open, inner)
    && exitbb < |f|
    && |g.blocks[g.insert]| < |f[g.insert]| && f[g.insert][|g.blocks[g.insert]|] == Br(testbb)
    && |f[testbb]| >= 4 && f[testbb][..4] == test
    && |inner.blocks[inner.insert]| < |f[inner.insert]|
    && f[inner.insert][|inner.blocks[inner.insert]|] == Br(testbb)
    && |f[exitbb]| >= 1 && f[exitbb][0] == Phi(inner.unused + 2, [(g.unused, testbb)])
  }

  /** The blocks of a finished loop. */
  lemma LoopBlocks(body: Prog, fixed: Fixed, g: Gen)
    requires g.Valid()
    ensures var inner, closed := GenProg(body, fixed, OpenLoop(g)), GenLoop(body, fixed, g);
            var testbb, bodybb, exitbb := |g.blocks|, |g.blocks| + 1, |inner.blocks|;
            && inner.insert < exitbb && inner.insert != g.insert && testbb < exitbb && |closed.blocks| == exitbb + 1
            && closed.blocks[g.insert] == g.blocks[g.insert] + [Br(testbb)]
            && closed.blocks[inner.insert] == inner.blocks[inner.insert] + [Br(testbb)]
            && closed.blocks[testbb] == TestBlock(g.unused, (g.curhead, g.insert), (inner.curhead, inner.insert), inner.unused, exitbb, bodybb)
            && closed.blocks[exitbb] == [Phi(inner.unused + 2, [(g.unused, testbb)])]
            && Old(g, inner.insert) <= |inner.blocks[inner.insert]|
  {
    hide GenProg, TestBlock;
    var open := OpenLoop(g);
    assert GenProg(body, fixed, open).blocks[|g.blocks|] == open.blocks[|g.blocks|];
    assert open.blocks[g.insert] == g.blocks[g.insert] + [Br(|g.blocks|)];
  }

  lemma HasBlock(f: Function, g: Gen, h: Gen, b: Label)
    requires Has(f, g, h) && b < |h.blocks|
    ensures b < |f| && Old(g, b) <= |h.blocks[b]| <= |f[b]|
    ensures forall i :: Old(g, b) <= i < |h.blocks[b]| ==> f[b][i] == h.blocks[b][i]
  {
  }

  lemma LoopCode(f: Function, body: Prog, fixed: Fixed, g: Gen)
    requires g.Valid() && Has(f, g, GenLoop(body, fixed, g))
    ensures LoopAt(f, body, fixed, g)
  {
    hide Has, GenLoop, GenProg, OpenLoop, CloseLoop, TestBlock;
    LoopBlocks(body, fixed, g);
    BodyCode(f, body, fixed, g);
    var inner, closed := GenProg(body, fixed, OpenLoop(g)), GenLoop(body, fixed, g);
    var testbb, exitbb := |g.blocks|, |inner.blocks|;
    HasBlock(f, g, closed, g.insert);
    HasBlock(f, g, closed, inner.insert);
    HasBlock(f, g, closed, testbb);
    HasBlock(f, g, closed, exitbb);
    assert |closed.blocks[testbb]| == 4 by { FourInstrs(g.unused, (g.curhead, g.insert), (inner.curhead, inner.insert), inner.unused, exitbb, testbb + 1); }
    assert f[testbb][..4] == closed.blocks[testbb];
  }

  lemma FourInstrs(phi: Reg, entry: (Reg, Label), back: (Reg, Label), r: Reg, exitbb: Label, bodybb: Label)
    ensures |TestBlock(phi, entry, back, r, exitbb, bodybb)| == 4
  {
  }

  lemma BodyCode(f: Function, body: Prog, fixed: Fixed, g: Gen)
    requires g.Valid() && Has(f, g, GenLoop(body, fixed, g))
    ensures Has(f, OpenLoop(g), GenProg(body, fixed, OpenLoop(g)))
  {
    var open := OpenLoop(g);
    var inner := GenProg(body, fixed, open);
    var closed := GenLoop(body, fixed, g);
    var testbb := |g.blocks|;
    assert inner.blocks[testbb] == open.blocks[testbb];
    forall b | 0 <= b < |inner.blocks|
      ensures Old(open, b) <= |inner.blocks[b]| <= |f[b]|
      ensures forall i :: Old(open, b) <= i < |inner.blocks[b]| ==> f[b][i] == inner.blocks[b][i]
    {
      if b != testbb {
        assert |closed.blocks[b]| >= |inner.blocks[b]| && closed.blocks[b][..|inner.blocks[b]|] == inner.blocks[b];
        forall i | Old(open, b) <= i < |inner.blocks[b]| ensures f[b][i] == inner.blocks[b][i] {
          assert closed.blocks[b][i] == inner.blocks[b][i];
        }
      }
    }
  }

  /** The machine is about to run the test block, having come from the entry or the back edge. */
  ghost predicate AtTest(c: Config, entry: (Reg, Label), back: (Reg, Label), testbb: Label, fixed: Fixed, s: State) {
    && Matches(c, fixed, s)
    && c.block == testbb && c.pc == 0
    && var from := Incoming([entry, back], c.prev);
       |from| == 1 && from[0] in c.env && c.env[from[0]] == c.base + s.head
  }

  lemma PhiOne(f: Function, c: Config, phi: Reg, incoming: seq<(Reg, Label)>)
    requires c.status.Running? && c.block < |f| && c.pc < |f[c.block]| && f[c.block][c.pc] == Phi(phi, incoming)
    requires |Incoming(incoming, c.prev)| == 1 && Incoming(incoming, c.prev)[0] in c.env
    ensures Run(f, c, 1) == c.(env := c.env[phi := c.env[Incoming(incoming, c.prev)[0]]], pc := c.pc + 1)
  {
    hide Run, Incoming;
    RunsNext(f, c, Phi(phi, incoming));
  }

  lemma LoadOne(f: Function, c: Config, r: Reg, ptr: Reg)
    requires c.status.Running? && c.block < |f| && c.pc < |f[c.block]| && f[c.block][c.pc] == Load(r, ptr)
    requires c.Live(ptr)
    ensures Run(f, c, 1) == c.(env := c.env[r := c.heap[c.env[ptr] - c.base]], pc := c.pc + 1)
  {
    hide Run;
    RunsNext(f, c, Load(r, ptr));
  }

  lemma ZeroTestTwo(f: Function, c: Config, r: Reg, exitbb: Label, bodybb: Label)
    requires CodeAt(f, c, [ICmpEQ(r + 1, r, 0), CondBr(r + 1, exitbb, bodybb)]) && c.status.Running? && r in c.env
    ensures Run(f, c, 2) == c.(env := c.env[r + 1 := Bit(c.env[r] == 0)], prev := c.block,
                               block := if c.env[r] == 0 then exitbb else bodybb, pc := 0)
  {
    hide Run;
    var code := [ICmpEQ(r + 1, r, 0), CondBr(r + 1, exitbb, bodybb)];
    assert f[c.block][c.pc + 0] == code[0];
    assert f[c.block][c.pc + 1] == code[1];
    CompareOne(f, c, code[0], c.env[r] == 0);
    CondBrOne(f, Run(f, c, 1), r + 1, exitbb, bodybb);
    RunTwice(f, c);
  }

  lemma BrOne(f: Function, c: Config, target: Label)
    requires c.status.Running? && c.block < |f| && c.pc < |f[c.block]| && f[c.block][c.pc] == Br(target)
    ensures Run(f, c, 1) == c.(prev := c.block, block := target, pc := 0)
  {
    hide Run;
    RunsNext(f, c, Br(target));
  }

  lemma TestCode(code: Block, phi: Reg, entry: (Reg, Label), back: (Reg, Label), r: Reg, exitbb: Label, bodybb: Label)
    requires |code| >= 4 && code[..4] == TestBlock(phi, entry, back, r, exitbb, bodybb)
    ensures code[0] == Phi(phi, [entry, back]) && code[1] == Load(r, phi)
    ensures code[2] == ICmpEQ(r + 1, r, 0) && code[3] == CondBr(r + 1, exitbb, bodybb)
  {
    assert forall i :: 0 <= i < 4 ==> code[i] == code[..4][i];
  }

  lemma LoadAndTest(f: Function, c: Config, phi: Reg, r: Reg, exitbb: Label, bodybb: Label)
    requires CodeAt(f, c, [Load(r, phi), ICmpEQ(r + 1, r, 0), CondBr(r + 1, exitbb, bodybb)]) && c.status.Running? && c.Live(phi)
    ensures var v := c.heap[c.env[phi] - c.base];
            Run(f, c, 3) == c.(env := c.env[r := v][r + 1 := Bit(v == 0)], prev := c.block,
                               block := if v == 0 then exitbb else bodybb, pc := 0)
  {
    hide Run, Bit;
    var code := [Load(r, phi), ICmpEQ(r + 1, r, 0), CondBr(r + 1, exitbb, bodybb)];
    assert f[c.block][c.pc + 0] == code[0];
    assert f[c.block][c.pc + 1] == code[1];
    assert f[c.block][c.pc + 2] == code[2];
    LoadOne(f, c, r, phi);
    RunAdd(f, c, 1, 2);
    ZeroTestTwo(f, Run(f, c, 1), r, exitbb, bodybb);
  }

  /** The test block: off the tape it is a bad access, otherwise it goes to the exit or
      to the body with the head in the loop's phi. */
  lemma TestSteps(f: Function, c: Config, phi: Reg, entry: (Reg, Label), back: (Reg, Label), r: Reg,
                  exitbb: Label, bodybb: Label, fixed: Fixed, s: State)
    requires AtTest(c, entry, back, c.block, fixed, s)
    requires c.block < |f| && |f[c.block]| >= 4 && f[c.block][..4] == TestBlock(phi, entry, back, r, exitbb, bodybb)
    requires fixed.arr < phi < r && fixed.arrmax < phi
    ensures var d := Run(f, c, 4);
            if s.OnTape() then
              Matches(d, fixed, s) && phi in d.env && d.env[phi] == d.base + s.head && d.pc == 0
              && d.prev == c.block && d.block == if s.Cell() == 0 then exitbb else bodybb
            else d.status.BadAccess? && d.output == s.output && d.complaints == 0
  {
    hide Run, TestBlock, Incoming;
    TestCode(f[c.block], phi, entry, back, r, exitbb, bodybb);
    PhiOne(f, c, phi, [entry, back]);
    RunAdd(f, c, 1, 3);
    var c1 := Run(f, c, 1);
    if s.OnTape() {
      LoadAndTest(f, c1, phi, r, exitbb, bodybb);
    } else {
      LoadOffTape(f, c1, r, phi, 3);
    }
  }

  /** From where the loop starts, into its test block. */
  lemma EnterTest(f: Function, body: Prog, fixed: Fixed, g: Gen, c: Config, s: State)
    requires g.Valid() && LoopAt(f, body, fixed, g) && At(c, g, fixed, s)
    ensures var inner := GenProg(body, fixed, OpenLoop(g));
            AtTest(Run(f, c, 1), (g.curhead, g.insert), (inner.curhead, inner.insert), |g.blocks|, fixed, s)
  {
    hide Run;
    BrOne(f, c, |g.blocks|);
  }

  /** From the end of the body, back into the test block. */
  lemma BackToTest(f: Function, body: Prog, fixed: Fixed, g: Gen, c: Config, s: State)
    requires g.Valid() && LoopAt(f, body, fixed, g) && At(c, GenProg(body, fixed, OpenLoop(g)), fixed, s)
    ensures var inner := GenProg(body, fixed, OpenLoop(g));
            AtTest(Run(f, c, 1), (g.curhead, g.insert), (inner.curhead, inner.insert), |g.blocks|, fixed, s)
  {
    hide Run;
    BrOne(f, c, |g.blocks|);
    var inner := GenProg(body, fixed, OpenLoop(g));
    assert inner.insert != g.insert;
    SecondEdge((g.curhead, g.insert), (inner.curhead, inner.insert));
  }

  lemma SecondEdge(entry: (Reg, Label), back: (Reg, Label))
    requires entry.1 != back.1
    ensures Incoming([entry, back], back.1) == [back.0]
  {
    assert [entry, back][1..] == [back];
    assert Incoming([back], back.1) == [back.0];
  }

  /** From the test block, out of the loop. */
  lemma ExitLoop(f: Function, body: Prog, fixed: Fixed, g: Gen, c: Config, s: State)
    requires g.Valid() && LoopAt(f, body, fixed, g) && FixedBelow(fixed, g)
    requires Matches(c, fixed, s) && g.unused in c.env && c.env[g.unused] == c.base + s.head
    requires c.block == |GenProg(body, fixed, OpenLoop(g)).blocks| && c.pc == 0 && c.prev == |g.blocks|
    ensures At(Run(f, c, 1), GenLoop(body, fixed, g), fixed, s)
  {
    hide Run, LoopAt, GenLoop, GenProg, OpenLoop, CloseLoop;
    var inner := GenProg(body, fixed, OpenLoop(g));
    ExitPhi(f, body, fixed, g);
    PhiOne(f, c, inner.unused + 2, [(g.unused, |g.blocks|)]);
  }

  /** The exit block: its phi, and the builder that goes on behind it. */
  lemma ExitPhi(f: Function, body: Prog, fixed: Fixed, g: Gen)
    requires g.Valid() && LoopAt(f, body, fixed, g)
    ensures var inner, h := GenProg(body, fixed, OpenLoop(g)), GenLoop(body, fixed, g);
            && g.unused < inner.unused
            && h.Valid() && h.insert == |inner.blocks| && |h.blocks[h.insert]| == 1 && h.curhead == inner.unused + 2
            && |inner.blocks| < |f| && |f[|inner.blocks|]| >= 1
            && f[|inner.blocks|][0] == Phi(inner.unused + 2, [(g.unused, |g.blocks|)])
  {
    hide Has;
  }

  /** From the test block, into the body. */
  lemma EnterBody(f: Function, g: Gen, fixed: Fixed, c: Config, s: State)
    requires g.Valid() && Matches(c, fixed, s)
    requires g.unused in c.env && c.env[g.unused] == c.base + s.head
    requires c.block == |g.blocks| + 1 && c.pc == 0
    ensures At(c, OpenLoop(g), fixed, s)
  {
  }

  /** The loop's test, in place: where the machine is after it. */
  lemma LoopTest(f: Function, body: Prog, fixed: Fixed, g: Gen, c: Config, s: State)
    requires g.Valid() && LoopAt(f, body, fixed, g) && FixedBelow(fixed, g) && g.curhead < g.unused
    requires var inner := GenProg(body, fixed, OpenLoop(g));
             AtTest(c, (g.curhead, g.insert), (inner.curhead, inner.insert), |g.blocks|, fixed, s)
    ensures var d := Run(f, c, 4);
            if !s.OnTape() then d.status.BadAccess? && d.output == s.output && d.complaints == 0
            else if s.Cell() == 0 then At(Run(f, d, 1), GenLoop(body, fixed, g), fixed, s)
            else At(d, OpenLoop(g), fixed, s)
  {
    hide Run;
    var inner := GenProg(body, fixed, OpenLoop(g));
    var testbb, bodybb, exitbb := |g.blocks|, |g.blocks| + 1, |inner.blocks|;
    TestSteps(f, c, g.unused, (g.curhead, g.insert), (inner.curhead, inner.insert), inner.unused, exitbb, bodybb, fixed, s);
    var d := Run(f, c, 4);
    if s.OnTape() && s.Cell() == 0 {
      ExitLoop(f, body, fixed, g, d, s);
    } else if s.OnTape() {
      EnterBody(f, g, fixed, d, s);
    }
  }

  /** A program's code simulates its run. */
  lemma {:induction false} SimulateProg(p: Prog, fixed: Fixed, f: Function, g: Gen, c: Config, clock: nat, s: State)
    returns (n: nat)
    requires g.Valid() && Has(f, g, GenProg(p, fixed, g)) && FixedBelow(fixed, g) && g.curhead < g.unused
    requires At(c, g, fixed, s)
    ensures Mirrors(f, c, n, clock, Exec(p, clock, s, fixed.checked), GenProg(p, fixed, g), fixed)
    decreases clock, p, 1
  {
    hide Run, Perform, GenOp, GenLoop, OpenLoop, Has, LoopAt, AtTest, Low8, At, Matches;
    match p
    case End =>
      n := 0;
      Run0(f, c);
    case Do(op, next) =>
      var h := GenOp(op, fixed, g);
      HasSplit(f, g, h, GenProg(next, fixed, h));
      n := SimulateOp(op, fixed, f, g, c, clock, s);
      var r := Perform(op, clock, s, fixed.checked);
      if r.Done? {
        var m := SimulateProg(next, fixed, f, h, Run(f, c, n), clock, r.s);
        MirrorsLater(f, c, n, m, clock, Exec(next, clock, r.s, fixed.checked), GenProg(p, fixed, g), fixed);
        n := n + m;
      }
    case Loop(body, next) =>
      var h := GenLoop(body, fixed, g);
      HasSplit(f, g, h, GenProg(next, fixed, h));
      LoopCode(f, body, fixed, g);
      EnterTest(f, body, fixed, g, c, s);
      n := SimulateLoop(body, next, fixed, f, g, Run(f, c, 1), clock, s);
      MirrorsLater(f, c, 1, n, clock, Exec(p, clock, s, fixed.checked), GenProg(p, fixed, g), fixed);
      n := 1 + n;
  }

  lemma TestRuns(c: Config, entry: (Reg, Label), back: (Reg, Label), testbb: Label, fixed: Fixed, s: State)
    requires AtTest(c, entry, back, testbb, fixed, s)
    ensures c.status.Running? && c.output == s.output
  {
  }

  lemma Run0(f: Function, c: Config)
    ensures Run(f, c, 0) == c
  {
  }

  /** The same from the test block of a loop, however many iterations are still to come. */
  lemma {:induction false} SimulateLoop(body: Prog, next: Prog, fixed: Fixed, f: Function, g: Gen,
                                        c: Config, clock: nat, s: State)
    returns (n: nat)
    requires g.Valid() && FixedBelow(fixed, g) && g.curhead < g.unused
    requires LoopAt(f, body, fixed, g)
    requires Has(f, GenLoop(body, fixed, g), GenProg(next, fixed, GenLoop(body, fixed, g)))
    requires var inner := GenProg(body, fixed, OpenLoop(g));
             AtTest(c, (g.curhead, g.insert), (inner.curhead, inner.insert), |g.blocks|, fixed, s)
    ensures Mirrors(f, c, n, clock, Exec(Loop(body, next), clock, s, fixed.checked),
                    GenProg(Loop(body, next), fixed, g), fixed)
    decreases clock, Loop(body, next), 0
  {
    hide Run, Perform, GenOp, OpenLoop, Has, GenLoop, Low8, At, Matches, AtTest;
    var p := Loop(body, next);
    var end := GenProg(p, fixed, g);
    var open, closed := OpenLoop(g), GenLoop(body, fixed, g);
    var inner := GenProg(body, fixed, open);
    LoopTest(f, body, fixed, g, c, s);
    n := 4;
    var d := Run(f, c, 4);
    if !s.OnTape() {
    } else if s.Cell() == 0 {
      var m := SimulateProg(next, fixed, f, closed, Run(f, d, 1), clock, s);
      var r := Exec(next, clock, s, fixed.checked);
      MirrorsLater(f, d, 1, m, clock, r, end, fixed);
      MirrorsLater(f, c, 4, 1 + m, clock, r, end, fixed);
      n := 4 + (1 + m);
    } else if clock == 0 {
      n := 0;
      Run0(f, c);
      TestRuns(c, (g.curhead, g.insert), (inner.curhead, inner.insert), |g.blocks|, fixed, s);
    } else {
      assert LoopAt(f, body, fixed, g) ==> Has(f, open, inner);
      var m := SimulateProg(body, fixed, f, open, d, clock - 1, s);
      var r := Exec(body, clock - 1, s, fixed.checked);
      MirrorsLater(f, c, 4, m, clock - 1, r, inner, fixed);
      n := 4 + m;
      if r.Done? {
        var e := Run(f, c, n);
        BackToTest(f, body, fixed, g, e, r.s);
        var k := SimulateLoop(body, next, fixed, f, g, Run(f, e, 1), r.clock, r.s);
        var q := Exec(p, r.clock, r.s, fixed.checked);
        MirrorsLater(f, e, 1, k, r.clock, q, end, fixed);
        MirrorsLater(f, c, n, 1 + k, r.clock, q, end, fixed);
        n := n + (1 + k);
      } else {
        assert Mirrors(f, c, n, clock, r, end, fixed);
      }
    }
  }
}
