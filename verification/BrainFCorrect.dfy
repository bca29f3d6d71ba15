/** Whole compiled functions, from their first instruction: every run of the emitted
    code against the run of the program. */
module BrainFCorrect {
  import opened Sequences
  import opened BrainFSource
  import opened BrainFIR
  import opened BrainFCodeGen
  import opened BrainFSimulation

  /** The state of a program that is about to run: an empty tape with the head in its middle. */
  function Start(mem: nat, input: seq<Byte>): State {
    State(Filled(mem, 0), mem / 2, input, [])
  }

  /** The machine at the entry of the function; `raw` is what malloc's memory holds. */
  function Entry(base: int, raw: seq<Byte>, input: seq<Byte>): Config {
    Config(Running, 0, 0, 0, map[], base, raw, [], 0, 0, input, [])
  }

  /** The builder when the program's code is complete. */
  function Finished(p: Prog, mem: nat, checked: bool): (h: Gen)
    ensures Grows(Header(mem, checked), h)
  {
    GenProg(p, HeaderFixed(checked), Header(mem, checked))
  }

  /** The register that holds the head when the function returns. */
  function FinalHead(p: Prog, mem: nat, checked: bool): Reg {
    Finished(p, mem, checked).curhead
  }

  /** Memory was released exactly once and nothing went wrong before. */
  ghost predicate ReturnsWith(d: Config, s: State, complaints: nat) {
    && d.status.Returned? && d.frees == 1 && d.complaints == complaints
    && d.heap == s.tape && d.input == s.input && d.output == s.output
  }

  /** What the machine looks like after n steps if the program's run with this clock ends in r. */
  ghost predicate Behaves(d: Config, n: nat, clock: nat, r: Outcome, head: Reg) {
    match r
    case Done(t, left) => clock <= n + left && ReturnsWith(d, t, 0) && head in d.env && d.env[head] == d.base + t.head
    case OutOfClock(t) => clock <= n && d.status.Running? && d.output == t.output
    case OffTape(t) => d.status.BadAccess? && d.output == t.output && d.complaints == 0
    case LeftTape(t) => ReturnsWith(d, t, 1)
  }

  /** What the parts of the finished function are. */
  lemma Layout(p: Prog, mem: nat, checked: bool)
    ensures var f := CompiledFrom(p, mem, checked);
            var g := Header(mem, checked);
            var h := Finished(p, mem, checked);
            && Has(f, g, h)
            && |f[0]| >= |g.blocks[0]| && f[0][..|g.blocks[0]|] == g.blocks[0]
            && f[1] == [Free(0), Ret]
            && (checked ==> f[2] == [PutsError, Br(1)])
            && |f[h.insert]| > |h.blocks[h.insert]| && f[h.insert][|h.blocks[h.insert]|] == Br(1)
  {
    var f := CompiledFrom(p, mem, checked);
    var g := Header(mem, checked);
    var h := Finished(p, mem, checked);
    var b := h.insert;
    assert f == h.blocks[b := h.blocks[b] + [Br(1)]];
    assert f[0][..|g.blocks[0]|] == g.blocks[0] by {
      assert h.blocks[0][..|g.blocks[0]|] == g.blocks[0];
    }
  }

  lemma AllocTwo(f: Function, c: Config, mem: nat)
    requires CodeAt(f, c, [Malloc(0, mem), Memset(0, 0, mem)]) && c.status.Running?
    requires |c.raw| == mem && c.frees == 0
    ensures Run(f, c, 2) == c.(heap := Filled(mem, 0), env := c.env[0 := c.base], pc := c.pc + 2)
  {
    Run2(f, c);
    var code := [Malloc(0, mem), Memset(0, 0, mem)];
    assert f[c.block][c.pc + 0] == code[0];
    assert f[c.block][c.pc + 1] == code[1];
  }

  lemma GepAt(f: Function, c: Config, dst: Reg, ptr: Reg, offset: int)
    requires c.status.Running? && c.block < |f| && c.pc < |f[c.block]|
    requires f[c.block][c.pc] == Gep(dst, ptr, offset) && ptr in c.env
    ensures Run(f, c, 1) == c.(env := c.env[dst := c.env[ptr] + offset], pc := c.pc + 1)
  {
    Run1(f, c);
  }

  /** The header: whatever malloc's memory held, the program starts on a zeroed tape with
      the head in the middle. */
  lemma HeaderSteps(p: Prog, mem: nat, checked: bool, base: int, raw: seq<Byte>, input: seq<Byte>) returns (n: nat)
    requires |raw| == mem
    ensures At(Run(CompiledFrom(p, mem, checked), Entry(base, raw, input), n),
               Header(mem, checked), HeaderFixed(checked), Start(mem, input))
  {
    hide Run, Finished, CompiledFrom;
    var f := CompiledFrom(p, mem, checked);
    var c := Entry(base, raw, input);
    var g := Header(mem, checked);
    Layout(p, mem, checked);
    assert forall i :: 0 <= i < |g.blocks[0]| ==> f[0][i] == f[0][..|g.blocks[0]|][i] == g.blocks[0][i];
    AllocTwo(f, c, mem);
    var c2 := Run(f, c, 2);
    if checked {
      GepAt(f, c2, 1, 0, mem);
      RunAdd(f, c, 2, 1);
      GepAt(f, Run(f, c, 3), 2, 0, mem / 2);
      RunAdd(f, c, 3, 1);
      n := 4;
    } else {
      GepAt(f, c2, 1, 0, mem / 2);
      RunAdd(f, c, 2, 1);
      n := 3;
    }
  }

  lemma FreeTwo(f: Function, c: Config)
    requires CodeAt(f, c, [Free(0), Ret]) && c.status.Running?
    requires 0 in c.env && c.env[0] == c.base && c.frees == 0
    ensures Run(f, c, 2) == c.(status := Returned, frees := 1, pc := c.pc + 1)
  {
    Run2(f, c);
    var code := [Free(0), Ret];
    assert f[c.block][c.pc + 0] == code[0];
    assert f[c.block][c.pc + 1] == code[1];
  }

  lemma ComplainTwo(f: Function, c: Config)
    requires CodeAt(f, c, [PutsError, Br(1)]) && c.status.Running?
    ensures Run(f, c, 2) == c.(complaints := c.complaints + 1, prev := c.block, block := 1, pc := 0)
  {
    Run2(f, c);
    var code := [PutsError, Br(1)];
    assert f[c.block][c.pc + 0] == code[0];
    assert f[c.block][c.pc + 1] == code[1];
  }

  lemma ReturnSteps(p: Prog, mem: nat, checked: bool, c: Config, s: State)
    requires At(c, Finished(p, mem, checked), HeaderFixed(checked), s)
    ensures var d := Run(CompiledFrom(p, mem, checked), c, 3);
            var head := FinalHead(p, mem, checked);
            ReturnsWith(d, s, 0) && head in d.env && d.env[head] == d.base + s.head
  {
    hide Run, Finished, CompiledFrom;
    var f := CompiledFrom(p, mem, checked);
    Layout(p, mem, checked);
    BrOne(f, c, 1);
    RunAdd(f, c, 1, 2);
    FreeTwo(f, Run(f, c, 1));
  }

  lemma ErrorSteps(p: Prog, mem: nat, c: Config, s: State)
    requires Matches(c, HeaderFixed(true), s) && c.block == 2 && c.pc == 0
    ensures ReturnsWith(Run(CompiledFrom(p, mem, true), c, 4), s, 1)
  {
    hide Run, Finished, CompiledFrom;
    var f := CompiledFrom(p, mem, true);
    Layout(p, mem, true);
    ComplainTwo(f, c);
    RunAdd(f, c, 2, 2);
    FreeTwo(f, Run(f, c, 2));
  }

  /** The compiled function, run from its entry, ends as the program's run ends: it returns
      with the same tape, head, input and output and the memory freed once; or it is still
      running, after at least as many steps as the program made iterations, with the same
      output; or it makes the same bad access; or it complains once where a move left the tape. */
  lemma Compiled(p: Prog, mem: nat, checked: bool, base: int, raw: seq<Byte>, input: seq<Byte>, clock: nat)
    returns (n: nat)
    requires |raw| == mem
    ensures Behaves(Run(CompiledFrom(p, mem, checked), Entry(base, raw, input), n), n, clock,
                    Exec(p, clock, Start(mem, input), checked), FinalHead(p, mem, checked))
  {
    hide Run, CompiledFrom, GenProg, Exec;
    var f := CompiledFrom(p, mem, checked);
    var c := Entry(base, raw, input);
    var fixed := HeaderFixed(checked);
    var g := Header(mem, checked);
    var s := Start(mem, input);
    var k := HeaderSteps(p, mem, checked, base, raw, input);
    Layout(p, mem, checked);
    var m := SimulateProg(p, fixed, f, g, Run(f, c, k), clock, s);
    var r := Exec(p, clock, s, checked);
    MirrorsLater(f, c, k, m, clock, r, Finished(p, mem, checked), fixed);
    n := k + m;
    var d := Run(f, c, n);
    if r.Done? {
      ReturnSteps(p, mem, checked, d, r.s);
      RunAdd(f, c, n, 3);
      n := n + 3;
    } else if r.LeftTape? {
      OnlyCheckedLeaves(p, clock, s, checked);
      ErrorSteps(p, mem, d, r.s);
      RunAdd(f, c, n, 4);
      n := n + 4;
    }
  }

  lemma OnlyCheckedLeaves(p: Prog, clock: nat, s: State, checked: bool)
    ensures Exec(p, clock, s, checked).LeftTape? ==> checked
  {
    if !checked { UncheckedNeverLeaves(p, clock, s); }
  }

  /** Conversely, whatever the compiled function has done when it stops is what the
      program's run does: no other ending is possible. */
  lemma Stopped(p: Prog, mem: nat, checked: bool, base: int, raw: seq<Byte>, input: seq<Byte>, n: nat)
    requires |raw| == mem
    requires !Run(CompiledFrom(p, mem, checked), Entry(base, raw, input), n).status.Running?
    ensures var r := Exec(p, n + 1, Start(mem, input), checked);
            !r.OutOfClock? &&
            Behaves(Run(CompiledFrom(p, mem, checked), Entry(base, raw, input), n), n + 1, n + 1, r, FinalHead(p, mem, checked))
  {
    hide Run, CompiledFrom, Exec, FinalHead;
    var f := CompiledFrom(p, mem, checked);
    var c := Entry(base, raw, input);
    var m := Compiled(p, mem, checked, base, raw, input, n + 1);
    if m <= n {
      if !Run(f, c, m).status.Running? { HaltedForGood(f, c, m, n); }
    } else {
      HaltedForGood(f, c, n, m);
    }
  }
}
