/** The part of the intermediate representation that the BrainF compiler emits:
    a function is a list of basic blocks, and runs one instruction at a time. */
module BrainFIR {
  import opened Sequences
  import opened BrainFSource

  type Reg = nat
  type Label = nat

  datatype Instr =
    | Malloc(dst: Reg, size: nat)
    | Memset(ptr: Reg, val: Byte, size: nat)
    | Free(ptr: Reg)
    | Gep(dst: Reg, ptr: Reg, offset: int)
    | Phi(dst: Reg, incoming: seq<(Reg, Label)>)
    | Load(dst: Reg, ptr: Reg)
    | Store(src: Reg, ptr: Reg)
    | AddI8(dst: Reg, src: Reg, constant: Byte)
    | Trunc(dst: Reg, src: Reg)
    | SExt(dst: Reg, src: Reg)
    | ICmpUGE(dst: Reg, a: Reg, b: Reg)
    | ICmpULT(dst: Reg, a: Reg, b: Reg)
    | ICmpEQ(dst: Reg, a: Reg, constant: Byte)
    | Or(dst: Reg, a: Reg, b: Reg)
    | GetChar(dst: Reg)
    | PutChar(src: Reg)
    | PutsError
    | Br(target: Label)
    | CondBr(cond: Reg, ifTrue: Label, ifFalse: Label)
    | Ret

  type Block = seq<Instr>
  type Function = seq<Block>

  /** `BadAccess` is a load, store, memset or free outside the live allocation;
      `Malformed` is an undefined register or block, or a block that falls off its end. */
  datatype Status = Running | Returned | BadAccess | Malformed

  /** `raw` is the memory malloc will hand out, at address `base`, with whatever it holds. */
  datatype Config = Config(
    status: Status, block: Label, prev: Label, pc: nat, env: map<Reg, int>,
    base: int, raw: seq<Byte>, heap: seq<Byte>, frees: nat, complaints: nat,
    input: seq<Byte>, output: seq<Byte>)
  {
    predicate Defined(r: Reg) {
      r in env
    }

    predicate Live(r: Reg) {
      r in env && frees == 0 && base <= env[r] < base + |heap|
    }

    function Next(): Config {
      this.(pc := pc + 1)
    }

    function Assign(dst: Reg, v: int): Config {
      this.(env := env[dst := v], pc := pc + 1)
    }

    function Goto(target: Label): Config {
      this.(prev := block, block := target, pc := 0)
    }

    function Stop(why: Status): Config {
      this.(status := why)
    }
  }

  predicate IsTerminator(i: Instr) {
    i.Br? || i.CondBr? || i.Ret?
  }

  /** The value an incoming edge gives a phi. */
  function Incoming(edges: seq<(Reg, Label)>, from: Label): (r: seq<Reg>)
  {
    if edges == [] then []
    else if edges[0].1 == from then [edges[0].0]
    else Incoming(edges[1..], from)
  }

  function Bit(b: bool): int {
    if b then 1 else 0
  }

  function Signed(b: int): int {
    if b < 128 then b else b - 256
  }

  function Filled(size: nat, val: Byte): seq<Byte> {
    seq(size, _ => val)
  }

  function Eval(i: Instr, c: Config): Config {
    match i
    case Malloc(dst, size) =>
      if |c.raw| != size then c.Stop(BadAccess)
      else c.(heap := c.raw).Assign(dst, c.base)
    case Memset(ptr, val, size) =>
      if !c.Defined(ptr) then c.Stop(Malformed)
      else if c.env[ptr] != c.base || size != |c.heap| || c.frees != 0 then c.Stop(BadAccess)
      else c.(heap := Filled(size, val)).Next()
    case Free(ptr) =>
      if !c.Defined(ptr) then c.Stop(Malformed)
      else if c.env[ptr] != c.base || c.frees != 0 then c.Stop(BadAccess)
      else c.(frees := c.frees + 1).Next()
    case Gep(dst, ptr, offset) =>
      if !c.Defined(ptr) then c.Stop(Malformed) else c.Assign(dst, c.env[ptr] + offset)
    case Phi(dst, incoming) =>
      var src := Incoming(incoming, c.prev);
      if |src| != 1 || !c.Defined(src[0]) then c.Stop(Malformed) else c.Assign(dst, c.env[src[0]])
    case Load(dst, ptr) =>
      if !c.Defined(ptr) then c.Stop(Malformed)
      else if !c.Live(ptr) then c.Stop(BadAccess)
      else c.Assign(dst, c.heap[c.env[ptr] - c.base])
    case Store(src, ptr) =>
      if !c.Defined(src) || !c.Defined(ptr) then c.Stop(Malformed)
      else if !c.Live(ptr) then c.Stop(BadAccess)
      else c.(heap := c.heap[c.env[ptr] - c.base := Low8(c.env[src])]).Next()
    case AddI8(dst, src, constant) =>
      if !c.Defined(src) then c.Stop(Malformed) else c.Assign(dst, Low8(c.env[src] + constant))
    case Trunc(dst, src) =>
      if !c.Defined(src) then c.Stop(Malformed) else c.Assign(dst, Low8(c.env[src]))
    case SExt(dst, src) =>
      if !c.Defined(src) then c.Stop(Malformed) else c.Assign(dst, Signed(c.env[src]))
    case ICmpUGE(dst, a, b) =>
      if !c.Defined(a) || !c.Defined(b) then c.Stop(Malformed) else c.Assign(dst, Bit(c.env[a] >= c.env[b]))
    case ICmpULT(dst, a, b) =>
      if !c.Defined(a) || !c.Defined(b) then c.Stop(Malformed) else c.Assign(dst, Bit(c.env[a] < c.env[b]))
    case ICmpEQ(dst, a, constant) =>
      if !c.Defined(a) then c.Stop(Malformed) else c.Assign(dst, Bit(c.env[a] == constant))
    case Or(dst, a, b) =>
      if !c.Defined(a) || !c.Defined(b) then c.Stop(Malformed)
      else c.Assign(dst, Bit(c.env[a] != 0 || c.env[b] != 0))
    case GetChar(dst) =>
      if c.input == [] then c.Assign(dst, -1)
      else c.(input := c.input[1..]).Assign(dst, c.input[0])
    case PutChar(src) =>
      if !c.Defined(src) then c.Stop(Malformed)
      else c.(output := c.output + [Low8(c.env[src])]).Next()
    case PutsError => c.(complaints := c.complaints + 1).Next()
    case Br(target) => c.Goto(target)
    case CondBr(cond, ifTrue, ifFalse) =>
      if !c.Defined(cond) then c.Stop(Malformed)
      else c.Goto(if c.env[cond] != 0 then ifTrue else ifFalse)
    case Ret => c.Stop(Returned)
  }

  function Step(f: Function, c: Config): Config {
    if !c.status.Running? then c
    else if c.block < |f| && c.pc < |f[c.block]| then Eval(f[c.block][c.pc], c)
    else c.Stop(Malformed)
  }

  function Run(f: Function, c: Config, steps: nat): Config
    decreases steps
  {
    if steps == 0 then c else Run(f, Step(f, c), steps - 1)
  }

  lemma RunAdd(f: Function, c: Config, m: nat, n: nat)
    ensures Run(f, c, m + n) == Run(f, Run(f, c, m), n)
    decreases m
  {
    if m == 0 {
    } else {
      RunAdd(f, Step(f, c), m - 1, n);
    }
  }

  lemma HaltedStays(f: Function, c: Config, n: nat)
    requires !c.status.Running?
    ensures Run(f, c, n) == c
    decreases n
  {
  }

  /** Once a run has stopped at some step it is stopped, in the same way, at every later one. */
  lemma HaltedForGood(f: Function, c: Config, m: nat, n: nat)
    requires m <= n && !Run(f, c, m).status.Running?
    ensures Run(f, c, n) == Run(f, c, m)
  {
    RunAdd(f, c, m, n - m);
    HaltedStays(f, Run(f, c, m), n - m);
  }
}
