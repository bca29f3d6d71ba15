/** The functions generated around a throwing call, with their catch blocks and their finally
    block, and the two-phase unwinder walking over any depth of them. */
module Unwinding {
  import opened Leb128
  import opened Personality
  import opened ExceptionTable

  // ----- the generated function -----

  datatype Label =
    | EntryBlock
    | NormalBlock
    | ExceptionBlock
    | ExceptionRouteBlock
    | ExternalExceptionBlock
    | UnwindResumeBlock
    | EndBlock
    | FinallyBlock
    | CatchBlock(index: nat)

  /** The three values of the exception flag. */
  datatype Flag = NotThrownState | ThrownState | CaughtState

  datatype Instr =
    | InitFlag
    | InitStorage
    | StoreException
    | StoreFlag(flag: Flag)
    | RunFinally
    | RunCatch(index: nat)
    | DeleteOurException

  datatype Terminator =
    | Invoke(normal: Label, unwind: Label)
    | Br(target: Label)
    | SwitchFlag(otherwise: Label, caught: Label, thrown: Label)
    | SwitchSelector(otherwise: Label, cases: seq<Label>)
    | IfOurs(yes: Label, no: Label)
    | ResumeUnwind
    | RetVoid

  datatype Block = Block(code: seq<Instr>, term: Terminator)

  type GeneratedFunction = map<Label, Block>

  /** The blocks of a function that wraps a call, with n catch blocks. */
  function BlockOf(n: nat, bb: Label): Block {
    match bb
    case EntryBlock => Block([InitStorage, InitFlag], Invoke(NormalBlock, ExceptionBlock))
    case NormalBlock => Block([], Br(FinallyBlock))
    case ExceptionBlock => Block([StoreException, StoreFlag(ThrownState)], IfOurs(ExceptionRouteBlock, ExternalExceptionBlock))
    case ExceptionRouteBlock => Block([], SwitchSelector(FinallyBlock, CatchLabels(n)))
    case ExternalExceptionBlock => Block([], Br(FinallyBlock))
    case FinallyBlock => Block([RunFinally], SwitchFlag(EndBlock, EndBlock, UnwindResumeBlock))
    case UnwindResumeBlock => Block([], ResumeUnwind)
    case EndBlock => Block([DeleteOurException], RetVoid)
    case CatchBlock(i) => Block([RunCatch(i), StoreFlag(CaughtState)], Br(FinallyBlock))
  }

  function CatchLabels(n: nat): (r: seq<Label>)
    ensures |r| == n && forall i :: 0 <= i < n ==> r[i] == CatchBlock(i)
  {
    seq(n, i requires 0 <= i < n => CatchBlock(i))
  }

  /** f has exactly the blocks of a wrapping function with n catches. */
  ghost predicate Wraps(f: GeneratedFunction, n: nat) {
    && (forall l :: l in f <==> (l.CatchBlock? ==> l.index < n))
    && forall l :: l in f ==> f[l] == BlockOf(n, l)
  }

  /** f has the blocks named in `labels`, and they are right. */
  ghost predicate Built(f: GeneratedFunction, n: nat, labels: set<Label>) {
    f.Keys == labels && forall l :: l in labels ==> f[l] == BlockOf(n, l)
  }

  lemma OneMoreBlock(f: GeneratedFunction, n: nat, labels: set<Label>, l: Label)
    requires Built(f, n, labels)
    ensures Built(f[l := BlockOf(n, l)], n, labels + {l})
  {
    hide BlockOf;
  }

  function FirstCatches(i: nat): (r: set<Label>)
    ensures forall l :: l in r <==> l.CatchBlock? && l.index < i
  {
    set k: nat | k < i :: CatchBlock(k)
  }

  lemma OneMoreCatch(i: nat)
    ensures {FinallyBlock} + FirstCatches(i) + {CatchBlock(i)} == {FinallyBlock} + FirstCatches(i + 1)
  {
  }

  /** The finally block, and the storage that it and the landing pad use. */
  method CreateFinallyBlock(f: GeneratedFunction) returns (g: GeneratedFunction, entryCode: seq<Instr>)
    ensures entryCode == [InitStorage, InitFlag]
    ensures forall n :: g == f[FinallyBlock := BlockOf(n, FinallyBlock)]
  {
    entryCode := [InitFlag];
    // each variable's code goes to the front of the entry block
    entryCode := [InitStorage] + entryCode;
    g := f[FinallyBlock := Block([RunFinally], SwitchFlag(EndBlock, EndBlock, UnwindResumeBlock))];
  }

  method CreateCatchBlock(f: GeneratedFunction, i: nat) returns (g: GeneratedFunction)
    ensures forall n :: g == f[CatchBlock(i) := BlockOf(n, CatchBlock(i))]
  {
    g := f[CatchBlock(i) := Block([RunCatch(i), StoreFlag(CaughtState)], Br(FinallyBlock))];
  }

  /** The routing switch: selector i goes to the block of the i-th catch, counted from 1. */
  method CreateRoute(catchBlocks: seq<Label>) returns (block: Block)
    requires catchBlocks == CatchLabels(|catchBlocks|)
    ensures block == BlockOf(|catchBlocks|, ExceptionRouteBlock)
  {
    var cases := [];
    var i := 1;
    while i <= |catchBlocks|
      invariant 1 <= i <= |catchBlocks| + 1 && cases == catchBlocks[..i - 1]
    {
      var nextTypeToCatch := i - 1;
      cases := cases + [catchBlocks[nextTypeToCatch]];
      i := i + 1;
    }
    assert cases == catchBlocks;
    return Block([], SwitchSelector(FinallyBlock, cases));
  }

  function CallBlocks(): set<Label> {
    {EntryBlock, EndBlock, NormalBlock, UnwindResumeBlock}
  }

  /** The call itself, and the blocks that end the function. */
  method CreateCallBlocks(f: GeneratedFunction, ghost n: nat, ghost labels: set<Label>, entryCode: seq<Instr>)
    returns (g: GeneratedFunction)
    requires Built(f, n, labels) && entryCode == [InitStorage, InitFlag]
    ensures Built(g, n, labels + CallBlocks())
  {
    hide Built, CatchLabels;
    ghost var more := labels;
    g, more := Put(f, n, more, EntryBlock, Block(entryCode, Invoke(NormalBlock, ExceptionBlock)));
    g, more := Put(g, n, more, EndBlock, Block([DeleteOurException], RetVoid));
    g, more := Put(g, n, more, NormalBlock, Block([], Br(FinallyBlock)));
    g, more := Put(g, n, more, UnwindResumeBlock, Block([], ResumeUnwind));
    assert more == labels + CallBlocks();
  }

  /** Builds the function block by block, in the generator's order. */
  method CreateCatchWrappedInvokeFunction(numExceptionsToCatch: nat) returns (f: GeneratedFunction)
    ensures Wraps(f, numExceptionsToCatch)
  {
    hide Built, Wraps, CatchLabels, FirstCatches, CallBlocks;
    ghost var n := numExceptionsToCatch;
    ghost var labels := {};
    var entryCode: seq<Instr>;
    NoBlocks(n);
    OneMoreBlock(map[], n, {}, FinallyBlock);
    f, entryCode := CreateFinallyBlock(map[]);
    assert {} + {FinallyBlock} == {FinallyBlock} + FirstCatches(0);
    // one catch block per type info to be caught
    var catchBlocks: seq<Label> := [];
    var i := 0;
    while i < numExceptionsToCatch
      invariant 0 <= i <= numExceptionsToCatch
      invariant |catchBlocks| == i && forall j :: 0 <= j < i ==> catchBlocks[j] == CatchBlock(j)
      invariant Built(f, n, {FinallyBlock} + FirstCatches(i))
    {
      OneMoreBlock(f, n, {FinallyBlock} + FirstCatches(i), CatchBlock(i));
      f := CreateCatchBlock(f, i);
      catchBlocks := catchBlocks + [CatchBlock(i)];
      i := i + 1;
      OneMoreCatch(i - 1);
    }
    f := CreateCallBlocks(f, n, {FinallyBlock} + FirstCatches(n), entryCode);
    labels := {FinallyBlock} + FirstCatches(n) + CallBlocks();
    f, labels := Put(f, n, labels, ExceptionBlock,
                     Block([StoreException, StoreFlag(ThrownState)], IfOurs(ExceptionRouteBlock, ExternalExceptionBlock)));
    f, labels := Put(f, n, labels, ExternalExceptionBlock, Block([], Br(FinallyBlock)));
    assert catchBlocks == CatchLabels(n);
    var route := CreateRoute(catchBlocks);
    f, labels := Put(f, n, labels, ExceptionRouteBlock, route);
    AllBuilt(f, n);
  }

  /** Sets the insert point to a block and writes its code. */
  method Put(f: GeneratedFunction, ghost n: nat, ghost labels: set<Label>, l: Label, block: Block)
    returns (g: GeneratedFunction, ghost more: set<Label>)
    requires Built(f, n, labels) && block == BlockOf(n, l)
    ensures g == f[l := block] && more == labels + {l} && Built(g, n, more)
  {
    OneMoreBlock(f, n, labels, l);
    g, more := f[l := block], labels + {l};
  }

  lemma NoBlocks(n: nat)
    ensures Built(map[], n, {})
  {
  }

  lemma AllBuilt(f: GeneratedFunction, n: nat)
    requires Built(f, n, {FinallyBlock} + FirstCatches(n) + CallBlocks()
                         + {ExceptionBlock} + {ExternalExceptionBlock} + {ExceptionRouteBlock})
    ensures Wraps(f, n)
  {
    hide BlockOf;
  }

  // ----- running nested functions -----

  /** How a frame was left, if it was. */
  datatype Leaving = Inside | Returned | Unwound

  /** A generated function in memory: the types its catches list, the memory and its table there,
      where it starts, the return address of its call, and the offset of its landing pad. */
  datatype Code = Code(types: seq<nat>, mem: Memory, lsda: nat, start: nat, ip: nat, pad: nat)

  /** One function on the stack: its code, where it is, its stack storage, the selector it was
      entered with at its landing pad, and what its blocks did. */
  datatype Frame = Frame(
    code: Code, at: Label, flag: Flag, stored: bool, selector: nat,
    finallyRuns: nat, catchRuns: seq<nat>, leaving: Leaving)

  /** The unwinder looks for a handler, runs landing pads, or is not at work; the run ends with a
      return of the outermost function, or in the handler outside of it that catches everything. */
  datatype Mode = Running | Searching(level: nat) | Cleaning(level: nat) | ReturnedAll | ReachedHarness | Broken

  /** Frames from the innermost on; what the innermost call throws, if anything; and how often
      generated code has freed the exception. */
  datatype Config = Config(frames: seq<Frame>, current: nat, mode: Mode, thrown: seq<Thrown>, deletes: nat)

  /** The personality function reads the function's table. */
  function Asked(search: bool, code: Code, thrown: Thrown): Reason {
    LsdaAnswer(code.mem, code.lsda, search, thrown, code.ip, code.start)
  }

  /** The function's table is the emitted one, the first site that guards its call has the landing
      pad, and its catches list the types. */
  ghost predicate EmittedWith(code: Code, sites: seq<CallSite>, typeInfos: seq<nat>, catches: seq<nat>) {
    && code.lsda != 0
    && TableAt(code.mem, code.lsda, sites, typeInfos, catches) && CatchesAre(code.mem, typeInfos, catches, code.types)
    && Addressable(sites, code.start, code.ip)
    && exists k: nat :: FirstGuard(sites, code.start, code.ip, k) && sites[k].pad == code.pad
  }

  ghost predicate Emitted(code: Code) {
    exists sites, typeInfos, catches :: EmittedWith(code, sites, typeInfos, catches)
  }

  ghost predicate AllEmitted(codes: seq<Code>) {
    forall i :: 0 <= i < |codes| ==> Emitted(codes[i])
  }

  function PadAddress(code: Code): nat {
    (code.start + code.pad) % TWO64
  }

  /** So the personality answers for it by its list of catches. */
  lemma AnsweredByList(search: bool, code: Code, thrown: Thrown)
    requires Emitted(code)
    ensures Asked(search, code, thrown) == ByCatches(search, code.types, thrown, PadAddress(code))
  {
    hide LsdaAnswer, Addressable, CatchesAre, TableAt, ByCatches;
    var sites: seq<CallSite>, typeInfos, catches :| EmittedWith(code, sites, typeInfos, catches);
    var k: nat :| FirstGuard(sites, code.start, code.ip, k) && sites[k].pad == code.pad;
    EmittedCallIsHandled(code.mem, code.lsda, sites, typeInfos, catches, code.types, search, thrown, code.ip, code.start, k);
  }

  function RunInstr(i: Instr, f: Frame): Frame {
    match i
    case InitFlag => f.(flag := NotThrownState)
    case InitStorage => f.(stored := false)
    case StoreException => f.(stored := true)
    case StoreFlag(v) => f.(flag := v)
    case RunFinally => f.(finallyRuns := f.finallyRuns + 1)
    case RunCatch(k) => f.(catchRuns := f.catchRuns + [k])
    case DeleteOurException => f
  }

  function RunCode(code: seq<Instr>, f: Frame): Frame {
    if code == [] then f else RunCode(code[1..], RunInstr(code[0], f))
  }

  /** What the frame holds is freed unless it is a foreign exception: the exception thrown, or
      whatever was left on the stack if nothing has been stored. */
  function Deletes(code: seq<Instr>, f: Frame, thrown: seq<Thrown>): nat {
    if DeleteOurException in code && f.stored && (thrown == [] || thrown[0].Ours?) then 1 else 0
  }

  function SetFrame(c: Config, f: Frame): Config
    requires c.current < |c.frames|
  {
    c.(frames := c.frames[c.current := f])
  }

  /** The current frame runs one block. */
  function RunBlock(c: Config): Config
    requires c.current < |c.frames|
  {
    var f := c.frames[c.current];
    var block := BlockOf(|f.code.types|, f.at);
    var g := RunCode(block.code, f);
    var d := c.(deletes := c.deletes + Deletes(block.code, g, c.thrown));
    match block.term
    case Br(l) => SetFrame(d, g.(at := l))
    case SwitchFlag(otherwise, caught, thrown) =>
      SetFrame(d, g.(at := if g.flag == CaughtState then caught else if g.flag == ThrownState then thrown else otherwise))
    case SwitchSelector(otherwise, cases) =>
      SetFrame(d, g.(at := if 1 <= g.selector <= |cases| then cases[g.selector - 1] else otherwise))
    case IfOurs(yes, no) => SetFrame(d, g.(at := if c.thrown != [] && c.thrown[0].Ours? then yes else no))
    case Invoke(normal, _) =>
      if c.current > 0 then SetFrame(d, g).(current := c.current - 1)
      else if c.thrown == [] then SetFrame(d, g.(at := normal))
      else SetFrame(d, g).(mode := Searching(0))
    case ResumeUnwind => SetFrame(d, g.(leaving := Unwound)).(mode := Cleaning(c.current + 1))
    case RetVoid =>
      var e := SetFrame(d, g.(leaving := Returned));
      if c.current + 1 == |c.frames| then e.(mode := ReturnedAll)
      else
        var caller := e.frames[c.current + 1];
        (match BlockOf(|caller.code.types|, caller.at).term
         case Invoke(normal, _) => e.(current := c.current + 1, frames := e.frames[c.current + 1 := caller.(at := normal)])
         case _ => e.(mode := Broken))
  }

  /** The current frame, which is in a call, goes on where its invoke says for an exception. */
  function EnterAt(c: Config, call: Terminator, selector: nat): Config
    requires c.current < |c.frames|
  {
    match call
    case Invoke(_, unwind) => SetFrame(c, c.frames[c.current].(at := unwind, selector := selector))
    case _ => c.(mode := Broken)
  }

  /** One block, or one frame looked at by the unwinder. */
  function Step(c: Config): Config {
    match c.mode
    case Running => if c.current < |c.frames| then RunBlock(c) else c.(mode := Broken)
    case Searching(level) =>
      if c.thrown == [] then c.(mode := Broken)
      else if level >= |c.frames| then c.(mode := Cleaning(0))
      else
        (match Asked(true, c.frames[level].code, c.thrown[0])
         case HandlerFound => c.(mode := Cleaning(0))
         case ContinueUnwind => c.(mode := Searching(level + 1))
         case _ => c.(mode := Broken))
    case Cleaning(level) =>
      if c.thrown == [] then c.(mode := Broken)
      else if level >= |c.frames| then c.(mode := ReachedHarness)
      else
        var f := c.frames[level];
        (match Asked(false, f.code, c.thrown[0])
         case ContinueUnwind => c.(mode := Cleaning(level + 1))
         case InstallContext(selector, ip) =>
           if ip != PadAddress(f.code) then c.(mode := Broken)
           else EnterAt(c.(current := level, mode := Running), BlockOf(|f.code.types|, f.at).term, selector)
         case _ => c.(mode := Broken))
    case _ => c
  }

  function Run(c: Config, steps: nat): Config
    decreases steps
  {
    if steps == 0 then c else Run(Step(c), steps - 1)
  }

  lemma RunAdd(c: Config, m: nat, n: nat)
    ensures Run(c, m + n) == Run(Run(c, m), n)
    decreases m
  {
    if m == 0 {
    } else {
      RunAdd(Step(c), m - 1, n);
    }
  }

  // ----- the stages of a run -----

  /** What a new frame finds in its place on the stack. */
  datatype Rubbish = Rubbish(flag: Flag, stored: bool)

  function Fresh(code: Code, left: Rubbish): Frame {
    Frame(code, EntryBlock, left.flag, left.stored, 0, 0, [], Inside)
  }

  /** A frame that waits for its call. */
  function Called(code: Code): Frame {
    Frame(code, EntryBlock, NotThrownState, false, 0, 0, [], Inside)
  }

  /** A frame that the exception has passed through. */
  function Passed(code: Code): Frame {
    Frame(code, UnwindResumeBlock, ThrownState, true, 0, 1, [], Unwound)
  }

  /** A frame that has caught the exception with its k-th catch. */
  function CaughtBy(code: Code, k: nat): Frame {
    Frame(code, EndBlock, CaughtState, true, k + 1, 1, [k], Returned)
  }

  /** A frame whose call returned. */
  function Finished(code: Code): Frame {
    Frame(code, EndBlock, NotThrownState, false, 0, 1, [], Returned)
  }

  function AllCalled(codes: seq<Code>): seq<Frame> {
    seq(|codes|, i requires 0 <= i < |codes| => Called(codes[i]))
  }

  /** The functions outside `level` wait for their calls, the others have not started. */
  function CallStack(codes: seq<Code>, left: seq<Rubbish>, level: nat): seq<Frame>
    requires |left| == |codes|
  {
    seq(|codes|, i requires 0 <= i < |codes| => if i <= level then Fresh(codes[i], left[i]) else Called(codes[i]))
  }

  function Calling(codes: seq<Code>, left: seq<Rubbish>, thrown: seq<Thrown>, level: nat): Config
    requires |left| == |codes|
  {
    Config(CallStack(codes, left, level), level, Running, thrown, 0)
  }

  /** The outermost function is about to be called. */
  function Start(codes: seq<Code>, left: seq<Rubbish>, thrown: seq<Thrown>): Config
    requires codes != [] && |left| == |codes|
  {
    Calling(codes, left, thrown, |codes| - 1)
  }

  lemma StepOnce(c: Config)
    ensures Run(c, 1) == Step(c)
  {
    assert Run(Step(c), 0) == Step(c);
  }

  lemma RunOne(a: Instr, f: Frame)
    ensures RunCode([a], f) == RunInstr(a, f)
  {
    assert [a][1..] == [];
  }

  lemma RunTwo(a: Instr, b: Instr, f: Frame)
    ensures RunCode([a, b], f) == RunInstr(b, RunInstr(a, f))
  {
    assert [a, b][1..] == [b];
    RunOne(b, RunInstr(a, f));
  }

  lemma EntryRuns(code: Code, left: Rubbish)
    ensures RunCode([InitStorage, InitFlag], Fresh(code, left)) == Called(code)
  {
    RunTwo(InitStorage, InitFlag, Fresh(code, left));
  }

  /** Every function calls the next inner one. */
  lemma {:induction false} CallsDescend(codes: seq<Code>, left: seq<Rubbish>, thrown: seq<Thrown>, k: nat)
    requires k < |codes| == |left|
    ensures Run(Start(codes, left, thrown), k) == Calling(codes, left, thrown, |codes| - 1 - k)
  {
    hide Calling, Step;
    if k == 0 {
    } else {
      CallsDescend(codes, left, thrown, k - 1);
      RunAdd(Start(codes, left, thrown), k - 1, 1);
      StepOnce(Calling(codes, left, thrown, |codes| - k));
      OneCall(codes, left, thrown, |codes| - k);
    }
  }

  lemma OneCall(codes: seq<Code>, left: seq<Rubbish>, thrown: seq<Thrown>, level: nat)
    requires 0 < level < |codes| == |left|
    ensures Step(Calling(codes, left, thrown, level)) == Calling(codes, left, thrown, level - 1)
  {
    EntryRuns(codes[level], left[level]);
    assert CallStack(codes, left, level)[level := Called(codes[level])] == CallStack(codes, left, level - 1);
  }

  /** The first function from the inside, at or outside `level`, whose catches list the thrown
      type; as many as there are functions if none does. */
  function Catcher(codes: seq<Code>, thrown: Thrown, level: nat): (r: nat)
    requires level <= |codes|
    ensures level <= r <= |codes|
    decreases |codes| - level
  {
    if level == |codes| then level
    else if thrown.Ours? && FirstCatch(codes[level].types, thrown.typ, 0).Match? then level
    else Catcher(codes, thrown, level + 1)
  }

  /** The stack while landing pads run: the exception has passed the functions inside `level`. */
  function PassedUpTo(codes: seq<Code>, level: nat): (r: seq<Frame>)
    ensures |r| == |codes|
  {
    seq(|codes|, i requires 0 <= i < |codes| => if i < level then Passed(codes[i]) else Called(codes[i]))
  }

  function AtCleaning(codes: seq<Code>, thrown: Thrown, level: nat, current: nat): Config {
    Config(PassedUpTo(codes, level), current, Cleaning(level), [thrown], 0)
  }

  /** The search phase walks out to the catcher, or past the last function, and touches no frame. */
  lemma {:induction false} SearchPhase(codes: seq<Code>, thrown: Thrown, level: nat, c: Config) returns (n: nat)
    requires AllEmitted(codes)
    requires c.frames == AllCalled(codes) && c.mode == Searching(level) && c.thrown == [thrown] && level <= |codes|
    ensures Run(c, n) == c.(mode := Cleaning(0))
    decreases |codes| - level
  {
    hide Asked, Emitted;
    StepOnce(c);
    n := 1;
    if level == |codes| {
    } else {
      AnsweredByList(true, codes[level], thrown);
      if !CaughtHere(codes[level].types, thrown).Match? {
        var m := SearchPhase(codes, thrown, level + 1, Step(c));
        RunAdd(c, 1, m);
        n := 1 + m;
      }
    }
  }

  /** The function at `level` runs, with frame f, after the exception has passed the ones inside it. */
  function RunningAt(codes: seq<Code>, thrown: Thrown, level: nat, f: Frame): Config
    requires level < |codes|
  {
    Config(PassedUpTo(codes, level)[level := f], level, Running, [thrown], 0)
  }

  /** A frame at its landing pad. */
  function Landed(code: Code, selector: nat): Frame {
    Called(code).(at := ExceptionBlock, selector := selector)
  }

  /** The selector for a function's landing pad: the matching catch, counted from 1, or 0. */
  function SelectorFor(types: seq<nat>, thrown: Thrown): nat {
    match CaughtHere(types, thrown)
    case Match(i) => i
    case _ => 0
  }

  lemma EnterPad(codes: seq<Code>, thrown: Thrown, level: nat, current: nat)
    requires level < |codes| && Emitted(codes[level])
    ensures Step(AtCleaning(codes, thrown, level, current)) ==
            RunningAt(codes, thrown, level, Landed(codes[level], SelectorFor(codes[level].types, thrown)))
  {
    hide Asked, Emitted, RunBlock, PadAddress, FirstCatch;
    AnsweredByList(false, codes[level], thrown);
    assert PassedUpTo(codes, level)[level] == Called(codes[level]);
  }

  /** Where a block that stays inside the function goes, with the frame as its code left it. */
  function Target(thrown: Thrown, f: Frame): Label {
    match f.at
    case ExceptionBlock => if thrown.Ours? then ExceptionRouteBlock else ExternalExceptionBlock
    case ExceptionRouteBlock => if 1 <= f.selector <= |f.code.types| then CatchBlock(f.selector - 1) else FinallyBlock
    case FinallyBlock => if f.flag == ThrownState then UnwindResumeBlock else EndBlock
    case _ => FinallyBlock
  }

  /** The running function runs a block that ends in a branch inside the function. */
  lemma BlockStep(codes: seq<Code>, thrown: Thrown, level: nat, f: Frame, g: Frame)
    requires level < |codes|
    requires f.at in {ExceptionRouteBlock, ExternalExceptionBlock, FinallyBlock, ExceptionBlock} || f.at.CatchBlock?
    requires g == RunCode(BlockOf(|f.code.types|, f.at).code, f) && g.at == f.at && g.code == f.code
    ensures Step(RunningAt(codes, thrown, level, f)) == RunningAt(codes, thrown, level, g.(at := Target(thrown, g)))
  {
    hide PassedUpTo, RunCode, Asked;
    SetAgain(PassedUpTo(codes, level), level, f, g.(at := Target(thrown, g)));
  }

  lemma SetAgain(s: seq<Frame>, i: nat, f: Frame, h: Frame)
    requires i < |s|
    ensures s[i := f][i := h] == s[i := h]
  {
  }

  /** From the landing pad to the finally block or to the catch that the selector names. */
  lemma PadToRoute(codes: seq<Code>, thrown: Thrown, level: nat, selector: nat)
    requires level < |codes|
    ensures var code := codes[level];
            var f := Called(code).(flag := ThrownState, stored := true, selector := selector);
            Step(Step(RunningAt(codes, thrown, level, Landed(code, selector)))) ==
            RunningAt(codes, thrown, level,
              f.(at := if thrown.Ours? && 1 <= selector <= |code.types| then CatchBlock(selector - 1) else FinallyBlock))
  {
    hide Step, RunningAt;
    var f := Landed(codes[level], selector);
    RunTwo(StoreException, StoreFlag(ThrownState), f);
    var g := f.(flag := ThrownState, stored := true);
    BlockStep(codes, thrown, level, f, g);
    var h := g.(at := if thrown.Ours? then ExceptionRouteBlock else ExternalExceptionBlock);
    BlockStep(codes, thrown, level, h, h);
  }

  /** From the landing pad of a function without a match, through its finally block, back to the unwinder. */
  lemma PassThrough(codes: seq<Code>, thrown: Thrown, level: nat, current: nat)
    requires AllEmitted(codes)
    requires level < |codes| && Catcher(codes, thrown, level) != level
    ensures Run(AtCleaning(codes, thrown, level, current), 5) == AtCleaning(codes, thrown, level + 1, level)
  {
    hide Step, RunningAt, AtCleaning, Run;
    var code := codes[level];
    RunFive(AtCleaning(codes, thrown, level, current));
    EnterPad(codes, thrown, level, current);
    PadToRoute(codes, thrown, level, 0);
    var f := Called(code).(at := FinallyBlock, flag := ThrownState, stored := true);
    RunOne(RunFinally, f);
    BlockStep(codes, thrown, level, f, f.(finallyRuns := 1));
    Resume(codes, thrown, level);
  }

  lemma Resume(codes: seq<Code>, thrown: Thrown, level: nat)
    requires level < |codes|
    ensures Step(RunningAt(codes, thrown, level, Passed(codes[level]).(leaving := Inside))) == AtCleaning(codes, thrown, level + 1, level)
  {
    var f := Passed(codes[level]).(leaving := Inside);
    var c := RunningAt(codes, thrown, level, f);
    assert c.frames[level] == f;
    assert RunCode([], f) == f;
    assert c.frames[level := Passed(codes[level])] == PassedUpTo(codes, level + 1);
  }

  lemma RunFive(c: Config)
    ensures Run(c, 5) == Step(Step(Step(Step(Step(c)))))
  {
    RunAdd(c, 2, 3);
    assert Run(c, 2) == Run(Step(c), 1);
    StepOnce(Step(c));
    var d := Step(Step(c));
    assert Run(d, 3) == Run(Step(d), 2) == Run(Step(Step(d)), 1);
    StepOnce(Step(Step(d)));
  }

  /** The landing pads inside the catcher run one after the other. */
  lemma {:induction false} CleanupPhase(codes: seq<Code>, thrown: Thrown, level: nat, current: nat)
    returns (n: nat, last: nat)
    requires AllEmitted(codes)
    requires level <= |codes|
    ensures Run(AtCleaning(codes, thrown, level, current), n) == AtCleaning(codes, thrown, Catcher(codes, thrown, level), last)
    decreases |codes| - level
  {
    hide AtCleaning, Step, FirstCatch;
    var c := AtCleaning(codes, thrown, level, current);
    if Catcher(codes, thrown, level) == level {
      n, last := 0, current;
      assert Run(c, 0) == c;
    } else {
      PassThrough(codes, thrown, level, current);
      n, last := CleanupPhase(codes, thrown, level + 1, level);
      RunAdd(c, 5, n);
      n := 5 + n;
    }
  }

  /** The final frame of the i-th function, when the catcher (-1 for none) has used catch k. */
  function FinalFrame(code: Code, i: nat, catcher: int, k: nat): Frame {
    if i < catcher then Passed(code) else if i == catcher then CaughtBy(code, k) else Finished(code)
  }

  function FinalFrames(codes: seq<Code>, catcher: int, k: nat): seq<Frame> {
    seq(|codes|, i requires 0 <= i < |codes| => FinalFrame(codes[i], i, catcher, k))
  }

  /** Functions inside `level` are finished, and the function at `level` has just been returned to. */
  function ReturningStack(codes: seq<Code>, catcher: int, k: nat, level: nat): seq<Frame> {
    seq(|codes|, i requires 0 <= i < |codes| =>
      if i < level then FinalFrame(codes[i], i, catcher, k)
      else if i == level then Called(codes[i]).(at := NormalBlock)
      else Called(codes[i]))
  }

  function Returning(codes: seq<Code>, thrown: seq<Thrown>, catcher: int, k: nat, level: nat, deletes: nat): Config
    requires codes != []
  {
    if level < |codes| then Config(ReturningStack(codes, catcher, k, level), level, Running, thrown, deletes)
    else Config(FinalFrames(codes, catcher, k), |codes| - 1, ReturnedAll, thrown, deletes)
  }

  lemma RunThree(c: Config)
    ensures Run(c, 3) == Step(Step(Step(c)))
  {
    assert Run(c, 3) == Run(Step(c), 2) == Run(Step(Step(c)), 1);
    StepOnce(Step(Step(c)));
  }

  lemma NormalStep(c: Config, f: Frame)
    requires c.mode == Running && c.current < |c.frames| && c.frames[c.current] == f && f.at == NormalBlock
    ensures Step(c) == SetFrame(c, f.(at := FinallyBlock))
  {
    assert RunCode([], f) == f;
  }

  lemma FinallyStep(c: Config, f: Frame)
    requires c.mode == Running && c.current < |c.frames| && c.frames[c.current] == f
    requires f.at == FinallyBlock && f.flag == NotThrownState
    ensures Step(c) == SetFrame(c, f.(at := EndBlock, finallyRuns := f.finallyRuns + 1))
  {
    RunOne(RunFinally, f);
  }

  lemma EndStep(codes: seq<Code>, thrown: seq<Thrown>, catcher: int, k: nat, level: nat, deletes: nat, c: Config)
    requires catcher < level < |codes|
    requires var r := Returning(codes, thrown, catcher, k, level, deletes);
             c == r.(frames := r.frames[level := Finished(codes[level]).(leaving := Inside)])
    ensures Step(c) == Returning(codes, thrown, catcher, k, level + 1, deletes)
  {
    RunOne(DeleteOurException, c.frames[level]);
    assert Step(c).frames == Returning(codes, thrown, catcher, k, level + 1, deletes).frames;
  }

  /** A function whose call has returned runs its finally block and returns. */
  lemma FinishOne(codes: seq<Code>, thrown: seq<Thrown>, catcher: int, k: nat, level: nat, deletes: nat)
    requires catcher < level < |codes|
    ensures Run(Returning(codes, thrown, catcher, k, level, deletes), 3) == Returning(codes, thrown, catcher, k, level + 1, deletes)
  {
    hide Step, Run;
    var c := Returning(codes, thrown, catcher, k, level, deletes);
    RunThree(c);
    var f := Called(codes[level]).(at := NormalBlock);
    NormalStep(c, f);
    FinallyStep(SetFrame(c, f.(at := FinallyBlock)), f.(at := FinallyBlock));
    SetAgain(c.frames, level, f.(at := FinallyBlock), f.(at := EndBlock, finallyRuns := 1));
    EndStep(codes, thrown, catcher, k, level, deletes, Step(Step(c)));
  }

  lemma {:induction false} FinishAll(codes: seq<Code>, thrown: seq<Thrown>, catcher: int, k: nat, level: nat, deletes: nat)
    returns (n: nat)
    requires codes != [] && catcher < level <= |codes|
    ensures Run(Returning(codes, thrown, catcher, k, level, deletes), n) == Returning(codes, thrown, catcher, k, |codes|, deletes)
    decreases |codes| - level
  {
    hide Returning, Step;
    var c := Returning(codes, thrown, catcher, k, level, deletes);
    if level == |codes| {
      n := 0;
      assert Run(c, 0) == c;
    } else {
      FinishOne(codes, thrown, catcher, k, level, deletes);
      n := FinishAll(codes, thrown, catcher, k, level + 1, deletes);
      RunAdd(c, 3, n);
      n := 3 + n;
    }
  }

  /** The catcher's frame when its k-th catch is about to run. */
  function Catching(code: Code, k: nat): Frame {
    Called(code).(at := CatchBlock(k), flag := ThrownState, stored := true, selector := k + 1)
  }

  /** The catcher's landing pad routes to its first matching catch. */
  lemma RouteToCatch(codes: seq<Code>, typ: nat, level: nat, current: nat, k: nat)
    requires AllEmitted(codes)
    requires level < |codes| && FirstCatch(codes[level].types, typ, 0) == Match(k + 1)
    ensures k < |codes[level].types|
    ensures Run(AtCleaning(codes, Ours(typ), level, current), 3) ==
            RunningAt(codes, Ours(typ), level, Catching(codes[level], k))
  {
    hide Step, RunningAt, AtCleaning, Run;
    FirstCatchPositive(codes[level].types, typ, 0);
    RunThree(AtCleaning(codes, Ours(typ), level, current));
    EnterPad(codes, Ours(typ), level, current);
    PadToRoute(codes, Ours(typ), level, k + 1);
  }

  /** The catch, the finally block, and the end block, which frees the exception. */
  lemma CatchAndFinish(codes: seq<Code>, typ: nat, level: nat, k: nat)
    requires level < |codes| && k < |codes[level].types|
    ensures Run(RunningAt(codes, Ours(typ), level, Catching(codes[level], k)), 3)
         == Returning(codes, [Ours(typ)], level, k, level + 1, 1)
  {
    hide Step, RunningAt, Run, Returning;
    var g := Catching(codes[level], k);
    RunThree(RunningAt(codes, Ours(typ), level, g));
    RunTwo(RunCatch(k), StoreFlag(CaughtState), g);
    assert g.catchRuns + [k] == [k];
    var h := g.(flag := CaughtState, catchRuns := [k]);
    BlockStep(codes, Ours(typ), level, g, h);
    var e := h.(at := FinallyBlock);
    RunOne(RunFinally, e);
    BlockStep(codes, Ours(typ), level, e, e.(finallyRuns := 1));
    EndOfCatcher(codes, typ, level, k);
  }

  lemma EndOfCatcher(codes: seq<Code>, typ: nat, level: nat, k: nat)
    requires level < |codes| && k < |codes[level].types|
    ensures Step(RunningAt(codes, Ours(typ), level, CaughtBy(codes[level], k).(leaving := Inside)))
         == Returning(codes, [Ours(typ)], level, k, level + 1, 1)
  {
    var e := CaughtBy(codes[level], k).(leaving := Inside);
    var c := RunningAt(codes, Ours(typ), level, e);
    assert c.frames[level] == e;
    RunOne(DeleteOurException, e);
    assert Step(c).frames == Returning(codes, [Ours(typ)], level, k, level + 1, 1).frames;
  }

  lemma CatchHere(codes: seq<Code>, typ: nat, level: nat, current: nat, k: nat)
    requires AllEmitted(codes)
    requires level < |codes| && FirstCatch(codes[level].types, typ, 0) == Match(k + 1)
    ensures Run(AtCleaning(codes, Ours(typ), level, current), 6) == Returning(codes, [Ours(typ)], level, k, level + 1, 1)
  {
    hide Run, Returning, AtCleaning, RunningAt, Catching;
    RouteToCatch(codes, typ, level, current, k);
    CatchAndFinish(codes, typ, level, k);
    RunAdd(AtCleaning(codes, Ours(typ), level, current), 3, 3);
  }

  // ----- the whole run -----

  /** Exactly one catch has run: the catcher's first one for the type; and the exception is freed. */
  ghost predicate EndsCaught(codes: seq<Code>, thrown: Thrown, catcher: nat, d: Config) {
    && catcher < |codes| == |d.frames| && d.mode == ReturnedAll && d.deletes == 1
    && thrown.Ours? && |d.frames[catcher].catchRuns| == 1
    && FirstCatch(codes[catcher].types, thrown.typ, 0) == Match(d.frames[catcher].catchRuns[0] + 1)
  }

  /** How a run ends, for any depth of functions, any catch lists, and anything thrown or nothing. */
  ghost predicate EndsWell(codes: seq<Code>, thrown: seq<Thrown>, d: Config) {
    && |d.frames| == |codes|
    && (forall i :: 0 <= i < |codes| ==> d.frames[i].finallyRuns == 1)
    && if thrown == [] then
         d.mode == ReturnedAll && d.deletes == 0 && forall i :: 0 <= i < |codes| ==> d.frames[i].catchRuns == []
       else
         var catcher := Catcher(codes, thrown[0], 0);
         && (forall i :: 0 <= i < |codes| ==> d.frames[i].leaving == if i < catcher then Unwound else Returned)
         && (forall i :: 0 <= i < |codes| && i != catcher ==> d.frames[i].catchRuns == [])
         && (catcher < |codes| ==> EndsCaught(codes, thrown[0], catcher, d))
         && (catcher == |codes| ==> d.mode == ReachedHarness && d.deletes == 0)
  }

  lemma CatcherCatches(codes: seq<Code>, thrown: Thrown, level: nat)
    requires level <= |codes|
    ensures var c := Catcher(codes, thrown, level);
            c < |codes| ==> thrown.Ours? && FirstCatch(codes[c].types, thrown.typ, 0).Match?
    decreases |codes| - level
  {
  }

  lemma {:induction false} CaughtEndsWell(codes: seq<Code>, typ: nat, k: nat)
    requires codes != []
    requires var c := Catcher(codes, Ours(typ), 0); c < |codes| && FirstCatch(codes[c].types, typ, 0) == Match(k + 1)
    ensures EndsWell(codes, [Ours(typ)], Returning(codes, [Ours(typ)], Catcher(codes, Ours(typ), 0), k, |codes|, 1))
  {
  }

  lemma {:induction false} UncaughtEndsWell(codes: seq<Code>, thrown: Thrown, last: nat)
    requires Catcher(codes, thrown, 0) == |codes|
    ensures EndsWell(codes, [thrown], Step(AtCleaning(codes, thrown, |codes|, last)))
  {
  }

  lemma {:induction false} NothingThrownEndsWell(codes: seq<Code>)
    requires codes != []
    ensures EndsWell(codes, [], Returning(codes, [], -1, 0, |codes|, 0))
  {
  }

  /** Nested try/catch/finally, for any depth: the innermost function that codes the type catches it
      with its first catch for it, every function's finally block runs exactly once, and the exception
      is freed exactly once if it is caught and never if it is foreign or passes all functions. */
  lemma NestedFunctionsEndWell(codes: seq<Code>, left: seq<Rubbish>, thrown: seq<Thrown>) returns (n: nat)
    requires AllEmitted(codes)
    requires codes != [] && |left| == |codes| && |thrown| <= 1
    ensures EndsWell(codes, thrown, Run(Start(codes, left, thrown), n))
  {
    hide Run, EndsWell, Returning, Step, Calling, AllCalled, AllEmitted;
    var start := Start(codes, left, thrown);
    var depth := |codes| - 1;
    CallsDescend(codes, left, thrown, depth);
    var c := Calling(codes, left, thrown, 0);
    StepOnce(c);
    InnermostCall(codes, left, thrown);
    RunAdd(start, depth, 1);
    if thrown == [] {
      NothingThrownEndsWell(codes);
      var m := FinishAll(codes, [], -1, 0, 0, 0);
      RunAdd(start, depth + 1, m);
      n := depth + 1 + m;
    } else {
      n := ThrownRun(codes, thrown[0], Step(c));
      assert thrown == [thrown[0]];
      RunAdd(start, depth + 1, n);
      n := depth + 1 + n;
    }
  }

  /** The innermost function makes the call that throws, or returns. */
  lemma InnermostCall(codes: seq<Code>, left: seq<Rubbish>, thrown: seq<Thrown>)
    requires codes != [] && |left| == |codes| && |thrown| <= 1
    ensures Step(Calling(codes, left, thrown, 0)) ==
              if thrown == [] then Returning(codes, [], -1, 0, 0, 0)
              else Config(AllCalled(codes), 0, Searching(0), [thrown[0]], 0)
  {
    var c := Calling(codes, left, thrown, 0);
    EntryRuns(codes[0], left[0]);
    if thrown == [] {
      assert Step(c).frames == Returning(codes, [], -1, 0, 0, 0).frames;
    } else {
      assert Step(c).frames == AllCalled(codes);
    }
  }

  /** From the moment the exception is raised. */
  lemma ThrownRun(codes: seq<Code>, thrown: Thrown, c: Config) returns (n: nat)
    requires AllEmitted(codes)
    requires codes != [] && c == Config(AllCalled(codes), 0, Searching(0), [thrown], 0)
    ensures EndsWell(codes, [thrown], Run(c, n))
  {
    hide Run, EndsWell, Returning, Step, FirstCatch, Catcher, AllEmitted;
    var search := SearchPhase(codes, thrown, 0, c);
    assert PassedUpTo(codes, 0) == AllCalled(codes);
    var clean, last := CleanupPhase(codes, thrown, 0, 0);
    RunAdd(c, search, clean);
    n := search + clean;
    var catcher := Catcher(codes, thrown, 0);
    CatcherCatches(codes, thrown, 0);
    var d := AtCleaning(codes, thrown, catcher, last);
    if catcher < |codes| {
      var k := FirstCatch(codes[catcher].types, thrown.typ, 0).index - 1;
      FirstCatchPositive(codes[catcher].types, thrown.typ, 0);
      CatchHere(codes, thrown.typ, catcher, last, k);
      CaughtEndsWell(codes, thrown.typ, k);
      var m := FinishAll(codes, [thrown], catcher, k, catcher + 1, 1);
      RunAdd(d, 6, m);
      RunAdd(c, n, 6 + m);
      n := n + (6 + m);
    } else {
      StepOnce(d);
      UncaughtEndsWell(codes, thrown, last);
      RunAdd(c, n, 1);
      n := n + 1;
    }
  }

  // ----- the catcher and its catch, by membership -----

  /** The catcher is the innermost function that codes the type; a foreign exception has none. */
  lemma {:induction false} CatcherIsInnermost(codes: seq<Code>, thrown: Thrown, level: nat)
    requires level <= |codes|
    ensures var c := Catcher(codes, thrown, level);
            && (c < |codes| ==> thrown.Ours? && thrown.typ in codes[c].types)
            && (forall i :: level <= i < c && thrown.Ours? ==> thrown.typ !in codes[i].types)
            && (thrown.Foreign? ==> c == |codes|)
    decreases |codes| - level
  {
    if level == |codes| {
    } else {
      if thrown.Ours? { FirstCatchIsFirst(codes[level].types, thrown.typ, 0); }
      CatcherIsInnermost(codes, thrown, level + 1);
    }
  }

  /** The catch that runs is the first one in the list for the type. */
  lemma {:induction false} FirstCatchIsFirst(types: seq<nat>, typ: nat, i: nat)
    ensures var r := FirstCatch(types, typ, i);
            && (r.Match? <==> typ in types)
            && (r.Match? ==>
                 i < r.index <= i + |types| && types[r.index - 1 - i] == typ && forall j :: 0 <= j < r.index - 1 - i ==> types[j] != typ)
    decreases |types|
  {
    if types != [] && types[0] != typ {
      FirstCatchIsFirst(types[1..], typ, i + 1);
    }
  }
}
