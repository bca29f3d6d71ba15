/** What the compiler's builder holds, and the code each command adds to it. */
module BrainFCodeGen {
  import opened BrainFSource
  import opened BrainFIR

  /** The registers and blocks that the function header fixes. */
  datatype Fixed = Fixed(checked: bool, arr: Reg, arrmax: Reg, endbb: Label, aberrorbb: Label)

  /** The function under construction, the block the builder inserts into, the
      register that holds the head, and the next unused register. */
  datatype Gen = Gen(blocks: Function, insert: Label, curhead: Reg, unused: Reg) {
    predicate Valid() {
      insert < |blocks|
    }

    function Emit(code: Block): Gen
      requires Valid()
    {
      this.(blocks := blocks[insert := blocks[insert] + code])
    }
  }

  /** `h` is `g` with code added: at the end of the block `g` inserts into, or in new blocks. */
  ghost predicate Grows(g: Gen, h: Gen) {
    && g.Valid() && h.Valid()
    && |g.blocks| <= |h.blocks|
    && g.unused <= h.unused && (g.curhead < g.unused ==> h.curhead < h.unused)
    && (h.insert == g.insert || h.insert >= |g.blocks|)
    && |g.blocks[g.insert]| <= |h.blocks[g.insert]|
    && g.blocks[g.insert] == h.blocks[g.insert][..|g.blocks[g.insert]|]
    && forall b :: 0 <= b < |g.blocks| && b != g.insert ==> h.blocks[b] == g.blocks[b]
  }

  lemma GrowsTrans(g: Gen, h: Gen, k: Gen)
    requires Grows(g, h) && Grows(h, k)
    ensures Grows(g, k)
  {
  }

  function OpCode(op: Op, head: Reg, r: Reg): (code: Block)
  {
    match op
    case Read => [GetChar(r), Trunc(r + 1, r), Store(r + 1, head)]
    case Write => [Load(r, head), SExt(r + 1, r), PutChar(r + 1)]
    case Change(n) => [Load(r, head), AddI8(r + 1, r, Low8(n)), Store(r + 1, head)]
    case Move(n) => [Gep(r, head, n)]
  }

  /** The test that the register `head` is outside [arr, arrmax). */
  function BoundsCode(fixed: Fixed, head: Reg, r: Reg, nextbb: Label): (code: Block)
  {
    [ICmpUGE(r, head, fixed.arrmax), ICmpULT(r + 1, head, fixed.arr), Or(r + 2, r, r + 1),
     CondBr(r + 2, fixed.aberrorbb, nextbb)]
  }

  /** The test of the head against the ends of the tape; code goes on in a new block. */
  function GenBounds(fixed: Fixed, g: Gen): (h: Gen)
    requires g.Valid()
    ensures Grows(g, h)
  {
    var nextbb := |g.blocks|;
    var tested := g.Emit(BoundsCode(fixed, g.curhead, g.unused, nextbb));
    Gen(tested.blocks + [[]], nextbb, g.curhead, g.unused + 3)
  }

  function GenOp(op: Op, fixed: Fixed, g: Gen): (h: Gen)
    requires g.Valid()
    ensures Grows(g, h)
  {
    var r := g.unused;
    var emitted := g.Emit(OpCode(op, g.curhead, r));
    if !op.Move? then emitted.(unused := r + 2)
    else
      var moved := emitted.(curhead := r, unused := r + 1);
      if fixed.checked then
        GrowsTrans(g, moved, GenBounds(fixed, moved));
        GenBounds(fixed, moved)
      else moved
  }

  /** At `[`: branch to a new test block, whose phi has only its entry edge so far,
      and go on in a new body block. */
  function OpenLoop(g: Gen): (h: Gen)
    requires g.Valid()
    ensures Grows(g, h)
    ensures |h.blocks| == |g.blocks| + 2 && h.insert == |g.blocks| + 1
    ensures h.blocks[|g.blocks|] == [Phi(g.unused, [(g.curhead, g.insert)])]
  {
    var testbb := |g.blocks|;
    var phi := g.unused;
    Gen(g.Emit([Br(testbb)]).blocks + [[Phi(phi, [(g.curhead, g.insert)])], []], testbb + 1, phi, phi + 1)
  }

  /** The finished test block. */
  function TestBlock(phi: Reg, entry: (Reg, Label), back: (Reg, Label), r: Reg, exitbb: Label, bodybb: Label): Block {
    [Phi(phi, [entry, back]), Load(r, phi), ICmpEQ(r + 1, r, 0), CondBr(r + 1, exitbb, bodybb)]
  }

  /** At `]`: branch back to the test block, complete its phi, write the test into it,
      and go on in a new exit block. */
  function CloseLoop(h: Gen, testbb: Label, bodybb: Label): (k: Gen)
    requires h.Valid() && testbb < |h.blocks| && testbb != h.insert
    requires |h.blocks[testbb]| == 1 && h.blocks[testbb][0].Phi? && |h.blocks[testbb][0].incoming| == 1
  {
    var phi := h.blocks[testbb][0].dst;
    var entry := h.blocks[testbb][0].incoming[0];
    var exitbb := |h.blocks|;
    var r := h.unused;
    var test := TestBlock(phi, entry, (h.curhead, h.insert), r, exitbb, bodybb);
    Gen(h.Emit([Br(testbb)]).blocks[testbb := test] + [[Phi(r + 2, [(phi, testbb)])]], exitbb, r + 2, r + 3)
  }

  /** The code of a program, added to `g`. */
  function GenProg(p: Prog, fixed: Fixed, g: Gen): (h: Gen)
    requires g.Valid()
    ensures Grows(g, h)
    decreases p, 0
  {
    match p
    case End => g
    case Do(op, next) => GenProg(next, fixed, GenOp(op, fixed, g))
    case Loop(body, next) => GenProg(next, fixed, GenLoop(body, fixed, g))
  }

  function GenLoop(body: Prog, fixed: Fixed, g: Gen): (h: Gen)
    requires g.Valid()
    ensures Grows(g, h)
    decreases body, 1
  {
    var inner := GenProg(body, fixed, OpenLoop(g));
    var testbb := |g.blocks|;
    assert inner.blocks[testbb] == OpenLoop(g).blocks[testbb];
    CloseLoop(inner, testbb, testbb + 1)
  }

  /** The fixed part of the function, and the builder as it stands when the header is done. */
  function HeaderFixed(checked: bool): Fixed {
    Fixed(checked, 0, if checked then 1 else 0, 1, 2)
  }

  function Header(mem: nat, checked: bool): (g: Gen)
    ensures g.Valid()
  {
    var alloc := [Malloc(0, mem), Memset(0, 0, mem)];
    var endbb := [Free(0), Ret];
    if checked then
      Gen([alloc + [Gep(1, 0, mem), Gep(2, 0, mem / 2)], endbb, [PutsError, Br(1)]], 0, 2, 3)
    else
      Gen([alloc + [Gep(1, 0, mem / 2)], endbb], 0, 1, 2)
  }

  /** The whole function compiled from a program. */
  function CompiledFrom(p: Prog, mem: nat, checked: bool): Function {
    var fixed := HeaderFixed(checked);
    GenProg(p, fixed, Header(mem, checked)).Emit([Br(fixed.endbb)]).blocks
  }
}
