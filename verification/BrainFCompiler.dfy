/** The compiler itself: one recursive reading loop that lexes with one symbol of
    lookahead and writes code into the builder as it goes. */
module BrainFCompiler {
  import opened BrainFSource
  import opened BrainFText
  import opened BrainFIR
  import opened BrainFCodeGen

  datatype Symbol =
    | SymNone
    | SymRead
    | SymWrite
    | SymMove
    | SymChange
    | SymLoop
    | SymEndLoop
    | SymEof

  /** `ExtraBracket` and `MissingBracket` stand for the two messages before `abort`. */
  datatype Status = Success | ExtraBracket | MissingBracket

  /** The phi of an open loop is known by the register it defines. */
  datatype Enclosing = TopLevel | InLoop(phi: Reg)

  // ----- what is still to be compiled, while some symbols are already read -----

  function FuseAll(r: Parsed): Parsed {
    match r
    case Closed(p, rest) => Closed(Fuse(p), rest)
    case Ended(p) => Ended(Fuse(p))
    case Unclosed => Unclosed
  }

  function FuseThen(op: Op, r: Parsed): Parsed {
    match r
    case Closed(p, rest) => Closed(FuseOp(op, p), rest)
    case Ended(p) => Ended(FuseOp(op, p))
    case Unclosed => Unclosed
  }

  predicate IsOpSymbol(sym: Symbol) {
    sym.SymRead? || sym.SymWrite? || sym.SymMove? || sym.SymChange?
  }

  function SymbolOp(sym: Symbol, value: int): Op
    requires IsOpSymbol(sym)
  {
    match sym
    case SymRead => Read
    case SymWrite => Write
    case SymMove => Move(value)
    case SymChange => Change(value)
  }

  /** One symbol that has been read, followed by the text s. */
  function AfterSymbol(sym: Symbol, value: int, s: string): Parsed {
    match sym
    case SymNone => FuseAll(Parse(s))
    case SymLoop => FuseAll(Parse("[" + s))
    case SymEndLoop => Closed(End, s)
    case SymEof => Ended(End)
    case _ => FuseThen(SymbolOp(sym, value), FuseAll(Parse(s)))
  }

  predicate IsRunSymbol(sym: Symbol) {
    sym.SymMove? || sym.SymChange?
  }

  /** The current symbol, the lookahead symbol, and the text s. */
  function Ahead(cursym: Symbol, curvalue: int, nextsym: Symbol, nextvalue: int, s: string): Parsed {
    if IsRunSymbol(cursym) && !nextsym.SymNone? then
      FuseThen(SymbolOp(cursym, curvalue), AfterSymbol(nextsym, nextvalue, s))
    else AfterSymbol(cursym, curvalue, s)
  }

  /** There is a lookahead symbol only behind a run that it ends. */
  predicate Lookahead(cursym: Symbol, nextsym: Symbol) {
    nextsym.SymNone? || (IsRunSymbol(cursym) && cursym != nextsym)
  }

  /** Compiling what r holds from g comes to the same as compiling what q holds from h. */
  ghost predicate SameCode(r: Parsed, g: Gen, q: Parsed, h: Gen, fixed: Fixed)
    requires g.Valid() && h.Valid()
  {
    match r
    case Closed(p, rest) => q.Closed? && q.rest == rest && GenProg(p, fixed, g) == GenProg(q.prog, fixed, h)
    case Ended(p) => q.Ended? && GenProg(p, fixed, g) == GenProg(q.prog, fixed, h)
    case Unclosed => q.Unclosed?
  }

  lemma FuseRunThenRun(op: Op, more: Op, r: Parsed)
    requires SameRun(op, more)
    ensures FuseThen(op, FuseThen(more, r)) == FuseThen(AddRun(op, more), r)
  {
  }

  /** What one character does to the rest of a level; a loop is left as it is. */
  lemma ParseStep(s: string)
    requires s != ""
    ensures s[0] == ']' ==> Parse(s) == Closed(End, s[1..])
    ensures IsOp(s[0]) ==> Parse(s) == OpThen(OpOf(s[0]), Parse(s[1..]))
    ensures !IsCommand(s[0]) ==> Parse(s) == Parse(s[1..])
  {
  }

  lemma FuseAllOp(op: Op, r: Parsed)
    ensures FuseAll(OpThen(op, r)) == FuseThen(op, FuseAll(r))
  {
  }

  /** A symbol other than the run's own does not merge into the run. */
  lemma RunEnds(op: Op, sym: Symbol, value: int, s: string)
    requires op.Move? ==> sym != SymMove
    requires op.Change? ==> sym != SymChange
    requires sym != SymNone
    ensures var r := AfterSymbol(sym, value, s);
            FuseThen(op, r) == OpThen(op, r)
  {
    if sym.SymLoop? {
      var r := Parse("[" + s);
      assert ("[" + s)[1..] == s;
    }
  }

  function CharSymbol(c: char): Symbol {
    match c
    case ',' => SymRead
    case '.' => SymWrite
    case '-' => SymChange
    case '+' => SymChange
    case '<' => SymMove
    case '>' => SymMove
    case '[' => SymLoop
    case ']' => SymEndLoop
    case _ => SymNone
  }

  function Direction(c: char): int {
    if c == '-' || c == '<' then -1 else 1
  }

  /** Reading one more character of the text as a symbol loses nothing of it. */
  lemma ReadSymbol(s: string)
    requires s != ""
    ensures FuseAll(Parse(s)) == AfterSymbol(CharSymbol(s[0]), Direction(s[0]), s[1..])
  {
    hide Parse, FuseOp;
    ParseStep(s);
    var c := s[0];
    if c == '[' {
      assert s == "[" + s[1..];
    } else if IsOp(c) {
      FuseAllOp(OpOf(c), Parse(s[1..]));
      assert SymbolOp(CharSymbol(c), Direction(c)) == OpOf(c);
    }
  }

  lemma NoRunAhead(cursym: Symbol, curvalue: int, nextsym: Symbol, nextvalue: int, s: string)
    ensures !IsRunSymbol(cursym) ==> Ahead(cursym, curvalue, nextsym, nextvalue, s) == AfterSymbol(cursym, curvalue, s)
  {
  }

  lemma NoMoreText()
    ensures FuseAll(Parse("")) == Ended(End)
  {
  }

  lemma NothingAhead(curvalue: int, nextvalue: int, s: string)
    ensures AfterSymbol(SymNone, curvalue, s) == AfterSymbol(SymNone, nextvalue, s)
  {
  }

  lemma KeepsGrowing(g0: Gen, g: Gen, h: Gen)
    requires Grows(g0, g) && (Grows(g, h) || g == h)
    ensures Grows(g0, h)
  {
  }

  /** The open test block is left alone while the body is compiled. */
  lemma TestBlockKept(g: Gen, h: Gen, testbb: Label)
    requires Grows(g, h) && testbb < |g.blocks| && testbb != g.insert
    ensures testbb < |h.blocks| && testbb != h.insert && h.blocks[testbb] == g.blocks[testbb]
  {
  }

  lemma NothingDone(s: string, g: Gen, fixed: Fixed)
    requires g.Valid()
    ensures SameCode(FuseAll(Parse(s)), g, AfterSymbol(SymNone, 0, s), g, fixed) && Grows(g, g)
  {
  }

  /** When the text or the level has ended, all of its code has been added. */
  lemma EndAhead(cursym: Symbol, curvalue: int, s: string, r: Parsed, g0: Gen, g: Gen, fixed: Fixed)
    requires g0.Valid() && g.Valid()
    requires SameCode(FuseAll(r), g0, AfterSymbol(cursym, curvalue, s), g, fixed)
    ensures cursym.SymEndLoop? ==> r.Closed? && r.rest == s && GenProg(Fuse(r.prog), fixed, g0) == g
    ensures cursym.SymEof? ==> r.Ended? && GenProg(Fuse(r.prog), fixed, g0) == g
  {
  }

  /** Writing out a command symbol leaves its code behind and the rest ahead. */
  lemma AfterOp(cursym: Symbol, curvalue: int, nextsym: Symbol, nextvalue: int, s: string,
                r: Parsed, g0: Gen, g: Gen, fixed: Fixed)
    requires IsOpSymbol(cursym) && Lookahead(cursym, nextsym) && (IsRunSymbol(cursym) ==> !nextsym.SymNone?)
    requires g0.Valid() && g.Valid()
    requires SameCode(r, g0, Ahead(cursym, curvalue, nextsym, nextvalue, s), g, fixed)
    ensures SameCode(r, g0, AfterSymbol(nextsym, nextvalue, s), GenOp(SymbolOp(cursym, curvalue), fixed, g), fixed)
  {
    var op := SymbolOp(cursym, curvalue);
    var q := AfterSymbol(nextsym, nextvalue, s);
    if IsRunSymbol(cursym) {
      RunEnds(op, nextsym, nextvalue, s);
    }
    assert Ahead(cursym, curvalue, nextsym, nextvalue, s) == OpThen(op, q);
    if !q.Unclosed? {
      assert GenProg(Do(op, q.prog), fixed, g) == GenProg(q.prog, fixed, GenOp(op, fixed, g));
    }
  }

  /** A loop whose `[` has been read: its body is what the text holds up to its `]`. */
  lemma LoopAhead(value: int, s: string, r: Parsed, g0: Gen, g: Gen, fixed: Fixed)
    requires g0.Valid() && g.Valid()
    requires SameCode(FuseAll(r), g0, AfterSymbol(SymLoop, value, s), g, fixed)
    ensures !Parse(s).Closed? ==> r.Unclosed?
    ensures Parse(s).Closed? ==>
              SameCode(FuseAll(r), g0, AfterSymbol(SymNone, 0, Parse(s).rest), GenLoop(Fuse(Parse(s).prog), fixed, g), fixed)
  {
    assert ("[" + s)[1..] == s;
    var body := Parse(s);
    if body.Closed? {
      var q := Parse(body.rest);
      if !q.Unclosed? {
        assert GenProg(Fuse(Loop(body.prog, q.prog)), fixed, g)
            == GenProg(Fuse(q.prog), fixed, GenLoop(Fuse(body.prog), fixed, g));
      }
    }
  }

  lemma LoopClosed(body: Prog, fixed: Fixed, g: Gen)
    requires g.Valid()
    ensures var inner := GenProg(body, fixed, OpenLoop(g));
            && inner.blocks[|g.blocks|] == OpenLoop(g).blocks[|g.blocks|]
            && GenLoop(body, fixed, g) == CloseLoop(inner, |g.blocks|, |g.blocks| + 1)
  {
  }

  /** The distance to the end of the loop that is not measured by the text. */
  function Rank(cursym: Symbol, nextsym: Symbol): nat {
    if cursym.SymEof? || cursym.SymEndLoop? then 0
    else if nextsym.SymNone? || nextsym.SymEof? || nextsym.SymEndLoop? then 1
    else 2
  }

  class BrainF {
    // constants during parsing
    var memtotal: nat
    var arraybounds: bool
    var ptrArr: Reg
    var ptrArrmax: Reg
    var endbb: Label
    var aberrorbb: Label
    // the characters of the input stream that have not been read
    var source: string
    // the builder
    var blocks: Function
    var insert: Label
    var unused: Reg
    // the register that holds the head
    var curhead: Reg

    ghost function Builder(): Gen
      reads this
    {
      Gen(blocks, insert, curhead, unused)
    }

    ghost function FixedParts(): Fixed
      reads this
    {
      Fixed(arraybounds, ptrArr, ptrArrmax, endbb, aberrorbb)
    }

    constructor (source: string, mem: nat, arraybounds: bool)
      ensures this.source == source && memtotal == mem && this.arraybounds == arraybounds
    {
      this.source, memtotal, this.arraybounds := source, mem, arraybounds;
      ptrArr, ptrArrmax, endbb, aberrorbb := 0, 0, 0, 0;
      blocks, insert, unused, curhead := [], 0, 0, 0;
    }

    // ----- the builder's operations -----

    /** Appends an instruction to the block the builder inserts into. */
    method Append(i: Instr)
      requires Builder().Valid()
      modifies this`blocks
      ensures Builder() == old(Builder()).Emit([i])
    {
      blocks := blocks[insert := blocks[insert] + [i]];
    }

    /** Takes the next unused register for the value of an instruction. */
    method NewValue() returns (r: Reg)
      modifies this`unused
      ensures r == old(unused) && unused == r + 1
    {
      r := unused;
      unused := unused + 1;
    }

    method CreateBlock() returns (bb: Label)
      modifies this`blocks
      ensures bb == |old(blocks)| && blocks == old(blocks) + [[]]
    {
      bb := |blocks|;
      blocks := blocks + [[]];
    }

    // ----- code for one symbol -----

    method WriteRead()
      requires Builder().Valid()
      modifies this`blocks, this`unused
      ensures Builder() == GenOp(Read, old(FixedParts()), old(Builder()))
    {
      var tape0 := NewValue();
      Append(GetChar(tape0));
      var tape1 := NewValue();
      Append(Trunc(tape1, tape0));
      Append(Store(tape1, curhead));
      ghost var g := old(Builder());
      assert blocks[insert] == g.blocks[insert] + OpCode(Read, curhead, tape0);
      assert blocks == g.Emit(OpCode(Read, curhead, tape0)).blocks;
    }

    method WriteWrite()
      requires Builder().Valid()
      modifies this`blocks, this`unused
      ensures Builder() == GenOp(Write, old(FixedParts()), old(Builder()))
    {
      var tape0 := NewValue();
      Append(Load(tape0, curhead));
      var tape1 := NewValue();
      Append(SExt(tape1, tape0));
      Append(PutChar(tape1));
      ghost var g := old(Builder());
      assert blocks[insert] == g.blocks[insert] + OpCode(Write, curhead, tape0);
      assert blocks == g.Emit(OpCode(Write, curhead, tape0)).blocks;
    }

    method WriteMove(curvalue: int)
      requires Builder().Valid()
      modifies this`blocks, this`unused, this`curhead, this`insert
      ensures Builder() == GenOp(Move(curvalue), old(FixedParts()), old(Builder()))
    {
      var head := NewValue();
      Append(Gep(head, curhead, curvalue));
      curhead := head;
      if arraybounds { WriteBounds(); }
    }

    /** The test whether the head has left the tape. */
    method WriteBounds()
      requires Builder().Valid()
      modifies this`blocks, this`unused, this`insert
      ensures Builder() == GenBounds(old(FixedParts()), old(Builder()))
    {
      var test0 := NewValue();
      Append(ICmpUGE(test0, curhead, ptrArrmax));
      var test1 := NewValue();
      Append(ICmpULT(test1, curhead, ptrArr));
      var test2 := NewValue();
      Append(Or(test2, test0, test1));
      var nextbb := CreateBlock();
      Append(CondBr(test2, aberrorbb, nextbb));
      insert := nextbb;
      ghost var g := old(Builder());
      ghost var bounds := BoundsCode(FixedParts(), curhead, test0, nextbb);
      assert blocks[g.insert] == g.blocks[g.insert] + bounds;
      assert blocks == g.Emit(bounds).blocks + [[]];
    }

    method WriteChange(curvalue: int)
      requires Builder().Valid()
      modifies this`blocks, this`unused
      ensures Builder() == GenOp(Change(curvalue), old(FixedParts()), old(Builder()))
    {
      var tape0 := NewValue();
      Append(Load(tape0, curhead));
      var tape1 := NewValue();
      Append(AddI8(tape1, tape0, Low8(curvalue)));
      Append(Store(tape1, curhead));
      ghost var g := old(Builder());
      assert blocks[insert] == g.blocks[insert] + OpCode(Change(curvalue), curhead, tape0);
      assert blocks == g.Emit(OpCode(Change(curvalue), curhead, tape0)).blocks;
    }

    method WriteCommand(cursym: Symbol, curvalue: int)
      requires Builder().Valid() && IsOpSymbol(cursym)
      modifies this`blocks, this`unused, this`curhead, this`insert
      ensures Builder() == GenOp(SymbolOp(cursym, curvalue), old(FixedParts()), old(Builder()))
    {
      match cursym {
        case SymRead => WriteRead();
        case SymWrite => WriteWrite();
        case SymMove => WriteMove(curvalue);
        case SymChange => WriteChange(curvalue);
      }
    }

    /** The start of a loop; `phi` is the register of the phi whose back edge is still missing. */
    method BeginLoop() returns (phi: Reg, oldbb: Label, testbb: Label)
      requires Builder().Valid()
      modifies this`blocks, this`unused, this`curhead, this`insert
      ensures Builder() == OpenLoop(old(Builder()))
      ensures phi == old(unused) && testbb == |old(blocks)| && oldbb == testbb + 1
    {
      testbb := CreateBlock();
      Append(Br(testbb));
      var bb0 := insert;
      oldbb := CreateBlock();
      insert := oldbb;
      phi := NewValue();
      blocks := blocks[testbb := [Phi(phi, [(curhead, bb0)])]];
      curhead := phi;
    }

    /** The end of a loop: the back edge, the completed phi, the test and the exit block. */
    method FinishLoop(phi: Reg, oldbb: Label, testbb: Label)
      requires Builder().Valid() && testbb < |blocks| && testbb != insert
      requires |blocks[testbb]| == 1 && blocks[testbb][0].Phi? && |blocks[testbb][0].incoming| == 1
      requires blocks[testbb][0].dst == phi
      modifies this`blocks, this`unused, this`curhead, this`insert
      ensures Builder() == CloseLoop(old(Builder()), testbb, oldbb)
    {
      Append(Br(testbb));
      blocks := blocks[testbb := [Phi(phi, blocks[testbb][0].incoming + [(curhead, insert)])]];
      var tape0 := NewValue();
      blocks := blocks[testbb := blocks[testbb] + [Load(tape0, phi)]];
      var test0 := NewValue();
      blocks := blocks[testbb := blocks[testbb] + [ICmpEQ(test0, tape0, 0)]];
      var bb0 := CreateBlock();
      blocks := blocks[testbb := blocks[testbb] + [CondBr(test0, bb0, oldbb)]];
      insert := bb0;
      var phi1 := NewValue();
      Append(Phi(phi1, [(phi, testbb)]));
      curhead := phi1;
      ghost var h := old(Builder());
      ghost var test := TestBlock(phi, h.blocks[testbb][0].incoming[0], (h.curhead, h.insert), tape0, bb0, oldbb);
      assert h.blocks[testbb][0].incoming + [(h.curhead, h.insert)] == test[0].incoming;
      assert blocks[testbb] == test;
      assert blocks[bb0] == [Phi(phi1, [(phi, testbb)])];
      assert blocks[h.insert] == h.blocks[h.insert] + [Br(testbb)];
      assert blocks == h.Emit([Br(testbb)]).blocks[testbb := test] + [[Phi(phi1, [(phi, testbb)])]];
    }

    /** Reads symbols until the current one is complete: a run is complete only when the symbol
        after it has been read. Nothing of the text is lost. */
    method ReadSymbols(cursym0: Symbol, curvalue0: int)
      returns (cursym: Symbol, curvalue: int, nextsym: Symbol, nextvalue: int)
      modifies this`source
      ensures Ahead(cursym, curvalue, nextsym, nextvalue, source) == AfterSymbol(cursym0, curvalue0, old(source))
      ensures Lookahead(cursym, nextsym) && cursym != SymNone && (IsRunSymbol(cursym) ==> !nextsym.SymNone?)
      ensures |source| <= |old(source)|
      ensures |source| == |old(source)| ==> Rank(cursym, nextsym) < (if cursym0.SymNone? || cursym0.SymEndLoop? || cursym0.SymEof? then 1 else 2)
      ensures cursym0 != SymLoop && (cursym.SymLoop? || nextsym.SymLoop?) ==> |source| < |old(source)|
    {
      hide Parse, FuseAll, FuseThen, FuseOp;
      cursym, curvalue := cursym0, curvalue0;
      nextsym, nextvalue := SymNone, 0;
      var loop := cursym.SymNone? || cursym.SymMove? || cursym.SymChange?;
      while loop
        invariant |source| <= |old(source)|
        invariant Lookahead(cursym, nextsym)
        invariant if loop then nextsym.SymNone? && (cursym.SymNone? || IsRunSymbol(cursym))
                  else cursym != SymNone && (IsRunSymbol(cursym) ==> !nextsym.SymNone?)
        invariant Ahead(cursym, curvalue, nextsym, nextvalue, source) == AfterSymbol(cursym0, curvalue0, old(source))
        invariant |source| == |old(source)| ==>
                    && source == old(source)
                    && (loop ==> cursym == cursym0)
                    && (!loop ==> cursym == cursym0 || (cursym0.SymNone? && cursym.SymEof?))
                    && (nextsym.SymNone? || nextsym.SymEof?)
        decreases |source|, loop
      {
        ghost var s, cur, val := source, cursym, curvalue;
        if source == "" {
          NoMoreText();
          if cursym.SymNone? { cursym := SymEof; } else { nextsym := SymEof; }
          loop := false;
        } else {
          var c := source[0];
          source := source[1..];
          ReadSymbol(s);
          var direction := Direction(c);
          match CharSymbol(c) {
            case SymChange =>
              if cursym.SymChange? {
                FuseRunThenRun(Change(curvalue), Change(direction), FuseAll(Parse(source)));
                curvalue := curvalue + direction;
              } else if cursym.SymNone? {
                cursym, curvalue := SymChange, direction;
              } else {
                nextsym, nextvalue := SymChange, direction;
                loop := false;
              }
            case SymMove =>
              if cursym.SymMove? {
                FuseRunThenRun(Move(curvalue), Move(direction), FuseAll(Parse(source)));
                curvalue := curvalue + direction;
              } else if cursym.SymNone? {
                cursym, curvalue := SymMove, direction;
              } else {
                nextsym, nextvalue := SymMove, direction;
                loop := false;
              }
            case SymNone =>
            case sym =>
              if cursym.SymNone? { cursym := sym; } else { nextsym := sym; }
              loop := false;
          }
        }
      }
    }

    /** A loop whose `[` has been read: begins it and lets a recursive reading loop end it. */
    method ReadInnerLoop() returns (status: Status)
      requires Builder().Valid()
      modifies this`source, this`blocks, this`unused, this`curhead, this`insert
      ensures var r := Parse(old(source));
              && status == (if r.Closed? then Success else MissingBracket)
              && (status.Success? ==>
                   (source == r.rest && Builder() == GenLoop(Fuse(r.prog), old(FixedParts()), old(Builder()))))
      decreases |source|, 2
    {
      hide Parse, GenOp, GenLoop, OpenLoop, CloseLoop, GenProg;
      ghost var g, fixed, body := Builder(), FixedParts(), Parse(source);
      var phi, bodybb, testbb := BeginLoop();
      status := ReadLoop(InLoop(phi), bodybb, testbb);
      if status.Success? {
        LoopClosed(Fuse(body.prog), fixed, g);
      }
    }

    /** Writes the code of the current symbol, which for `[` is that of the whole loop. */
    method WriteSymbol(cursym: Symbol, curvalue: int, nextsym: Symbol, nextvalue: int, ghost r: Parsed, ghost g0: Gen)
      returns (status: Status)
      requires g0.Valid() && Builder().Valid() && Grows(g0, Builder())
      requires cursym != SymEof && cursym != SymEndLoop
      requires Lookahead(cursym, nextsym) && (IsRunSymbol(cursym) ==> !nextsym.SymNone?)
      requires SameCode(FuseAll(r), g0, Ahead(cursym, curvalue, nextsym, nextvalue, source), Builder(), FixedParts())
      modifies this`source, this`blocks, this`unused, this`curhead, this`insert
      ensures status == Success || (status == MissingBracket && r.Unclosed?)
      ensures status == Success ==>
                && Builder().Valid() && Grows(g0, Builder())
                && SameCode(FuseAll(r), g0, AfterSymbol(nextsym, nextvalue, source), Builder(), FixedParts())
      ensures status == Success ==> |source| <= |old(source)|
      decreases if cursym == SymLoop then |source| + 1 else |source|, 0
    {
      hide Parse, GenOp, GenLoop, OpenLoop, CloseLoop, GenProg, FuseAll, AfterSymbol, SameCode, Grows, Ahead;
      ghost var g, fixed := Builder(), FixedParts();
      NoRunAhead(cursym, curvalue, nextsym, nextvalue, source);
      match cursym {
        case SymLoop =>
          LoopAhead(curvalue, source, r, g0, g, fixed);
          status := ReadInnerLoop();
          if status != Success {
            return;
          }
          NothingAhead(0, nextvalue, source);
        case SymNone =>
          NothingAhead(curvalue, nextvalue, source);
        case SymRead | SymWrite | SymMove | SymChange =>
          AfterOp(cursym, curvalue, nextsym, nextvalue, source, FuseAll(r), g0, g, fixed);
          WriteCommand(cursym, curvalue);
      }
      KeepsGrowing(g0, g, Builder());
      status := Success;
    }

    /** Reads and compiles one nesting level. On success the code added is that of the level's
        program with its runs fused, closed as the end of the function or as the end of the loop. */
    method ReadLoop(enclosing: Enclosing, oldbb: Label, testbb: Label) returns (status: Status)
      requires Builder().Valid()
      requires enclosing.InLoop? ==>
                 && testbb < |blocks| && testbb != insert
                 && |blocks[testbb]| == 1 && blocks[testbb][0].Phi? && |blocks[testbb][0].incoming| == 1
                 && blocks[testbb][0].dst == enclosing.phi
      modifies this`source, this`blocks, this`unused, this`curhead, this`insert
      ensures var r := Parse(old(source));
              match enclosing
              case TopLevel =>
                (status == match r
                           case Ended(_) => Success
                           case Closed(_, _) => ExtraBracket
                           case Unclosed => MissingBracket) &&
                (status.Success? ==>
                  Builder() == GenProg(Fuse(r.prog), old(FixedParts()), old(Builder())).Emit([Br(endbb)]))
              case InLoop(phi) =>
                (status == if r.Closed? then Success else MissingBracket) &&
                (status.Success? ==>
                  source == r.rest &&
                  Builder() == CloseLoop(GenProg(Fuse(r.prog), old(FixedParts()), old(Builder())), testbb, oldbb))
      decreases |source|, 1
    {
      hide Parse, GenOp, GenLoop, OpenLoop, CloseLoop, GenProg, FuseAll, AfterSymbol, SameCode, Grows, Ahead;
      var cursym, curvalue := SymNone, 0;
      var nextsym, nextvalue := SymNone, 0;
      ghost var s0, g0, fixed := source, Builder(), FixedParts();
      ghost var whole := FuseAll(Parse(s0));
      NothingDone(s0, g0, fixed);
      NoRunAhead(cursym, curvalue, nextsym, nextvalue, source);

      while cursym != SymEof && cursym != SymEndLoop
        invariant Builder().Valid() && Grows(g0, Builder()) && FixedParts() == fixed
        invariant Lookahead(cursym, nextsym) && (IsRunSymbol(cursym) ==> !nextsym.SymNone?)
        invariant |source| <= |s0| && (cursym.SymLoop? || nextsym.SymLoop? ==> |source| < |s0|)
        invariant SameCode(whole, g0, Ahead(cursym, curvalue, nextsym, nextvalue, source), Builder(), fixed)
        decreases |source|, Rank(cursym, nextsym)
      {
        var written := WriteSymbol(cursym, curvalue, nextsym, nextvalue, Parse(s0), g0);
        if written != Success {
          return written;
        }
        cursym, curvalue, nextsym, nextvalue := ReadSymbols(nextsym, nextvalue);
      }

      NoRunAhead(cursym, curvalue, nextsym, nextvalue, source);
      EndAhead(cursym, curvalue, source, Parse(s0), g0, Builder(), fixed);
      if enclosing.InLoop? { TestBlockKept(g0, Builder(), testbb); }
      status := EndLevel(cursym, enclosing, oldbb, testbb);
    }

    /** The end of a nesting level, at a `]` or at the end of the text. */
    method EndLevel(cursym: Symbol, enclosing: Enclosing, oldbb: Label, testbb: Label) returns (status: Status)
      requires Builder().Valid() && (cursym == SymEndLoop || cursym == SymEof)
      requires enclosing.InLoop? ==>
                 && testbb < |blocks| && testbb != insert
                 && |blocks[testbb]| == 1 && blocks[testbb][0].Phi? && |blocks[testbb][0].incoming| == 1
                 && blocks[testbb][0].dst == enclosing.phi
      modifies this`blocks, this`unused, this`curhead, this`insert
      ensures status == match (cursym, enclosing)
                        case (SymEndLoop, TopLevel) => ExtraBracket
                        case (SymEof, InLoop(_)) => MissingBracket
                        case _ => Success
      ensures cursym == SymEndLoop && enclosing.InLoop? ==> Builder() == CloseLoop(old(Builder()), testbb, oldbb)
      ensures cursym == SymEof ==> Builder() == old(Builder()).Emit([Br(endbb)])
    {
      hide CloseLoop;
      if cursym == SymEndLoop {
        if enclosing.TopLevel? {
          return ExtraBracket;
        }
        FinishLoop(enclosing.phi, oldbb, testbb);
        return Success;
      }
      Append(Br(endbb));
      if enclosing.InLoop? {
        return MissingBracket;
      }
      return Success;
    }

    /** Appends to the only block there is so far. */
    method AppendToEntry(i: Instr)
      requires insert == 0 && |blocks| == 1
      modifies this`blocks
      ensures blocks == [old(blocks)[0] + [i]]
    {
      Append(i);
    }

    /** The entry block: allocates and clears the tape and puts the head in its middle. */
    method WriteEntry()
      modifies this`blocks, this`insert, this`unused, this`curhead, this`ptrArr, this`ptrArrmax
      ensures insert == 0 && blocks == [Header(memtotal, arraybounds).blocks[0]]
      ensures ptrArr == 0 && ptrArrmax == (if arraybounds then 1 else 0) && curhead == ptrArrmax + 1 && unused == curhead + 1
    {
      blocks, unused := [], 0;
      insert := CreateBlock();
      ptrArr := NewValue();
      ptrArrmax := 0;
      AppendToEntry(Malloc(ptrArr, memtotal));
      AppendToEntry(Memset(ptrArr, 0, memtotal));
      assert blocks[0] == [Malloc(0, memtotal), Memset(0, 0, memtotal)];
      if arraybounds {
        ptrArrmax := NewValue();
        AppendToEntry(Gep(ptrArrmax, ptrArr, memtotal));
      }
      curhead := NewValue();
      AppendToEntry(Gep(curhead, ptrArr, memtotal / 2));
      assert blocks[0] == Header(memtotal, arraybounds).blocks[0];
    }

    /** The function header, its footer, and the error block if array bounds are checked. */
    method WriteHeader()
      modifies this`blocks, this`insert, this`unused, this`curhead, this`ptrArr, this`ptrArrmax, this`endbb, this`aberrorbb
      ensures Builder() == Header(memtotal, arraybounds) && FixedParts() == HeaderFixed(arraybounds)
    {
      WriteEntry();
      endbb := CreateBlock();
      blocks := blocks[endbb := [Free(ptrArr), Ret]];
      aberrorbb := 2;
      if arraybounds {
        aberrorbb := CreateBlock();
        blocks := blocks[aberrorbb := [PutsError, Br(endbb)]];
      }
    }

    /** The main method: on success the function is the one compiled from the text's program
        with its runs fused; otherwise the status says which bracket is wrong. */
    method ParseText() returns (status: Status)
      modifies this
      ensures memtotal == old(memtotal) && arraybounds == old(arraybounds)
      ensures var r := Parse(old(source));
              && status == (match r
                            case Ended(_) => Success
                            case Closed(_, _) => ExtraBracket
                            case Unclosed => MissingBracket)
              && (status.Success? ==> blocks == CompiledFrom(Fuse(r.prog), memtotal, arraybounds))
    {
      WriteHeader();
      status := ReadLoop(TopLevel, 0, 0);
    }
  }
}
