/** The BrainF language: its command table read as a while-loop language,
    and the fusion of runs of `+-` and of `<>`. */
module BrainFSource {
  import opened Sequences

  /** The byte that is left of a number; bytes wrap around. */
  function Low8(n: int): Byte {
    n % 256
  }

  /** `Move(n)` stands for n head moves to the right and `Change(n)` for adding n
      to the cell; the commands `<`, `>`, `-`, `+` are the cases n == -1 and n == 1. */
  datatype Op =
    | Read
    | Write
    | Move(n: int)
    | Change(n: int)

  /** A program: a command, or a loop, and the program that follows it. */
  datatype Prog =
    | End
    | Do(op: Op, next: Prog)
    | Loop(body: Prog, next: Prog)

  datatype State = State(tape: seq<Byte>, head: int, input: seq<Byte>, output: seq<Byte>) {
    predicate OnTape() {
      0 <= head < |tape|
    }

    function Cell(): Byte
      requires OnTape()
    {
      tape[head]
    }
  }

  /** How a run ends: normally, with the clock used up, at an access to a cell
      outside the tape, or (when moves are checked) at a move that leaves the tape. */
  datatype Outcome =
    | Done(s: State, clock: nat)
    | OutOfClock(s: State)
    | OffTape(s: State)
    | LeftTape(s: State)

  /** One command. With `checked`, a move that ends outside the tape stops the run. */
  function Perform(op: Op, clock: nat, s: State, checked: bool): (r: Outcome)
    ensures r.Done? ==> r.clock == clock && |r.s.tape| == |s.tape|
    ensures !r.OutOfClock?
  {
    if op.Move? then
      var t := s.(head := s.head + op.n);
      if checked && !t.OnTape() then LeftTape(t) else Done(t, clock)
    else if !s.OnTape() then OffTape(s)
    else
      match op
      case Read =>
        if s.input == [] then Done(s.(tape := s.tape[s.head := 255]), clock)
        else Done(s.(tape := s.tape[s.head := s.input[0]], input := s.input[1..]), clock)
      case Write => Done(s.(output := s.output + [s.Cell()]), clock)
      case Change(n) => Done(s.(tape := s.tape[s.head := Low8(s.Cell() + n)]), clock)
  }

  /** The command table as an interpreter. The clock is spent one unit per
      iteration of any loop, so a program diverges when no clock is enough. */
  function Exec(p: Prog, clock: nat, s: State, checked: bool): (r: Outcome)
    ensures r.Done? ==> r.clock <= clock
    decreases clock, p
  {
    match p
    case End => Done(s, clock)
    case Do(op, next) =>
      (match Perform(op, clock, s, checked)
       case Done(t, _) => Exec(next, clock, t, checked)
       case stop => stop)
    case Loop(body, next) =>
      if !s.OnTape() then OffTape(s)
      else if s.Cell() == 0 then Exec(next, clock, s, checked)
      else if clock == 0 then OutOfClock(s)
      else
        match Exec(body, clock - 1, s, checked)
        case Done(t, left) => Exec(p, left, t, checked)
        case stop => stop
  }

  /** A program as it is typed, one command at a time. */
  predicate Typed(p: Prog) {
    match p
    case End => true
    case Do(op, next) => (op.Move? || op.Change? ==> op.n == 1 || op.n == -1) && Typed(next)
    case Loop(body, next) => Typed(body) && Typed(next)
  }

  /** Two adjacent commands that make one run. */
  predicate SameRun(a: Op, b: Op) {
    (a.Move? && b.Move?) || (a.Change? && b.Change?)
  }

  function AddRun(a: Op, b: Op): Op
    requires SameRun(a, b)
  {
    if a.Move? then Move(a.n + b.n) else Change(a.n + b.n)
  }

  function FuseOp(op: Op, p: Prog): Prog {
    if p.Do? && SameRun(op, p.op) then Do(AddRun(op, p.op), p.next) else Do(op, p)
  }

  /** Every maximal run of moves, and every maximal run of changes, summed. */
  function Fuse(p: Prog): Prog {
    match p
    case End => End
    case Do(op, next) => FuseOp(op, Fuse(next))
    case Loop(body, next) => Loop(Fuse(body), Fuse(next))
  }

  /** No two adjacent moves and no two adjacent changes, at any depth. */
  predicate Fused(p: Prog) {
    match p
    case End => true
    case Do(op, next) => (next.Do? ==> !SameRun(op, next.op)) && Fused(next)
    case Loop(body, next) => Fused(body) && Fused(next)
  }

  lemma {:induction false} FuseIsFused(p: Prog)
    ensures Fused(Fuse(p))
  {
    match p
    case End =>
    case Do(_, next) => FuseIsFused(next);
    case Loop(body, next) => FuseIsFused(body); FuseIsFused(next);
  }

  lemma ChangeTwice(x: int, a: int, b: int)
    ensures Low8(Low8(x + a) + b) == Low8(x + (a + b))
  {
  }

  /** A run of two commands does what their sum does, unless the first one leaves a checked tape. */
  lemma RunOfTwo(a: Op, b: Op, clock: nat, s: State, checked: bool)
    requires SameRun(a, b)
    requires !Perform(a, clock, s, checked).LeftTape?
    ensures var r := Perform(a, clock, s, checked);
            Perform(AddRun(a, b), clock, s, checked) == if r.Done? then Perform(b, clock, r.s, checked) else r
  {
    if a.Change? && s.OnTape() {
      var x := s.Cell();
      ChangeTwice(x, a.n, b.n);
      assert s.tape[s.head := Low8(x + a.n)][s.head := Low8(x + (a.n + b.n))]
          == s.tape[s.head := Low8(x + (a.n + b.n))];
    }
  }

  lemma FuseOpExec(op: Op, p: Prog, clock: nat, s: State, checked: bool)
    requires !Perform(op, clock, s, checked).LeftTape?
    ensures Exec(FuseOp(op, p), clock, s, checked) == Exec(Do(op, p), clock, s, checked)
  {
    if p.Do? && SameRun(op, p.op) {
      RunOfTwo(op, p.op, clock, s, checked);
    }
  }

  /** Fusing changes no run: same clock, tape, head, input and output. With checked
      moves this holds of every run that never leaves the tape. */
  lemma {:induction false} FusePreservesRuns(p: Prog, clock: nat, s: State, checked: bool)
    requires !Exec(p, clock, s, checked).LeftTape?
    ensures Exec(Fuse(p), clock, s, checked) == Exec(p, clock, s, checked)
    decreases clock, p
  {
    hide Low8;
    match p
    case End =>
    case Do(op, next) =>
      var r := Perform(op, clock, s, checked);
      if r.Done? { FusePreservesRuns(next, clock, r.s, checked); }
      FuseOpExec(op, Fuse(next), clock, s, checked);
    case Loop(body, next) =>
      if s.OnTape() && s.Cell() == 0 {
        FusePreservesRuns(next, clock, s, checked);
      } else if s.OnTape() && clock > 0 {
        FusePreservesRuns(body, clock - 1, s, checked);
        var r := Exec(body, clock - 1, s, checked);
        if r.Done? { FusePreservesRuns(p, r.clock, r.s, checked); }
      }
  }

  /** An unchecked run never stops at a move. */
  lemma {:induction false} UncheckedNeverLeaves(p: Prog, clock: nat, s: State)
    ensures !Exec(p, clock, s, false).LeftTape?
    decreases clock, p
  {
    hide Low8;
    match p
    case End =>
    case Do(op, next) =>
      var r := Perform(op, clock, s, false);
      if r.Done? { UncheckedNeverLeaves(next, clock, r.s); }
    case Loop(body, next) =>
      if s.OnTape() && s.Cell() == 0 {
        UncheckedNeverLeaves(next, clock, s);
      } else if s.OnTape() && clock > 0 {
        UncheckedNeverLeaves(body, clock - 1, s);
        var r := Exec(body, clock - 1, s, false);
        if r.Done? { UncheckedNeverLeaves(p, r.clock, r.s); }
      }
  }

  lemma PerformAnyClock(op: Op, clock: nat, other: nat, s: State, checked: bool)
    ensures var r := Perform(op, clock, s, checked);
            Perform(op, other, s, checked) == if r.Done? then Done(r.s, other) else r
  {
    hide Low8;
  }

  lemma OneIteration(body: Prog, next: Prog, left: nat, s: State, checked: bool)
    requires s.OnTape() && s.Cell() != 0
    ensures Exec(Loop(body, next), left + 1, s, checked) ==
              match Exec(body, left, s, checked)
              case Done(t, more) => Exec(Loop(body, next), more, t, checked)
              case stop => stop
  {
  }

  /** More clock never changes a finished run, and leaves exactly the extra clock unspent. */
  lemma {:induction false} ExtraClock(p: Prog, clock: nat, extra: nat, s: State, checked: bool)
    requires !Exec(p, clock, s, checked).OutOfClock?
    ensures var r := Exec(p, clock, s, checked);
            Exec(p, clock + extra, s, checked) == if r.Done? then Done(r.s, r.clock + extra) else r
    decreases clock, p
  {
    hide Perform;
    match p
    case End =>
    case Do(op, next) =>
      var r := Perform(op, clock, s, checked);
      PerformAnyClock(op, clock, clock + extra, s, checked);
      if r.Done? { ExtraClock(next, clock, extra, r.s, checked); }
    case Loop(body, next) =>
      if s.OnTape() && s.Cell() == 0 {
        ExtraClock(next, clock, extra, s, checked);
      } else if s.OnTape() && clock > 0 {
        var left: nat := clock - 1;
        ExtraClock(body, left, extra, s, checked);
        OneIteration(body, next, left + extra, s, checked);
        var r := Exec(body, left, s, checked);
        if r.Done? { ExtraClock(p, r.clock, extra, r.s, checked); }
      }
  }

  /** A checked run that starts on the tape never touches a cell outside it, and
      ends on the same tape unless a move left it. */
  lemma {:induction false} CheckedStaysOnTape(p: Prog, clock: nat, s: State)
    requires s.OnTape()
    ensures var r := Exec(p, clock, s, true);
            !r.OffTape? && (r.s.OnTape() <==> !r.LeftTape?)
    decreases clock, p
  {
    hide Low8;
    match p
    case End =>
    case Do(op, next) =>
      var r := Perform(op, clock, s, true);
      if r.Done? { CheckedStaysOnTape(next, clock, r.s); }
    case Loop(body, next) =>
      if s.Cell() == 0 {
        CheckedStaysOnTape(next, clock, s);
      } else if clock > 0 {
        CheckedStaysOnTape(body, clock - 1, s);
        var r := Exec(body, clock - 1, s, true);
        if r.Done? { CheckedStaysOnTape(p, r.clock, r.s); }
      }
  }

  /** Checking moves changes nothing in a run that never leaves the tape. */
  lemma {:induction false} CheckingIsInvisible(p: Prog, clock: nat, s: State)
    requires !Exec(p, clock, s, true).LeftTape?
    ensures Exec(p, clock, s, false) == Exec(p, clock, s, true)
    decreases clock, p
  {
    hide Low8;
    match p
    case End =>
    case Do(op, next) =>
      var r := Perform(op, clock, s, true);
      if r.Done? { CheckingIsInvisible(next, clock, r.s); }
    case Loop(body, next) =>
      if s.OnTape() && s.Cell() == 0 {
        CheckingIsInvisible(next, clock, s);
      } else if s.OnTape() && clock > 0 {
        CheckingIsInvisible(body, clock - 1, s);
        var r := Exec(body, clock - 1, s, true);
        if r.Done? { CheckingIsInvisible(p, r.clock, r.s); }
      }
  }
}
