/** What the compiler guarantees about the text it was given. */
module BrainFTheorems {
  import opened Sequences
  import opened BrainFSource
  import opened BrainFText
  import opened BrainFIR
  import opened BrainFCodeGen
  import opened BrainFCorrect
  import opened BrainFCompiler

  /** The function the compiler makes of a text whose brackets are balanced. */
  function CompiledText(text: string, mem: nat, checked: bool): Function
    requires Parse(text).Ended?
  {
    CompiledFrom(Fuse(Parse(text).prog), mem, checked)
  }

  /** A text is accepted exactly when its brackets are balanced; an extra `]` is reported
      exactly when some prefix closes more loops than it opens; a missing `]` exactly when
      none does but a loop is still open at the end. */
  lemma BracketAcceptance(text: string)
    ensures Parse(text).Ended? <==> Balanced(text)
    ensures Parse(text).Closed? <==> exists i :: 0 <= i <= |text| && Depth(text[..i]) < 0
    ensures Parse(text).Unclosed? <==> NeverBelow(text) && Depth(text) > 0
  {
    ParseCountsBrackets(text);
    var r := Parse(text);
    if r.Closed? {
      assert Depth(text[..|text| - |r.rest|]) == -1;
    }
  }

  /** Compiler correctness. For the program p that a text spells, every run of p on a tape of
      `mem` cells is mirrored by the compiled function, however the memory looked before. */
  lemma CompilerCorrect(text: string, p: Prog, mem: nat, base: int, raw: seq<Byte>, input: seq<Byte>, clock: nat)
    returns (n: nat)
    requires Typed(p) && Text(p) == Commands(text) && |raw| == mem
    ensures Parse(text).Ended?
    ensures Behaves(Run(CompiledText(text, mem, false), Entry(base, raw, input), n), n, clock,
                    Exec(p, clock, Start(mem, input), false), FinalHead(Fuse(p), mem, false))
  {
    ParseIsInverseOfText(text, p);
    UncheckedNeverLeaves(p, clock, Start(mem, input));
    FusePreservesRuns(p, clock, Start(mem, input), false);
    n := Compiled(Fuse(p), mem, false, base, raw, input, clock);
  }

  /** The converse: when the compiled function stops, the program has stopped in the same way. */
  lemma CompiledStops(text: string, p: Prog, mem: nat, base: int, raw: seq<Byte>, input: seq<Byte>, n: nat)
    requires Typed(p) && Text(p) == Commands(text) && |raw| == mem && Parse(text).Ended?
    requires !Run(CompiledText(text, mem, false), Entry(base, raw, input), n).status.Running?
    ensures var r := Exec(p, n + 1, Start(mem, input), false);
            !r.OutOfClock? && Behaves(Run(CompiledText(text, mem, false), Entry(base, raw, input), n), n + 1, n + 1, r,
                                      FinalHead(Fuse(p), mem, false))
  {
    hide Run, Exec, Text, Commands, Typed, Fuse, FinalHead, CompiledFrom, Behaves;
    ParseIsInverseOfText(text, p);
    UncheckedNeverLeaves(p, n + 1, Start(mem, input));
    FusePreservesRuns(p, n + 1, Start(mem, input), false);
    Stopped(Fuse(p), mem, false, base, raw, input, n);
  }

  // ----- ways to end, without clocks and step counts -----

  ghost predicate TerminatesIn(p: Prog, s: State, checked: bool, t: State) {
    exists clock: nat :: Exec(p, clock, s, checked).Done? && Exec(p, clock, s, checked).s == t
  }

  ghost predicate GoesOffTape(p: Prog, s: State, checked: bool) {
    exists clock: nat :: Exec(p, clock, s, checked).OffTape?
  }

  ghost predicate LeavesTape(p: Prog, s: State, checked: bool) {
    exists clock: nat :: Exec(p, clock, s, checked).LeftTape?
  }

  ghost predicate Diverges(p: Prog, s: State, checked: bool) {
    forall clock: nat :: Exec(p, clock, s, checked).OutOfClock?
  }

  ghost predicate ReturnsIn(f: Function, c: Config, head: Reg, t: State) {
    exists n: nat :: var d := Run(f, c, n);
      ReturnsWith(d, t, 0) && head in d.env && d.env[head] == d.base + t.head
  }

  ghost predicate MakesBadAccess(f: Function, c: Config) {
    exists n: nat :: Run(f, c, n).status.BadAccess?
  }

  ghost predicate Complains(f: Function, c: Config) {
    exists n: nat :: Run(f, c, n).status.Returned? && Run(f, c, n).complaints > 0
  }

  ghost predicate RunsForever(f: Function, c: Config) {
    forall n: nat :: Run(f, c, n).status.Running?
  }

  /** Both directions for any program: results, bad accesses, complaints and divergence agree.
      (The base address never changes, so head registers compare.) */
  lemma SameEnding(p: Prog, mem: nat, checked: bool, base: int, raw: seq<Byte>, input: seq<Byte>, t: State)
    requires |raw| == mem
    ensures var f, c, s := CompiledFrom(p, mem, checked), Entry(base, raw, input), Start(mem, input);
            && (TerminatesIn(p, s, checked, t) <==> ReturnsIn(f, c, FinalHead(p, mem, checked), t))
            && (GoesOffTape(p, s, checked) <==> MakesBadAccess(f, c))
            && (Complains(f, c) <==> LeavesTape(p, s, checked))
            && (Diverges(p, s, checked) <==> RunsForever(f, c))
  {
    SameResult(p, mem, checked, base, raw, input, t);
    SameAccidents(p, mem, checked, base, raw, input);
    SameDivergence(p, mem, checked, base, raw, input);
  }

  lemma SameResult(p: Prog, mem: nat, checked: bool, base: int, raw: seq<Byte>, input: seq<Byte>, t: State)
    requires |raw| == mem
    ensures TerminatesIn(p, Start(mem, input), checked, t) <==>
            ReturnsIn(CompiledFrom(p, mem, checked), Entry(base, raw, input), FinalHead(p, mem, checked), t)
  {
    hide Run, Exec, CompiledFrom, FinalHead;
    var f, c, s := CompiledFrom(p, mem, checked), Entry(base, raw, input), Start(mem, input);
    if TerminatesIn(p, s, checked, t) {
      var clock: nat :| Exec(p, clock, s, checked).Done? && Exec(p, clock, s, checked).s == t;
      var n := Compiled(p, mem, checked, base, raw, input, clock);
    }
    if ReturnsIn(f, c, FinalHead(p, mem, checked), t) {
      var n: nat :| var d := Run(f, c, n);
        ReturnsWith(d, t, 0) && FinalHead(p, mem, checked) in d.env && d.env[FinalHead(p, mem, checked)] == d.base + t.head;
      Stopped(p, mem, checked, base, raw, input, n);
      assert Exec(p, n + 1, s, checked).s == t;
    }
  }

  lemma SameAccidents(p: Prog, mem: nat, checked: bool, base: int, raw: seq<Byte>, input: seq<Byte>)
    requires |raw| == mem
    ensures var f, c, s := CompiledFrom(p, mem, checked), Entry(base, raw, input), Start(mem, input);
            && (GoesOffTape(p, s, checked) <==> MakesBadAccess(f, c))
            && (Complains(f, c) <==> LeavesTape(p, s, checked))
  {
    hide Run, Exec, CompiledFrom, FinalHead;
    var f, c, s := CompiledFrom(p, mem, checked), Entry(base, raw, input), Start(mem, input);
    if GoesOffTape(p, s, checked) {
      var clock: nat :| Exec(p, clock, s, checked).OffTape?;
      var n := Compiled(p, mem, checked, base, raw, input, clock);
    }
    if MakesBadAccess(f, c) {
      var n: nat :| Run(f, c, n).status.BadAccess?;
      Stopped(p, mem, checked, base, raw, input, n);
      assert Exec(p, n + 1, s, checked).OffTape?;
    }
    if LeavesTape(p, s, checked) {
      var clock: nat :| Exec(p, clock, s, checked).LeftTape?;
      var n := Compiled(p, mem, checked, base, raw, input, clock);
    }
    if Complains(f, c) {
      var n: nat :| Run(f, c, n).status.Returned? && Run(f, c, n).complaints > 0;
      Stopped(p, mem, checked, base, raw, input, n);
      assert Exec(p, n + 1, s, checked).LeftTape?;
    }
  }

  lemma SameDivergence(p: Prog, mem: nat, checked: bool, base: int, raw: seq<Byte>, input: seq<Byte>)
    requires |raw| == mem
    ensures Diverges(p, Start(mem, input), checked) <==>
            RunsForever(CompiledFrom(p, mem, checked), Entry(base, raw, input))
  {
    hide Run, Exec, CompiledFrom, FinalHead;
    var f, c, s := CompiledFrom(p, mem, checked), Entry(base, raw, input), Start(mem, input);
    if Diverges(p, s, checked) {
      forall n: nat ensures Run(f, c, n).status.Running? {
        assert Exec(p, n + 1, s, checked).OutOfClock?;
        if !Run(f, c, n).status.Running? { Stopped(p, mem, checked, base, raw, input, n); }
      }
    }
    if RunsForever(f, c) {
      forall clock: nat ensures Exec(p, clock, s, checked).OutOfClock? {
        var n := Compiled(p, mem, checked, base, raw, input, clock);
      }
    }
  }

  /** No run of a compiled function uses an undefined register, enters a missing block, reads a
      phi from a block that is no predecessor, or falls off the end of a block. */
  lemma NeverMalformed(p: Prog, mem: nat, checked: bool, base: int, raw: seq<Byte>, input: seq<Byte>, n: nat)
    requires |raw| == mem
    ensures !Run(CompiledFrom(p, mem, checked), Entry(base, raw, input), n).status.Malformed?
  {
    hide Run, Exec, CompiledFrom, FinalHead;
    if !Run(CompiledFrom(p, mem, checked), Entry(base, raw, input), n).status.Running? {
      Stopped(p, mem, checked, base, raw, input, n);
    }
  }

  /** Compiler correctness without clocks: for the program p that a text spells, the compiled
      function returns with exactly p's final tape, head, input and output, makes a bad access
      exactly when p goes off the tape, never complains, and runs for ever exactly when p does. */
  lemma CompiledTextEndsLikeProgram(text: string, p: Prog, mem: nat, base: int, raw: seq<Byte>, input: seq<Byte>, t: State)
    requires Typed(p) && Text(p) == Commands(text) && |raw| == mem
    ensures Parse(text).Ended?
    ensures var f, c, s := CompiledText(text, mem, false), Entry(base, raw, input), Start(mem, input);
            && (TerminatesIn(p, s, false, t) <==> ReturnsIn(f, c, FinalHead(Fuse(p), mem, false), t))
            && (GoesOffTape(p, s, false) <==> MakesBadAccess(f, c))
            && !Complains(f, c)
            && (Diverges(p, s, false) <==> RunsForever(f, c))
  {
    hide Run, Exec, FinalHead, Parse;
    var s := Start(mem, input);
    ParseIsInverseOfText(text, p);
    SameEnding(Fuse(p), mem, false, base, raw, input, t);
    forall clock: nat
      ensures Exec(Fuse(p), clock, s, false) == Exec(p, clock, s, false) && !Exec(p, clock, s, false).LeftTape?
    {
      UncheckedNeverLeaves(p, clock, s);
      FusePreservesRuns(p, clock, s, false);
    }
  }

  // ----- array bounds checks -----

  /** With bounds checks and a tape of at least one cell, no run of any compiled function loads
      or stores outside its memory. */
  lemma CheckedIsSafe(p: Prog, mem: nat, base: int, raw: seq<Byte>, input: seq<Byte>, n: nat)
    requires |raw| == mem && mem >= 1
    ensures !Run(CompiledFrom(p, mem, true), Entry(base, raw, input), n).status.BadAccess?
  {
    hide Run, Exec, CompiledFrom, FinalHead;
    if Run(CompiledFrom(p, mem, true), Entry(base, raw, input), n).status.BadAccess? {
      Stopped(p, mem, true, base, raw, input, n);
      CheckedStaysOnTape(p, n + 1, Start(mem, input));
    }
  }

  ghost predicate AllSafe(mem: nat) {
    forall p, base, raw: seq<Byte>, input, n: nat :: |raw| == mem ==>
      !Run(CompiledFrom(p, mem, true), Entry(base, raw, input), n).status.BadAccess?
  }

  /** The bounds checks make every compiled function safe exactly when the tape is not empty:
      they follow the moves only, and on an empty tape the first access comes before any move. */
  lemma ChecksSufficeForNonemptyTape(mem: nat)
    ensures AllSafe(mem) <==> mem >= 1
  {
    if mem >= 1 {
      forall p, base, raw: seq<Byte>, input, n: nat | |raw| == mem
        ensures !Run(CompiledFrom(p, mem, true), Entry(base, raw, input), n).status.BadAccess?
      {
        CheckedIsSafe(p, mem, base, raw, input, n);
      }
    } else {
      var p := Do(Write, End);
      assert Exec(p, 0, Start(0, []), true).OffTape?;
      SameAccidents(p, 0, true, 0, [], []);
      var n: nat :| Run(CompiledFrom(p, 0, true), Entry(0, [], []), n).status.BadAccess?;
    }
  }

  /** With bounds checks, the function complains exactly when some run of moves, taken as a
      whole, ends outside the tape, which happens only to programs that leave it at some single
      command. In all other cases it ends as the program does without checks: also if a run of
      moves leaves the tape on its way and comes back. */
  lemma CheckedTextEndsLikeProgram(text: string, p: Prog, mem: nat, base: int, raw: seq<Byte>, input: seq<Byte>, t: State)
    requires Typed(p) && Text(p) == Commands(text) && |raw| == mem
    ensures Parse(text).Ended?
    ensures var f, c, s := CompiledText(text, mem, true), Entry(base, raw, input), Start(mem, input);
            && (Complains(f, c) <==> LeavesTape(Fuse(p), s, true))
            && (LeavesTape(Fuse(p), s, true) ==> LeavesTape(p, s, true))
            && (!LeavesTape(Fuse(p), s, true) ==>
                 && (TerminatesIn(p, s, false, t) <==> ReturnsIn(f, c, FinalHead(Fuse(p), mem, true), t))
                 && (GoesOffTape(p, s, false) <==> MakesBadAccess(f, c))
                 && (Diverges(p, s, false) <==> RunsForever(f, c)))
  {
    hide Run, Exec, FinalHead, Parse;
    var s := Start(mem, input);
    ParseIsInverseOfText(text, p);
    SameEnding(Fuse(p), mem, true, base, raw, input, t);
    forall clock: nat | !Exec(p, clock, s, true).LeftTape?
      ensures Exec(Fuse(p), clock, s, true) == Exec(p, clock, s, true)
    {
      FusePreservesRuns(p, clock, s, true);
    }
    forall clock: nat | !Exec(Fuse(p), clock, s, true).LeftTape?
      ensures Exec(Fuse(p), clock, s, true) == Exec(p, clock, s, false)
    {
      CheckingIsInvisible(Fuse(p), clock, s);
      UncheckedNeverLeaves(p, clock, s);
      FusePreservesRuns(p, clock, s, false);
    }
  }
}
