/** Program text: which strings are programs, and which errors the others get. */
module BrainFText {
  import opened BrainFSource

  /** What is left to compile at some nesting level: the level is closed by a `]`
      with `rest` after it, the text ends at this level, or the text ends inside
      a loop opened at this level. */
  datatype Parsed =
    | Closed(prog: Prog, rest: string)
    | Ended(prog: Prog)
    | Unclosed

  predicate IsOp(c: char) {
    c in ",.+-<>"
  }

  function OpOf(c: char): Op
    requires IsOp(c)
  {
    match c
    case ',' => Read
    case '.' => Write
    case '-' => Change(-1)
    case '+' => Change(1)
    case '<' => Move(-1)
    case '>' => Move(1)
  }

  function CharOf(op: Op): char {
    match op
    case Read => ','
    case Write => '.'
    case Change(n) => if n == 1 then '+' else '-'
    case Move(n) => if n == 1 then '>' else '<'
  }

  /** A level that starts with a command, given the rest of the level. */
  function OpThen(op: Op, r: Parsed): Parsed {
    match r
    case Closed(next, rest) => Closed(Do(op, next), rest)
    case Ended(next) => Ended(Do(op, next))
    case Unclosed => Unclosed
  }

  /** A level that starts with a loop, given the rest of the level. */
  function LoopThen(body: Prog, r: Parsed): Parsed {
    match r
    case Closed(next, rest) => Closed(Loop(body, next), rest)
    case Ended(next) => Ended(Loop(body, next))
    case Unclosed => Unclosed
  }

  /** `t` is a proper tail of `s`. */
  predicate IsTail(t: string, s: string) {
    |t| < |s| && t == s[|s| - |t|..]
  }

  lemma TailsOf(t: string, s: string)
    requires IsTail(t, s)
    ensures forall u :: IsTail(u, t) ==> IsTail(u, s)
  {
  }

  /** Reads one nesting level of the text; characters that are not commands are skipped. */
  function Parse(s: string): (r: Parsed)
    ensures r.Closed? ==> IsTail(r.rest, s)
    decreases |s|
  {
    if s == "" then Ended(End)
    else
      TailsOf(s[1..], s);
      if s[0] == ']' then Closed(End, s[1..])
      else if s[0] == '[' then
        var r := Parse(s[1..]);
        if r.Closed? then TailsOf(r.rest, s); LoopThen(r.prog, Parse(r.rest)) else Unclosed
      else if IsOp(s[0]) then OpThen(OpOf(s[0]), Parse(s[1..]))
      else Parse(s[1..])
  }

  /** The text of a typed program. */
  function Text(p: Prog): string {
    match p
    case End => ""
    case Do(op, next) => [CharOf(op)] + Text(next)
    case Loop(body, next) => "[" + Text(body) + "]" + Text(next)
  }

  predicate IsCommand(c: char) {
    IsOp(c) || c == '[' || c == ']'
  }

  /** The text without the characters that are not commands. */
  function Commands(s: string): string {
    if s == "" then ""
    else if IsCommand(s[0]) then [s[0]] + Commands(s[1..])
    else Commands(s[1..])
  }

  /** `[` minus `]`. */
  function Depth(s: string): int {
    if s == "" then 0
    else (if s[0] == '[' then 1 else if s[0] == ']' then -1 else 0) + Depth(s[1..])
  }

  /** No prefix closes more loops than it opens. */
  ghost predicate NeverBelow(s: string) {
    forall i :: 0 <= i <= |s| ==> Depth(s[..i]) >= 0
  }

  ghost predicate Balanced(s: string) {
    NeverBelow(s) && Depth(s) == 0
  }

  lemma DepthCat(s: string, t: string)
    ensures Depth(s + t) == Depth(s) + Depth(t)
  {
    if s == "" {
      assert s + t == t;
    } else {
      DepthCat(s[1..], t);
      assert (s + t)[1..] == s[1..] + t;
    }
  }

  lemma Assoc(a: string, b: string, c: string)
    ensures a + (b + c) == (a + b) + c
  {
  }

  lemma DepthCons(s: string, i: nat)
    requires 0 < i <= |s|
    ensures Depth(s[..i]) == Depth([s[0]]) + Depth(s[1..][..i - 1])
  {
    assert s[..i] == [s[0]] + s[1..][..i - 1];
    DepthCat([s[0]], s[1..][..i - 1]);
  }

  /** Depths of the prefixes of a text that starts with s[0], in terms of the rest. */
  lemma DepthsCons(s: string)
    requires s != ""
    ensures Depth(s[..0]) == 0
    ensures forall i :: 0 < i <= |s| ==> Depth(s[..i]) == Depth([s[0]]) + Depth(s[1..][..i - 1])
    ensures Depth(s) == Depth([s[0]]) + Depth(s[1..])
  {
    forall i | 0 < i <= |s| ensures Depth(s[..i]) == Depth([s[0]]) + Depth(s[1..][..i - 1]) {
      DepthCons(s, i);
    }
  }

  /** Depths of the prefixes that reach past position k. */
  lemma DepthsSplit(s: string, k: nat)
    requires k <= |s|
    ensures forall i :: k <= i <= |s| ==> Depth(s[..i]) == Depth(s[..k]) + Depth(s[k..][..i - k])
    ensures Depth(s) == Depth(s[..k]) + Depth(s[k..])
  {
    forall i | k <= i <= |s| ensures Depth(s[..i]) == Depth(s[..k]) + Depth(s[k..][..i - k]) {
      assert s[..i] == s[..k] + s[k..][..i - k];
      DepthCat(s[..k], s[k..][..i - k]);
    }
    assert s == s[..k] + s[k..];
    DepthCat(s[..k], s[k..]);
  }

  /** Position k is just after the first `]` that closes this level. */
  ghost predicate ClosesAt(s: string, k: int) {
    && 0 <= k <= |s|
    && Depth(s[..k]) == -1
    && forall i :: 0 <= i < k ==> Depth(s[..i]) >= 0
  }

  /** The answers of `Parse`, told apart by counting brackets alone. */
  ghost predicate CountsBrackets(s: string, r: Parsed) {
    match r
    case Closed(_, rest) => ClosesAt(s, |s| - |rest|)
    case Ended(_) => Balanced(s)
    case Unclosed => NeverBelow(s) && Depth(s) > 0
  }

  /** A command in front changes no depth, an opening bracket raises all of them. */
  lemma CountsAfterOp(s: string, r: Parsed)
    requires s != "" && s[0] != '[' && s[0] != ']'
    requires CountsBrackets(s[1..], r)
    ensures CountsBrackets(s, r)
  {
    DepthsCons(s);
    assert Depth([s[0]]) == 0;
    if r.Closed? {
      var k := |s| - |r.rest|;
      assert Depth(s[..k]) == Depth(s[1..][..k - 1]);
    }
  }

  lemma CountsAfterOpen(s: string, r: Parsed)
    requires s != "" && s[0] == '['
    requires CountsBrackets(s[1..], r) && !r.Closed?
    ensures CountsBrackets(s, Unclosed)
  {
    DepthsCons(s);
    assert Depth([s[0]]) == 1;
  }

  lemma CountsAfterLoop(s: string, k: nat, body: Prog, r: Parsed)
    requires s != "" && s[0] == '[' && ClosesAt(s[1..], k)
    requires CountsBrackets(s[k + 1..], r)
    requires r.Closed? ==> |r.rest| < |s[k + 1..]|
    ensures CountsBrackets(s, LoopThen(body, r))
  {
    DepthsCons(s);
    assert Depth([s[0]]) == 1;
    assert Depth(s[..k + 1]) == 0;
    DepthsSplit(s, k + 1);
    forall i | 0 <= i <= k ensures Depth(s[..i]) >= 0 {
      assert i > 0 ==> Depth(s[..i]) == 1 + Depth(s[1..][..i - 1]);
    }
  }

  lemma CountsClose(s: string)
    requires s != "" && s[0] == ']'
    ensures CountsBrackets(s, Closed(End, s[1..]))
  {
    DepthsCons(s);
    assert Depth([s[0]]) == -1;
  }

  lemma {:induction false} ParseCountsBrackets(s: string)
    ensures CountsBrackets(s, Parse(s))
    decreases |s|
  {
    if s == "" {
      assert Parse(s) == Ended(End);
    } else if s[0] == ']' {
      CountsClose(s);
    } else {
      var r := Parse(s[1..]);
      ParseCountsBrackets(s[1..]);
      if s[0] == '[' {
        if r.Closed? {
          var k := |s[1..]| - |r.rest|;
          assert r.rest == s[k + 1..];
          ParseCountsBrackets(r.rest);
          CountsAfterLoop(s, k, r.prog, Parse(r.rest));
        } else {
          CountsAfterOpen(s, r);
        }
      } else {
        CountsAfterOp(s, r);
        assert CountsBrackets(s, if IsOp(s[0]) then OpThen(OpOf(s[0]), r) else r);
      }
    }
  }

  /** What a parse says about the commands of its text. */
  ghost predicate KeepsCommands(commands: string, r: Parsed) {
    match r
    case Closed(p, rest) => Typed(p) && commands == Text(p) + "]" + Commands(rest)
    case Ended(p) => Typed(p) && commands == Text(p)
    case Unclosed => true
  }

  /** Parsing reads back exactly the commands of the text. */
  lemma {:induction false} ParseKeepsCommands(s: string)
    ensures KeepsCommands(Commands(s), Parse(s))
    decreases |s|
  {
    if s == "" {
    } else if s[0] == ']' {
      assert Commands(s) == "" + "]" + Commands(s[1..]);
    } else {
      var r := Parse(s[1..]);
      ParseKeepsCommands(s[1..]);
      if s[0] == '[' && r.Closed? {
        ParseKeepsCommands(r.rest);
        LoopKeepsCommands(s, r.prog, r.rest, Parse(r.rest));
      } else if IsOp(s[0]) {
        OpKeepsCommands(s, r);
      }
    }
  }

  lemma OpKeepsCommands(s: string, r: Parsed)
    requires s != "" && IsOp(s[0]) && KeepsCommands(Commands(s[1..]), r)
    ensures KeepsCommands(Commands(s), OpThen(OpOf(s[0]), r))
  {
    assert CharOf(OpOf(s[0])) == s[0];
    if r.Closed? {
      assert [s[0]] + (Text(r.prog) + "]" + Commands(r.rest)) == ([s[0]] + Text(r.prog)) + "]" + Commands(r.rest);
    }
  }

  lemma LoopKeepsCommands(s: string, body: Prog, rest: string, r: Parsed)
    requires s != "" && s[0] == '[' && KeepsCommands(Commands(s[1..]), Closed(body, rest))
    requires KeepsCommands(Commands(rest), r)
    ensures KeepsCommands(Commands(s), LoopThen(body, r))
  {
    var open := "[" + Text(body) + "]";
    assert Commands(s) == open + Commands(rest) by {
      Assoc("[", Text(body) + "]", Commands(rest));
      Assoc("[", Text(body), "]");
    }
    if r.Closed? {
      Assoc(open, Text(r.prog) + "]", Commands(r.rest));
      Assoc(open, Text(r.prog), "]");
    }
  }

  /** A typed program is read back from its text, whatever encloses or follows it. */
  lemma {:induction false} ParseText(p: Prog, tail: string)
    requires Typed(p)
    requires tail == "" || tail[0] == ']'
    ensures Parse(Text(p) + tail) == if tail == "" then Ended(p) else Closed(p, tail[1..])
    decreases p
  {
    hide Parse;
    match p
    case End =>
      ParseTail(tail);
    case Do(op, next) =>
      ParseText(next, tail);
      ParseOp(op, Text(next) + tail);
      assert Text(p) + tail == [CharOf(op)] + (Text(next) + tail);
    case Loop(body, next) =>
      var after := Text(next) + tail;
      ParseText(body, "]" + after);
      assert ("]" + after)[1..] == after;
      ParseText(next, tail);
      LoopText(body, next, tail);
      ParseLoop(Text(body) + ("]" + after), body, after);
  }

  lemma ParseTail(tail: string)
    requires tail == "" || tail[0] == ']'
    ensures Parse(Text(End) + tail) == if tail == "" then Ended(End) else Closed(End, tail[1..])
  {
    assert Text(End) + tail == tail;
  }

  lemma LoopText(body: Prog, next: Prog, tail: string)
    ensures Text(Loop(body, next)) + tail == "[" + (Text(body) + ("]" + (Text(next) + tail)))
  {
  }

  lemma ParseOp(op: Op, t: string)
    requires op.Move? || op.Change? ==> op.n == 1 || op.n == -1
    ensures Parse([CharOf(op)] + t) == OpThen(op, Parse(t))
  {
    assert ([CharOf(op)] + t)[1..] == t;
  }

  lemma ParseLoop(t: string, body: Prog, rest: string)
    requires Parse(t) == Closed(body, rest)
    ensures Parse("[" + t) == LoopThen(body, Parse(rest))
  {
    assert ("[" + t)[1..] == t;
  }

  function WithoutComments(r: Parsed): Parsed {
    if r.Closed? then Closed(r.prog, Commands(r.rest)) else r
  }

  lemma {:induction false} ParseSkipsComments(s: string)
    ensures Parse(Commands(s)) == WithoutComments(Parse(s))
    decreases |s|
  {
    if s == "" {
    } else {
      var t := s[1..];
      ParseSkipsComments(t);
      if IsCommand(s[0]) {
        assert Commands(s)[0] == s[0] && Commands(s)[1..] == Commands(t);
        if s[0] == '[' && Parse(t).Closed? {
          ParseSkipsComments(Parse(t).rest);
        }
      }
    }
  }

  /** `p` is the program of a text exactly when its own text is the text's commands. */
  lemma ParseIsInverseOfText(s: string, p: Prog)
    ensures Parse(s) == Ended(p) <==> Typed(p) && Text(p) == Commands(s)
  {
    ParseKeepsCommands(s);
    ParseSkipsComments(s);
    if Typed(p) && Text(p) == Commands(s) {
      ParseText(p, "");
      assert Text(p) + "" == Text(p);
    }
  }

  // ----- the command table -----

  /** What a command does to a state on the tape. */
  function Effect(c: char, s: State): State
    requires s.OnTape()
  {
    var x := s.tape[s.head];
    match c
    case ',' =>
      if s.input == [] then State(s.tape[s.head := 255], s.head, [], s.output)
      else State(s.tape[s.head := s.input[0]], s.head, s.input[1..], s.output)
    case '.' => State(s.tape, s.head, s.input, s.output + [x])
    case '-' => State(s.tape[s.head := if x == 0 then 255 else x - 1], s.head, s.input, s.output)
    case '+' => State(s.tape[s.head := if x == 255 then 0 else x + 1], s.head, s.input, s.output)
    case '<' => State(s.tape, s.head - 1, s.input, s.output)
    case '>' => State(s.tape, s.head + 1, s.input, s.output)
    case _ => s
  }

  /** A text runs its first character and then the rest. */
  lemma TextSteps(c: char, rest: string, clock: nat, s: State)
    requires c != '[' && c != ']' && s.OnTape() && Parse(rest).Ended?
    ensures Parse([c] + rest).Ended?
    ensures Exec(Parse([c] + rest).prog, clock, s, false) == Exec(Parse(rest).prog, clock, Effect(c, s), false)
  {
    assert ([c] + rest)[1..] == rest;
    if !IsOp(c) { assert Effect(c, s) == s; }
  }

  /** A text that starts with a loop runs the text between the brackets, and then the whole again, as
      long as the cell under the head is not 0; then it goes on behind the loop. */
  lemma LoopSteps(inside: string, rest: string, clock: nat, s: State)
    requires s.OnTape() && Parse(inside).Ended? && Parse(rest).Ended?
    ensures var all := Parse("[" + inside + "]" + rest);
            && all.Ended?
            && Exec(all.prog, clock, s, false) ==
                 if s.tape[s.head] == 0 then Exec(Parse(rest).prog, clock, s, false)
                 else if clock == 0 then OutOfClock(s)
                 else
                   match Exec(Parse(inside).prog, clock - 1, s, false)
                   case Done(t, left) => Exec(all.prog, left, t, false)
                   case stop => stop
  {
    hide Parse;
    ParseBefore(inside, rest);
    assert "[" + inside + "]" + rest == "[" + (inside + "]" + rest);
    ParseLoop(inside + "]" + rest, Parse(inside).prog, rest);
  }

  /** A balanced text is read up to the bracket behind it. */
  lemma {:induction false} ParseBefore(s: string, rest: string)
    requires !Parse(s).Unclosed?
    ensures Parse(s).Ended? ==> Parse(s + "]" + rest) == Closed(Parse(s).prog, rest)
    ensures Parse(s).Closed? ==> Parse(s + "]" + rest) == Closed(Parse(s).prog, Parse(s).rest + "]" + rest)
    decreases |s|
  {
    var all := s + "]" + rest;
    if s == "" {
      assert all == "]" + rest;
    } else {
      assert all[1..] == s[1..] + "]" + rest;
      if s[0] == '[' {
        var r := Parse(s[1..]);
        ParseBefore(s[1..], rest);
        ParseBefore(r.rest, rest);
      } else if s[0] == ']' {
      } else {
        ParseBefore(s[1..], rest);
      }
    }
  }
}
