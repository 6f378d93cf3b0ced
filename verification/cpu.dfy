/**
 * The handheld CPU (day 10): a single register X, `addx v` taking two cycles and `noop`
 * one. The executor advances one cycle per step and applies an instruction on its last
 * cycle; its iterator yields the state before the first cycle and then the state after
 * each cycle. The CRT draws 40 pixels per line, lit where the sprite covers the column.
 */
module Cpu {

  import opened Common
  import opened Parsing

  datatype Instruction = Addx(amount: int) | Noop

  function Cycles(i: Instruction): (r: nat)
    ensures 1 <= r <= 2
    ensures r == 2 <==> i.Addx?
  {
    match i
    case Addx(_) => 2
    case Noop => 1
  }

  datatype ProgramState = ProgramState(register: int)

  /** The register starts at 1. */
  const Initial := ProgramState(1)

  /** What an instruction adds to the register. */
  function Delta(i: Instruction): int {
    match i
    case Addx(amount) => amount
    case Noop => 0
  }

  /** Only `addx` changes the register, by its amount. */
  function ApplyInstruction(s: ProgramState, i: Instruction): (r: ProgramState)
    ensures i.Noop? ==> r == s
    ensures i.Addx? ==> r.register == s.register + i.amount
  {
    match i
    case Addx(amount) => ProgramState(s.register + amount)
    case Noop => s
  }

  /** The total of the amounts of the `addx` instructions in a program slice. */
  function TotalDelta(program: seq<Instruction>): int {
    if |program| == 0 then 0 else TotalDelta(program[..|program| - 1]) + Delta(program[|program| - 1])
  }

  /** The number of cycles a program slice takes. */
  function TotalCycles(program: seq<Instruction>): nat {
    if |program| == 0 then 0 else Cycles(program[0]) + TotalCycles(program[1..])
  }

  datatype Executor = Executor(state: ProgramState, programCounter: nat, cyclesInCurrentInstruction: nat)

  function ForProgram(): Executor {
    Executor(Initial, 0, 0)
  }

  predicate IsFinished(e: Executor, program: seq<Instruction>) {
    e.programCounter >= |program|
  }

  /**
   * One cycle: count it against the current instruction and, on that instruction's last
   * cycle, apply it, reset the cycle count and advance. A finished executor does nothing.
   */
  function Step(e: Executor, program: seq<Instruction>): (r: Executor)
    ensures IsFinished(e, program) ==> r == e
    ensures !IsFinished(e, program) && e.cyclesInCurrentInstruction + 1 == Cycles(program[e.programCounter]) ==>
              r == Executor(ApplyInstruction(e.state, program[e.programCounter]), e.programCounter + 1, 0)
    ensures !IsFinished(e, program) && e.cyclesInCurrentInstruction + 1 != Cycles(program[e.programCounter]) ==>
              r == e.(cyclesInCurrentInstruction := e.cyclesInCurrentInstruction + 1)
  {
    if e.programCounter < |program| then
      var instruction := program[e.programCounter];
      var cycles := e.cyclesInCurrentInstruction + 1;
      if cycles == Cycles(instruction) then
        Executor(ApplyInstruction(e.state, instruction), e.programCounter + 1, 0)
      else
        e.(cyclesInCurrentInstruction := cycles)
    else
      e
  }

  /**
   * The states an executor started by `ForProgram` can reach: the counter never passes
   * the end, the cycle count stays below the current instruction's cycles, and the
   * register is 1 plus the amounts of the instructions already completed.
   */
  predicate Reachable(e: Executor, program: seq<Instruction>) {
    && e.programCounter <= |program|
    && (e.programCounter < |program| ==> e.cyclesInCurrentInstruction < Cycles(program[e.programCounter]))
    && (e.programCounter == |program| ==> e.cyclesInCurrentInstruction == 0)
    && e.state.register == 1 + TotalDelta(program[..e.programCounter])
  }

  /** The cycles left before the executor finishes. */
  function Remaining(e: Executor, program: seq<Instruction>): nat
    requires Reachable(e, program)
  {
    if e.programCounter == |program| then 0
    else Cycles(program[e.programCounter]) - e.cyclesInCurrentInstruction + TotalCycles(program[e.programCounter + 1..])
  }

  lemma InitialIsReachable(program: seq<Instruction>)
    ensures Reachable(ForProgram(), program)
    ensures Remaining(ForProgram(), program) == TotalCycles(program)
  {
    if |program| > 0 {
      assert program[1..] == program[0 + 1..];
    }
  }

  /** A step keeps the executor reachable and, unless it has finished, uses up exactly one cycle. */
  lemma StepKeepsReachable(e: Executor, program: seq<Instruction>)
    requires Reachable(e, program)
    ensures Reachable(Step(e, program), program)
    ensures !IsFinished(e, program) ==> Remaining(Step(e, program), program) + 1 == Remaining(e, program)
  {
    var pc := e.programCounter;
    if pc < |program| && e.cyclesInCurrentInstruction + 1 == Cycles(program[pc]) {
      assert program[..pc + 1][..pc] == program[..pc];
      if pc + 1 < |program| {
        assert program[pc + 1..] == [program[pc + 1]] + program[pc + 2..];
      }
    }
  }

  /** The iterator over executor states. */
  datatype ExecutorIter = ExecutorIter(started: bool, executor: Executor)

  function IntoIter(e: Executor): ExecutorIter {
    ExecutorIter(false, e)
  }

  /**
   * `next`: first the current state without stepping, then one step per call with the
   * state after it, and nothing once the executor has finished.
   */
  function Next(it: ExecutorIter, program: seq<Instruction>): (r: (Option<ProgramState>, ExecutorIter))
    ensures !it.started ==> r == (Some(it.executor.state), it.(started := true))
    ensures it.started && IsFinished(it.executor, program) ==> r == (None, it)
    ensures it.started && !IsFinished(it.executor, program) ==>
              r.1 == ExecutorIter(true, Step(it.executor, program)) && r.0 == Some(r.1.executor.state)
  {
    if !it.started then (Some(it.executor.state), it.(started := true))
    else if !IsFinished(it.executor, program) then
      var stepped := Step(it.executor, program);
      (Some(stepped.state), ExecutorIter(true, stepped))
    else
      (None, it)
  }

  /** Items the iterator has still to yield. */
  function ItemsLeft(it: ExecutorIter, program: seq<Instruction>): nat
    requires Reachable(it.executor, program)
  {
    (if it.started then 0 else 1) + Remaining(it.executor, program)
  }

  /** Everything the iterator yields, in order. */
  function Collect(it: ExecutorIter, program: seq<Instruction>): (r: seq<ProgramState>)
    requires Reachable(it.executor, program)
    ensures |r| == ItemsLeft(it, program)
    decreases ItemsLeft(it, program)
  {
    match Next(it, program)
    case (None, _) => []
    case (Some(s), rest) =>
      StepKeepsReachable(it.executor, program);
      [s] + Collect(rest, program)
  }

  /** The register values the iterator yields for a whole program. */
  function Trace(program: seq<Instruction>): (r: seq<int>)
    ensures |r| == 1 + TotalCycles(program)
  {
    InitialIsReachable(program);
    Registers(Collect(IntoIter(ForProgram()), program))
  }

  /**
   * The puzzle's description of the register, independent of the executor: X holds
   * during each cycle of an instruction and an `addx` takes effect after its second
   * cycle. `Expected(x, p)` lists X after each cycle of p when X starts as x.
   */
  function Expected(x: int, program: seq<Instruction>): (r: seq<int>)
    ensures |r| == TotalCycles(program)
    decreases |program|
  {
    if |program| == 0 then []
    else match program[0]
      case Noop => [x] + Expected(x, program[1..])
      case Addx(v) => [x, x + v] + Expected(x + v, program[1..])
  }

  /** The register values of a sequence of states. */
  function Registers(states: seq<ProgramState>): (r: seq<int>)
    ensures |r| == |states|
    ensures forall i :: 0 <= i < |states| ==> r[i] == states[i].register
  {
    seq(|states|, i requires 0 <= i < |states| => states[i].register)
  }

  lemma RegistersAppend(a: seq<ProgramState>, b: seq<ProgramState>)
    ensures Registers(a + b) == Registers(a) + Registers(b)
  {
  }

  /** An iterator past its first item yields the state after a step, then continues from there. */
  lemma CollectStep(e: Executor, program: seq<Instruction>)
    requires Reachable(e, program) && !IsFinished(e, program)
    ensures Reachable(Step(e, program), program)
    ensures Collect(ExecutorIter(true, e), program)
            == [Step(e, program).state] + Collect(ExecutorIter(true, Step(e, program)), program)
  {
    StepKeepsReachable(e, program);
  }

  /** Completing the instruction at `pc` adds its amount to the register and advances. */
  lemma CompleteInstruction(program: seq<Instruction>, pc: nat, x: int)
    requires pc < |program| && x == 1 + TotalDelta(program[..pc])
    ensures Reachable(Executor(ProgramState(x + Delta(program[pc])), pc + 1, 0), program)
  {
    assert program[..pc + 1][..pc] == program[..pc];
  }

  /** Running one whole instruction from its boundary yields one state per cycle it takes. */
  lemma CollectOneInstruction(program: seq<Instruction>, pc: nat, x: int)
    requires pc < |program| && x == 1 + TotalDelta(program[..pc])
    ensures Reachable(Executor(ProgramState(x), pc, 0), program)
    ensures Reachable(Executor(ProgramState(x + Delta(program[pc])), pc + 1, 0), program)
    ensures Collect(ExecutorIter(true, Executor(ProgramState(x), pc, 0)), program)
            == (if program[pc].Noop? then [ProgramState(x)] else [ProgramState(x), ProgramState(x + Delta(program[pc]))])
               + Collect(ExecutorIter(true, Executor(ProgramState(x + Delta(program[pc])), pc + 1, 0)), program)
  {
    CompleteInstruction(program, pc, x);
    if program[pc].Addx? {
      CollectAddx(program, pc, x);
    } else {
      CollectNoop(program, pc, x);
    }
  }

  lemma CollectNoop(program: seq<Instruction>, pc: nat, x: int)
    requires pc < |program| && x == 1 + TotalDelta(program[..pc]) && program[pc].Noop?
    requires Reachable(Executor(ProgramState(x), pc + 1, 0), program)
    ensures Reachable(Executor(ProgramState(x), pc, 0), program)
    ensures Collect(ExecutorIter(true, Executor(ProgramState(x), pc, 0)), program)
            == [ProgramState(x)] + Collect(ExecutorIter(true, Executor(ProgramState(x), pc + 1, 0)), program)
  {
    var e := Executor(ProgramState(x), pc, 0);
    CollectStep(e, program);
    assert Step(e, program) == Executor(ProgramState(x), pc + 1, 0);
  }

  lemma CollectAddx(program: seq<Instruction>, pc: nat, x: int)
    requires pc < |program| && x == 1 + TotalDelta(program[..pc]) && program[pc].Addx?
    requires Reachable(Executor(ProgramState(x + program[pc].amount), pc + 1, 0), program)
    ensures Reachable(Executor(ProgramState(x), pc, 0), program)
    ensures Collect(ExecutorIter(true, Executor(ProgramState(x), pc, 0)), program)
            == [ProgramState(x), ProgramState(x + program[pc].amount)]
               + Collect(ExecutorIter(true, Executor(ProgramState(x + program[pc].amount), pc + 1, 0)), program)
  {
    var e := Executor(ProgramState(x), pc, 0);
    var mid := Executor(ProgramState(x), pc, 1);
    var e' := Executor(ProgramState(x + program[pc].amount), pc + 1, 0);
    CollectStep(e, program);
    assert Step(e, program) == mid;
    CollectStep(mid, program);
    assert Step(mid, program) == e';
  }

  /** The expected values from instruction `pc` on: its own cycles, then the rest. */
  lemma {:induction false} ExpectedPeel(x: int, program: seq<Instruction>, pc: nat)
    requires pc < |program|
    ensures Expected(x, program[pc..])
            == (if program[pc].Noop? then [x] else [x, x + Delta(program[pc])])
               + Expected(x + Delta(program[pc]), program[pc + 1..])
  {
    var tail := program[pc..];
    assert tail[0] == program[pc] && tail[1..] == program[pc + 1..];
  }

  /** From an instruction boundary, the executor yields exactly the expected register values. */
  lemma {:induction false} CollectFromBoundary(program: seq<Instruction>, pc: nat, x: int)
    requires pc <= |program| && x == 1 + TotalDelta(program[..pc])
    ensures Reachable(Executor(ProgramState(x), pc, 0), program)
    ensures Registers(Collect(ExecutorIter(true, Executor(ProgramState(x), pc, 0)), program)) == Expected(x, program[pc..])
    decreases |program| - pc
  {
    if pc < |program| {
      var x' := x + Delta(program[pc]);
      CollectOneInstruction(program, pc, x);
      CompleteInstruction(program, pc, x);
      assert program[..pc + 1][..pc] == program[..pc];
      CollectFromBoundary(program, pc + 1, x');
      ExpectedPeel(x, program, pc);
      var rest := Collect(ExecutorIter(true, Executor(ProgramState(x'), pc + 1, 0)), program);
      var first := if program[pc].Noop? then [ProgramState(x)] else [ProgramState(x), ProgramState(x')];
      RegistersAppend(first, rest);
      assert Registers(first) == (if program[pc].Noop? then [x] else [x, x']);
    } else {
      assert program[pc..] == [];
    }
  }

  /**
   * The iterator yields 1 + the program's cycle count register values: the initial 1,
   * then the value after each cycle, exactly as the puzzle's rules give it.
   */
  lemma TraceMatchesExpected(program: seq<Instruction>)
    ensures Trace(program) == [1] + Expected(1, program)
  {
    InitialIsReachable(program);
    CollectFromBoundary(program, 0, 1);
    assert program[0..] == program;
    var it := IntoIter(ForProgram());
    StepKeepsReachable(it.executor, program);
    RegistersAppend([Initial], Collect(ExecutorIter(true, ForProgram()), program));
  }

  /**
   * One CRT line from the sprite positions: the first 40 (or fewer) positions, pixel
   * `idx` lit when the sprite covers it, and None when no position is left. Also returns
   * the positions not consumed.
   */
  function CrtLine(sprites: seq<int>): (r: (Option<string>, seq<int>))
    ensures r.0.None? <==> |sprites| == 0
    ensures r.0.Some? ==> |r.0.value| == (if |sprites| < 40 then |sprites| else 40)
    ensures r.0.Some? ==> forall idx :: 0 <= idx < |r.0.value| ==>
              (r.0.value[idx] == '#' <==> -1 <= sprites[idx] - idx <= 1)
    ensures r.0.Some? ==> forall idx :: 0 <= idx < |r.0.value| ==> r.0.value[idx] in {'#', ' '}
    ensures r.1 == sprites[(if |sprites| < 40 then |sprites| else 40)..]
  {
    var n := if |sprites| < 40 then |sprites| else 40;
    var line := seq(n, idx requires 0 <= idx < n => if -1 <= sprites[idx] - idx <= 1 then '#' else ' ');
    (if |line| == 0 then None else Some(line), sprites[n..])
  }

  /** All the CRT lines, drawn until the sprite positions run out. */
  function CrtScreen(sprites: seq<int>): (r: seq<string>)
    decreases |sprites|
  {
    match CrtLine(sprites)
    case (None, _) => []
    case (Some(line), rest) => [line] + CrtScreen(rest)
  }

  function Concat(lines: seq<string>): string {
    if |lines| == 0 then [] else lines[0] + Concat(lines[1..])
  }

  /**
   * The screen as one stream of pixels: one pixel per sprite position, and pixel k is lit
   * iff the sprite is within one column of k's column, k mod 40; every line but the
   * last is 40 pixels wide.
   */
  lemma {:induction false} CrtScreenPixels(sprites: seq<int>)
    ensures |Concat(CrtScreen(sprites))| == |sprites|
    ensures forall k :: 0 <= k < |sprites| ==>
              (Concat(CrtScreen(sprites))[k] == '#' <==> -1 <= sprites[k] - k % 40 <= 1)
    ensures forall j :: 0 <= j < |CrtScreen(sprites)| - 1 ==> |CrtScreen(sprites)[j]| == 40
    decreases |sprites|
  {
    if |sprites| > 0 {
      var rest := CrtLine(sprites).1;
      CrtScreenPixels(rest);
      CrtScreenUnfold(sprites);
      var all := Concat(CrtScreen(sprites));
      forall k | 0 <= k < |sprites|
        ensures all[k] == '#' <==> -1 <= sprites[k] - k % 40 <= 1
      {
        CrtPixel(sprites, k);
      }
    }
  }

  /** The screen is the first line followed by the screen of the positions it leaves. */
  lemma CrtScreenUnfold(sprites: seq<int>)
    requires |sprites| > 0
    ensures CrtLine(sprites).0.Some?
    ensures CrtScreen(sprites) == [CrtLine(sprites).0.value] + CrtScreen(CrtLine(sprites).1)
    ensures CrtScreen(sprites)[1..] == CrtScreen(CrtLine(sprites).1)
    ensures Concat(CrtScreen(sprites)) == CrtLine(sprites).0.value + Concat(CrtScreen(CrtLine(sprites).1))
  {
    var screen := CrtScreen(sprites);
    assert screen[1..] == CrtScreen(CrtLine(sprites).1);
  }

  /** One pixel of the stream, given the pixels of the screen after the first line. */
  lemma CrtPixel(sprites: seq<int>, k: nat)
    requires k < |sprites|
    requires CrtLine(sprites).0.Some?
    requires var rest := CrtLine(sprites).1;
      |Concat(CrtScreen(rest))| == |rest| &&
      forall j :: 0 <= j < |rest| ==> (Concat(CrtScreen(rest))[j] == '#' <==> -1 <= rest[j] - j % 40 <= 1)
    requires Concat(CrtScreen(sprites)) == CrtLine(sprites).0.value + Concat(CrtScreen(CrtLine(sprites).1))
    ensures Concat(CrtScreen(sprites))[k] == '#' <==> -1 <= sprites[k] - k % 40 <= 1
  {
    var line := CrtLine(sprites).0.value;
    var rest := CrtLine(sprites).1;
    PixelSplit(sprites, line, rest, Concat(CrtScreen(rest)), k);
  }

  /** A pixel of a first line followed by the pixels of the positions after it. */
  lemma PixelSplit(sprites: seq<int>, line: string, rest: seq<int>, restPixels: string, k: nat)
    requires k < |sprites| && |line| <= |sprites| && |line| <= 40 && rest == sprites[|line|..]
    requires |line| < |sprites| ==> |line| == 40
    requires forall i :: 0 <= i < |line| ==> (line[i] == '#' <==> -1 <= sprites[i] - i <= 1)
    requires |restPixels| == |rest|
    requires forall j :: 0 <= j < |rest| ==> (restPixels[j] == '#' <==> -1 <= rest[j] - j % 40 <= 1)
    ensures (line + restPixels)[k] == '#' <==> -1 <= sprites[k] - k % 40 <= 1
  {
    if k >= |line| {
      ModShift40(k);
      assert sprites[k] == rest[k - 40];
      assert (line + restPixels)[k] == restPixels[k - 40];
    } else {
      assert k < 40;
      assert (line + restPixels)[k] == line[k];
    }
  }

  lemma ModShift40(k: int)
    requires k >= 40
    ensures k % 40 == (k - 40) % 40
  {
  }

  /**
   * `parse_line`: the first four characters name the instruction and an `addx` amount
   * is the signed number from the sixth character on; a line too short to slice, an
   * unknown name or an amount that does not parse is an error.
   */
  function ParseLine(line: string): (r: Option<Instruction>)
    ensures r == Some(Noop) <==> |line| >= 4 && line[..4] == "noop"
    ensures r.Some? && r.value.Addx? <==>
      |line| >= 5 && line[..4] == "addx" && ParseInt(line[5..]).Some?
    ensures r.Some? && r.value.Addx? ==> r.value.amount == ParseInt(line[5..]).value
  {
    if |line| < 4 then None
    else if line[..4] == "addx" then
      if |line| < 5 then None
      else match ParseInt(line[5..])
        case Some(v) => Some(Addx(v))
        case None => None
    else if line[..4] == "noop" then Some(Noop)
    else None
  }

  /** The program text of an instruction, as the puzzle input writes it. */
  function ShowInstruction(i: Instruction): string {
    match i
    case Noop => "noop"
    case Addx(v) => "addx " + (if v < 0 then "-" + ShowNat(-v) else ShowNat(v))
  }

  /** Every instruction, written out and parsed back, is itself. */
  lemma ParseLineRoundTrip(i: Instruction)
    ensures ParseLine(ShowInstruction(i)) == Some(i)
  {
    match i
    case Noop =>
    case Addx(v) =>
      var line := ShowInstruction(i);
      var digits := if v < 0 then "-" + ShowNat(-v) else ShowNat(v);
      assert line[..4] == "addx" && line[5..] == digits;
      ParseShowRoundTrip(if v < 0 then -v else v);
  }
}
