/**
 * The three-opcode machine: decoding a line into an instruction, a run that stops
 * at a clean halt or at the first instruction about to execute a second time, and
 * the repair search that swaps one `jmp`/`nop` at a time until a run halts.
 *
 * The meaning of a program is given by its trace: `StateAt(p, n)` is the state after
 * `n` instructions. A run stops at the first step `k` whose program counter is outside
 * the program or was already executed; `StopIndex` is that step and `RunOutcome` what
 * the interpreter reports there. The methods are proved against these functions.
 */
module Day8 {
  import opened Wrappers
  import opened Text

  datatype Instruction = Nop(arg: int) | Acc(arg: int) | Jmp(arg: int)

  datatype ParseError = MissingOperand | BadOperand(operand: string) | UnknownOpcode(opcode: string)

  // ---------------------------------------------------------------------------
  // Decoding

  /**
   * A line `<opcode> <operand>`, split at single spaces: the operand (the second piece)
   * is parsed first, then the opcode (the first piece) chosen; further pieces are ignored.
   */
  function ParseInstruction(line: string): (r: Result<Instruction, ParseError>)
    ensures r.Ok? ==> var parts := SplitOn(line, " ");
      |parts| >= 2 && parts[0] == Opcode(r.value) && ParseSigned(parts[1]) == Some(r.value.arg)
  {
    var parts := SplitOn(line, " ");
    if |parts| < 2 then Err(MissingOperand)
    else
      match ParseSigned(parts[1])
      case None => Err(BadOperand(parts[1]))
      case Some(n) =>
        if parts[0] == "nop" then Ok(Nop(n))
        else if parts[0] == "acc" then Ok(Acc(n))
        else if parts[0] == "jmp" then Ok(Jmp(n))
        else Err(UnknownOpcode(parts[0]))
  }

  function Opcode(ins: Instruction): string {
    match ins
    case Nop(_) => "nop"
    case Acc(_) => "acc"
    case Jmp(_) => "jmp"
  }

  /** The text form of an instruction, as the puzzle input writes it. */
  function FormatInstruction(ins: Instruction): string {
    Opcode(ins) + " " + IntToString(ins.arg)
  }

  /** Decoding inverts formatting, for every instruction. */
  lemma ParseFormat(ins: Instruction)
    ensures ParseInstruction(FormatInstruction(ins)) == Ok(ins)
  {
    var op, num := Opcode(ins), IntToString(ins.arg);
    assert ' ' !in op;
    assert ' ' !in num by {
      if ins.arg < 0 {
        assert num == "-" + NatToString(-ins.arg);
        assert forall i :: 1 <= i < |num| ==> num[i] == NatToString(-ins.arg)[i - 1];
      }
    }
    assert FormatInstruction(ins) == Join([op, num], " ");
    SplitOnJoin([op, num], ' ');
    ParseSignedOfIntToString(ins.arg);
  }

  /** A line whose first piece is none of `nop`, `acc`, `jmp` is rejected. */
  lemma ParseRejectsUnknownOpcode(line: string)
    requires SplitOn(line, " ")[0] !in {"nop", "acc", "jmp"}
    ensures ParseInstruction(line).Err?
  {
  }

  // ---------------------------------------------------------------------------
  // Execution as a trace

  datatype State = State(pc: int, acc: int)

  /**
   * Executing the instruction at the program counter: `nop` and `acc` move to the next
   * instruction, `jmp` moves by its operand, and only `acc` changes the accumulator.
   * A counter outside the program leaves the state alone (the trace has stopped there).
   */
  function Step(program: seq<Instruction>, s: State): (r: State)
    ensures r.acc != s.acc ==> 0 <= s.pc < |program| && program[s.pc].Acc?
    ensures 0 <= s.pc < |program| && !program[s.pc].Jmp? ==> r.pc == s.pc + 1
  {
    if !(0 <= s.pc < |program|) then s
    else
      match program[s.pc]
      case Nop(_) => State(s.pc + 1, s.acc)
      case Acc(a) => State(s.pc + 1, s.acc + a)
      case Jmp(j) => State(s.pc + j, s.acc)
  }

  /** The state after `n` instructions, starting from counter 0 and accumulator 0. */
  function StateAt(program: seq<Instruction>, n: nat): State
    decreases n
  {
    if n == 0 then State(0, 0) else Step(program, StateAt(program, n - 1))
  }

  /** The program counter after `n` instructions. */
  function PcAt(program: seq<Instruction>, n: nat): int {
    StateAt(program, n).pc
  }

  /** The first `k` instructions executed were inside the program and at pairwise distinct positions. */
  ghost predicate Fresh(program: seq<Instruction>, k: nat) {
    && (forall i :: 0 <= i < k ==> 0 <= PcAt(program, i) < |program|)
    && (forall i, j :: 0 <= i < j < k ==> PcAt(program, i) != PcAt(program, j))
  }

  /**
   * Execution stops before step `k`: the steps before it were fresh, and the counter
   * at step `k` is outside the program or names an instruction already executed.
   */
  ghost predicate StopsAt(program: seq<Instruction>, k: nat) {
    && Fresh(program, k)
    && var pc := StateAt(program, k).pc;
       (!(0 <= pc < |program|) || exists i :: 0 <= i < k && PcAt(program, i) == pc)
  }

  /** Pigeonhole: distinct positions inside a program of length n are at most n. */
  lemma {:induction false} DistinctBound(xs: seq<int>, n: nat)
    requires forall i :: 0 <= i < |xs| ==> 0 <= xs[i] < n
    requires forall i, j :: 0 <= i < j < |xs| ==> xs[i] != xs[j]
    ensures |xs| <= n
    decreases n
  {
    if |xs| > 0 {
      assert 0 <= xs[0] < n;
      if i :| 0 <= i < |xs| && xs[i] == n - 1 {
        var ys := xs[..i] + xs[i + 1..];
        assert forall m :: 0 <= m < |ys| ==> ys[m] == if m < i then xs[m] else xs[m + 1];
        DistinctBound(ys, n - 1);
      } else {
        assert forall i :: 0 <= i < |xs| ==> 0 <= xs[i] < n - 1;
        DistinctBound(xs, n - 1);
      }
    }
  }

  /** A run executes each instruction at most once before it stops, so at most |program| of them. */
  lemma FreshBound(program: seq<Instruction>, k: nat)
    requires Fresh(program, k)
    ensures k <= |program|
  {
    var pcs := seq(k, i requires 0 <= i < k => PcAt(program, i));
    DistinctBound(pcs, |program|);
  }

  /** One more fresh step: the counter is inside the program and not yet executed. */
  lemma FreshExtend(program: seq<Instruction>, k: nat)
    requires Fresh(program, k)
    requires 0 <= StateAt(program, k).pc < |program|
    requires forall i :: 0 <= i < k ==> PcAt(program, i) != StateAt(program, k).pc
    ensures Fresh(program, k + 1) && k + 1 <= |program|
  {
    FreshBound(program, k + 1);
  }

  lemma {:induction false} FindStop(program: seq<Instruction>, k: nat)
    requires Fresh(program, k)
    ensures exists m :: k <= m && StopsAt(program, m)
    decreases |program| - k
  {
    FreshBound(program, k);
    if !StopsAt(program, k) {
      assert Fresh(program, k + 1);
      FreshBound(program, k + 1);
      FindStop(program, k + 1);
    }
  }

  /** While steps are fresh, execution has not stopped at any of them. */
  lemma FreshNotStopped(program: seq<Instruction>, k: nat, m: nat)
    requires Fresh(program, k) && m < k
    ensures !StopsAt(program, m)
  {
    assert 0 <= PcAt(program, m) < |program|;
  }

  /** Execution stops at one step only. */
  lemma StopsAtUnique(program: seq<Instruction>, k1: nat, k2: nat)
    requires StopsAt(program, k1) && StopsAt(program, k2)
    ensures k1 == k2
  {
    if k1 < k2 {
      FreshNotStopped(program, k2, k1);
    } else if k2 < k1 {
      FreshNotStopped(program, k1, k2);
    }
  }

  /** The step at which execution stops: it exists for every program and is at most its length. */
  ghost function StopIndex(program: seq<Instruction>): (k: nat)
    ensures StopsAt(program, k) && k <= |program|
  {
    FindStop(program, 0);
    var k :| StopsAt(program, k);
    FreshBound(program, k);
    k
  }

  /**
   * The end of a run. `Halted` and `Looped` carry the accumulator at the stop (for `Looped`,
   * before the repeated instruction would run again); `Fault` is a counter outside
   * `[0, |program|]`, where the source indexes out of bounds and panics.
   */
  datatype Outcome = Halted(acc: int) | Looped(acc: int) | Fault(pc: int)

  /** What `run` reports: a clean halt exactly at the end of the program, a loop, or a fault. */
  ghost function RunOutcome(program: seq<Instruction>): Outcome {
    var s := StateAt(program, StopIndex(program));
    if s.pc == |program| then Halted(s.acc)
    else if 0 <= s.pc < |program| then Looped(s.acc)
    else Fault(s.pc)
  }

  /** What the first part reports: it has no halt check, so reaching the end is a fault too. */
  ghost function LoopOutcome(program: seq<Instruction>): Outcome {
    var s := StateAt(program, StopIndex(program));
    if 0 <= s.pc < |program| then Looped(s.acc) else Fault(s.pc)
  }

  lemma StopIndexIs(program: seq<Instruction>, k: nat)
    requires StopsAt(program, k)
    ensures StopIndex(program) == k
  {
    StopsAtUnique(program, k, StopIndex(program));
  }

  /** Stopping because the counter left the instructions at step `k`. */
  lemma StopOutside(program: seq<Instruction>, k: nat)
    requires Fresh(program, k) && !(0 <= StateAt(program, k).pc < |program|)
    ensures var s := StateAt(program, k);
      && RunOutcome(program) == (if s.pc == |program| then Halted(s.acc) else Fault(s.pc))
      && LoopOutcome(program) == Fault(s.pc)
  {
    StopIndexIs(program, k);
  }

  /** Stopping because step `k` comes back to the instruction of step `i`. */
  lemma StopRevisit(program: seq<Instruction>, k: nat, i: nat)
    requires Fresh(program, k) && i < k && PcAt(program, i) == StateAt(program, k).pc
    ensures RunOutcome(program) == Looped(StateAt(program, k).acc) == LoopOutcome(program)
  {
    StopIndexIs(program, k);
  }

  /** A program that executes a clean halt reaches exactly its length after fresh steps only. */
  lemma HaltedMeansEnd(program: seq<Instruction>)
    requires RunOutcome(program).Halted?
    ensures exists k :: Fresh(program, k) && StateAt(program, k) == State(|program|, RunOutcome(program).acc)
  {
    var k := StopIndex(program);
    assert Fresh(program, k);
  }

  /** A loop is reported exactly when some counter value comes round again after fresh steps. */
  lemma LoopedMeansRevisit(program: seq<Instruction>)
    requires RunOutcome(program).Looped?
    ensures exists k, i ::
      && 0 <= i < k && Fresh(program, k)
      && PcAt(program, i) == StateAt(program, k).pc
      && StateAt(program, k).acc == RunOutcome(program).acc
  {
    var k := StopIndex(program);
    var i :| 0 <= i < k && PcAt(program, i) == StateAt(program, k).pc;
  }

  // ---------------------------------------------------------------------------
  // The interpreter

  /** `run`: executes until a clean halt, a revisited instruction, or a counter out of range. */
  method Run(instructions: seq<Instruction>) returns (r: Outcome)
    ensures r == RunOutcome(instructions)
  {
    var executed: seq<int> := [];
    var acc := 0;
    var idx := 0;
    while idx !in executed
      invariant Fresh(instructions, |executed|) && |executed| <= |instructions|
      invariant forall i :: 0 <= i < |executed| ==> executed[i] == PcAt(instructions, i)
      invariant State(idx, acc) == StateAt(instructions, |executed|)
      decreases |instructions| - |executed|
    {
      ghost var k := |executed|;
      executed := executed + [idx];
      if idx == |instructions| {
        StopOutside(instructions, k);
        return Halted(acc);
      }
      if !(0 <= idx < |instructions|) {
        StopOutside(instructions, k);
        return Fault(idx);
      }
      match instructions[idx] {
        case Nop(_) =>
          idx := idx + 1;
        case Acc(a) =>
          acc := acc + a;
          idx := idx + 1;
        case Jmp(j) =>
          idx := idx + j;
      }
      FreshExtend(instructions, k);
    }
    ghost var i :| 0 <= i < |executed| && executed[i] == idx;
    StopRevisit(instructions, |executed|, i);
    return Looped(acc);
  }

  /**
   * The first part: the accumulator just before some instruction would execute a second
   * time. Reaching the end of the program, or leaving it, is a fault here.
   */
  method PartOne(entries: seq<Instruction>) returns (r: Outcome)
    ensures r == LoopOutcome(entries)
    ensures RunOutcome(entries).Looped? ==> r == RunOutcome(entries)
    ensures RunOutcome(entries).Halted? ==> r == Fault(|entries|)
  {
    var executed: seq<int> := [];
    var acc := 0;
    var idx := 0;
    while idx !in executed
      invariant Fresh(entries, |executed|) && |executed| <= |entries|
      invariant forall i :: 0 <= i < |executed| ==> executed[i] == PcAt(entries, i)
      invariant State(idx, acc) == StateAt(entries, |executed|)
      decreases |entries| - |executed|
    {
      ghost var k := |executed|;
      executed := executed + [idx];
      if !(0 <= idx < |entries|) {
        StopOutside(entries, k);
        return Fault(idx);
      }
      match entries[idx] {
        case Nop(_) =>
          idx := idx + 1;
        case Acc(a) =>
          acc := acc + a;
          idx := idx + 1;
        case Jmp(j) =>
          idx := idx + j;
      }
      FreshExtend(entries, k);
    }
    ghost var i :| 0 <= i < |executed| && executed[i] == idx;
    StopRevisit(entries, |executed|, i);
    return Looped(acc);
  }

  // ---------------------------------------------------------------------------
  // Repair search

  /** `jmp` and `nop` swapped, operand kept; `acc` is never a repair candidate. */
  predicate IsCandidate(ins: Instruction) {
    ins.Nop? || ins.Jmp?
  }

  /** The program with the candidate at `i` swapped between `jmp` and `nop`, operand unchanged. */
  function Repaired(program: seq<Instruction>, i: nat): (q: seq<Instruction>)
    requires i < |program| && IsCandidate(program[i])
    ensures |q| == |program| && forall j :: 0 <= j < |q| && j != i ==> q[j] == program[j]
    ensures q[i].arg == program[i].arg && (q[i].Jmp? <==> program[i].Nop?) && IsCandidate(q[i])
  {
    program[i := if program[i].Jmp? then Nop(program[i].arg) else Jmp(program[i].arg)]
  }

  datatype RepairError = NoRepair | TrialFault(index: nat, pc: int)

  /** Every candidate before position `n` still loops once swapped. */
  ghost predicate LoopsBefore(program: seq<Instruction>, n: nat) {
    forall i :: 0 <= i < n && i < |program| && IsCandidate(program[i]) ==> RunOutcome(Repaired(program, i)).Looped?
  }

  /** Position `i` is the first candidate whose swapped program does not loop. */
  ghost predicate FirstNonLooping(program: seq<Instruction>, i: nat) {
    i < |program| && IsCandidate(program[i]) && LoopsBefore(program, i)
    && !RunOutcome(Repaired(program, i)).Looped?
  }

  /**
   * What the repair search reports: the accumulator of the first swapped program that
   * halts; the fault of the first one that leaves the program (the source panics there);
   * or, when every candidate loops, that no repair exists.
   */
  ghost predicate IsRepairResult(program: seq<Instruction>, r: Result<int, RepairError>) {
    match r
    case Ok(acc) => exists i :: FirstNonLooping(program, i) && RunOutcome(Repaired(program, i)) == Halted(acc)
    case Err(NoRepair) => LoopsBefore(program, |program|)
    case Err(TrialFault(i, pc)) => FirstNonLooping(program, i) && RunOutcome(Repaired(program, i)) == Fault(pc)
  }

  /** The repair search has exactly one possible result for each program. */
  lemma RepairResultUnique(program: seq<Instruction>, r1: Result<int, RepairError>, r2: Result<int, RepairError>)
    requires IsRepairResult(program, r1) && IsRepairResult(program, r2)
    ensures r1 == r2
  {
    match r1 {
      case Ok(_) =>
        var i :| FirstNonLooping(program, i) && RunOutcome(Repaired(program, i)) == Halted(r1.value);
        ResultAtFirst(program, i, r1);
        ResultAtFirst(program, i, r2);
      case Err(TrialFault(i, _)) =>
        ResultAtFirst(program, i, r1);
        ResultAtFirst(program, i, r2);
      case Err(NoRepair) =>
        match r2 {
          case Ok(_) => assert false;
          case Err(TrialFault(_, _)) => assert false;
          case Err(NoRepair) =>
        }
    }
  }

  /** Once the first candidate that does not loop is known, its run decides the result. */
  lemma ResultAtFirst(program: seq<Instruction>, i: nat, r: Result<int, RepairError>)
    requires FirstNonLooping(program, i) && IsRepairResult(program, r)
    ensures match RunOutcome(Repaired(program, i))
      case Halted(acc) => r == Ok(acc)
      case Fault(pc) => r == Err(TrialFault(i, pc))
      case Looped(_) => false
  {
    match r {
      case Ok(acc) =>
        var j :| FirstNonLooping(program, j) && RunOutcome(Repaired(program, j)) == Halted(acc);
        FirstNonLoopingUnique(program, i, j);
      case Err(TrialFault(j, _)) =>
        FirstNonLoopingUnique(program, i, j);
      case Err(NoRepair) =>
        assert false;
    }
  }

  lemma FirstNonLoopingUnique(program: seq<Instruction>, i: nat, j: nat)
    requires FirstNonLooping(program, i) && FirstNonLooping(program, j)
    ensures i == j
  {
    if i < j {
      assert false;
    } else if j < i {
      assert false;
    }
  }

  /**
   * The second part: tries the candidates in order, each on its own copy of the program
   * (the input is a value and stays as it was), and stops at the first run that halts.
   */
  method PartTwo(entries: seq<Instruction>) returns (r: Result<int, RepairError>)
    ensures IsRepairResult(entries, r)
  {
    var idx := 0;
    while idx < |entries|
      invariant 0 <= idx <= |entries|
      invariant LoopsBefore(entries, idx)
    {
      match entries[idx] {
        case Acc(_) =>
        case Jmp(i) =>
          var instructions := entries[idx := Nop(i)];
          assert instructions == Repaired(entries, idx);
          var outcome := Run(instructions);
          match outcome {
            case Halted(acc) => return Ok(acc);
            case Fault(pc) => return Err(TrialFault(idx, pc));
            case Looped(_) =>
          }
        case Nop(i) =>
          var instructions := entries[idx := Jmp(i)];
          assert instructions == Repaired(entries, idx);
          var outcome := Run(instructions);
          match outcome {
            case Halted(acc) => return Ok(acc);
            case Fault(pc) => return Err(TrialFault(idx, pc));
            case Looped(_) =>
          }
      }
      idx := idx + 1;
    }
    return Err(NoRepair);
  }

  // ---------------------------------------------------------------------------
  // The published example

  /** The nine-instruction program of the puzzle statement. */
  function Example(): seq<Instruction> {
    [Nop(0), Acc(1), Jmp(4), Acc(3), Jmp(-3), Acc(-99), Acc(1), Jmp(-4), Acc(6)]
  }

  /** Run unchanged, the example comes back to its second instruction with accumulator 5. */
  lemma ExampleLoops()
    ensures RunOutcome(Example()) == Looped(5) && LoopOutcome(Example()) == Looped(5)
  {
    var p := Example();
    assert StateAt(p, 0) == State(0, 0);
    assert StateAt(p, 1) == State(1, 0);
    assert StateAt(p, 2) == State(2, 1);
    assert StateAt(p, 3) == State(6, 1);
    assert StateAt(p, 4) == State(7, 2);
    assert StateAt(p, 5) == State(3, 2);
    assert StateAt(p, 6) == State(4, 5);
    assert StateAt(p, 7) == State(1, 5);
    StopRevisit(p, 7, 1);
  }

  /** Swapping the first instruction makes a one-instruction loop. */
  lemma ExampleTrialFirst()
    ensures RunOutcome(Repaired(Example(), 0)).Looped?
  {
    var q := Repaired(Example(), 0);
    assert q[0] == Jmp(0);
    assert StateAt(q, 0) == State(0, 0);
    assert StateAt(q, 1) == State(0, 0);
    StopRevisit(q, 1, 0);
  }

  /** Swapping the `jmp` at position 2 still loops, back to position 1. */
  lemma ExampleTrialSecond()
    ensures RunOutcome(Repaired(Example(), 2)).Looped?
  {
    var q := Repaired(Example(), 2);
    assert q == [Nop(0), Acc(1), Nop(4), Acc(3), Jmp(-3), Acc(-99), Acc(1), Jmp(-4), Acc(6)];
    assert StateAt(q, 0) == State(0, 0);
    assert StateAt(q, 1) == State(1, 0);
    assert StateAt(q, 2) == State(2, 1);
    assert StateAt(q, 3) == State(3, 1);
    assert StateAt(q, 4) == State(4, 4);
    assert StateAt(q, 5) == State(1, 4);
    StopRevisit(q, 5, 1);
  }

  /** Swapping the `jmp` at position 4 still loops, back to position 6. */
  lemma ExampleTrialThird()
    ensures RunOutcome(Repaired(Example(), 4)).Looped?
  {
    var q := [Nop(0), Acc(1), Jmp(4), Acc(3), Nop(-3), Acc(-99), Acc(1), Jmp(-4), Acc(6)];
    assert Repaired(Example(), 4) == q;
    ExampleThirdRun(q);
  }

  lemma ExampleThirdRun(q: seq<Instruction>)
    requires q == [Nop(0), Acc(1), Jmp(4), Acc(3), Nop(-3), Acc(-99), Acc(1), Jmp(-4), Acc(6)]
    ensures RunOutcome(q).Looped?
  {
    assert StateAt(q, 0) == State(0, 0);
    assert StateAt(q, 1) == State(1, 0);
    assert StateAt(q, 2) == State(2, 1);
    assert StateAt(q, 3) == State(6, 1);
    assert StateAt(q, 4) == State(7, 2);
    assert StateAt(q, 5) == State(3, 2);
    assert StateAt(q, 6) == State(4, 5);
    assert StateAt(q, 7) == State(5, 5);
    assert StateAt(q, 8) == State(6, -94);
    StopRevisit(q, 8, 3);
  }

  /** Swapping the `jmp` at position 7 reaches the end with accumulator 8. */
  lemma ExampleTrialFourth()
    ensures RunOutcome(Repaired(Example(), 7)) == Halted(8)
  {
    var q := [Nop(0), Acc(1), Jmp(4), Acc(3), Jmp(-3), Acc(-99), Acc(1), Nop(-4), Acc(6)];
    assert Repaired(Example(), 7) == q;
    ExampleFourthRun(q);
  }

  lemma ExampleFourthRun(q: seq<Instruction>)
    requires q == [Nop(0), Acc(1), Jmp(4), Acc(3), Jmp(-3), Acc(-99), Acc(1), Nop(-4), Acc(6)]
    ensures RunOutcome(q) == Halted(8)
  {
    assert StateAt(q, 0) == State(0, 0);
    assert StateAt(q, 1) == State(1, 0);
    assert StateAt(q, 2) == State(2, 1);
    assert StateAt(q, 3) == State(6, 1);
    assert StateAt(q, 4) == State(7, 2);
    assert StateAt(q, 5) == State(8, 2);
    assert StateAt(q, 6) == State(9, 8);
    StopOutside(q, 6);
  }

  /** The repair search on the example: the swap at position 7 is the first that does not loop. */
  lemma ExampleRepair()
    ensures IsRepairResult(Example(), Ok(8))
  {
    var p := Example();
    forall i | 0 <= i < 7 && IsCandidate(p[i])
      ensures RunOutcome(Repaired(p, i)).Looped?
    {
      if i == 0 {
        ExampleTrialFirst();
      } else if i == 2 {
        ExampleTrialSecond();
      } else {
        assert i == 4;
        ExampleTrialThird();
      }
    }
    ExampleTrialFourth();
    assert FirstNonLooping(p, 7);
  }
}
