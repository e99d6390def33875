// Day 19: Go With The Flow. The day 16 device gains six registers and an
// instruction pointer bound to one of them: the pointer is copied into that
// register before each instruction and read back after it, so instructions
// writing that register jump. A program runs until the pointer leaves it.
module Day19 {
  import opened Common
  import Day16

  // ---------------------------------------------------------------------
  // Programs

  /** An instruction named by its mnemonic, as the puzzle input writes it. */
  datatype Instruction = Instruction(opcode: Day16.Mnemonic, a: nat, b: nat, c: nat)

  /** The three operands, in the form day 16 executes them; its opcode
      number plays no part in the execution of a known mnemonic. */
  function Operands(ins: Instruction): Day16.Instruction
  {
    Day16.Instruction(0, ins.a, ins.b, ins.c)
  }

  /** A program: the register the instruction pointer is bound to, and the
      instructions. */
  datatype Program = Program(ipReg: nat, instructions: seq<Instruction>)

  /** The instruction pointer and the six registers between two steps. */
  datatype State = State(ip: nat, reg: seq<nat>)

  // ---------------------------------------------------------------------
  // One instruction

  /** `Interpreter::execute`: the pointer is written to its register, the
      instruction runs, and the pointer becomes that register plus one.
      `None` where the source indexes past the registers and panics. */
  function Effect(ipReg: nat, ip: nat, ins: Instruction, reg: seq<nat>): (r: Option<State>)
    ensures r.Some? <==> ipReg < |reg| && Day16.Addressable(ins.opcode, Operands(ins), reg)
    ensures r.Some? ==> |r.value.reg| == |reg|
  {
    if ipReg >= |reg| then None
    else
      match Day16.Operate(ins.opcode, Operands(ins), reg[ipReg := ip])
      case None => None
      case Some(after) => Some(State(after[ipReg] + 1, after))
  }

  /** How the bound register makes jumps: an instruction that does not write
      it moves to the next instruction and leaves the pointer in it; `seti`
      and `setr` into it jump absolutely, `addi` and `addr` on it jump
      relatively; no register but C and the bound one changes. */
  lemma Jumps(ipReg: nat, ip: nat, ins: Instruction, reg: seq<nat>)
    requires ipReg < |reg| && Day16.Addressable(ins.opcode, Operands(ins), reg)
    ensures Effect(ipReg, ip, ins, reg).Some?
    ensures var s := Effect(ipReg, ip, ins, reg).value;
            && (forall i | 0 <= i < |reg| && i != ins.c && i != ipReg :: s.reg[i] == reg[i])
            && (ins.c != ipReg ==> s.ip == ip + 1 && s.reg[ipReg] == ip)
            && (ins.c == ipReg && ins.opcode.SetI? ==> s.ip == ins.a + 1)
            && (ins.c == ipReg && ins.opcode.SetR? && ins.a != ipReg ==> s.ip == reg[ins.a] + 1)
            && (ins.c == ipReg && ins.opcode.AddI? && ins.a == ipReg ==> s.ip == ip + ins.b + 1)
            && (ins.c == ipReg && ins.opcode.AddR? && ins.a == ipReg && ins.b != ipReg ==>
                  s.ip == ip + reg[ins.b] + 1)
  {
  }

  // ---------------------------------------------------------------------
  // The shortcut

  /** `optimized`: what the inner loop at instruction 3 of the puzzle input
      leaves behind, in one step. `None` where register 5 is zero and the
      remainder panics. */
  function Shortcut(reg: seq<nat>): (r: Option<seq<nat>>)
    requires |reg| == 6
    ensures r.Some? <==> reg[5] != 0
    ensures r.Some? ==> |r.value| == 6
  {
    if reg[5] == 0 then None
    else
      var r0 := if reg[4] % reg[5] == 0 then reg[5] + reg[0] else reg[0];
      Some(reg[0 := r0][2 := reg[4]][1 := 0])
  }

  /** The loop the shortcut replaces, as the source's documentation writes
      it: R1 := R5 * R2; R0 grows by R5 when R1 equals R4; R2 grows by one;
      repeat while R2 does not exceed R4. The result is R0, R1 and R2 on exit. */
  function Scan(r0: nat, r2: nat, r4: nat, r5: nat): (r: (nat, nat, nat))
    decreases r4 - r2
  {
    var r0' := if r4 == r5 * r2 then r5 + r0 else r0;
    if r2 + 1 > r4 then (r0', 1, r2 + 1)
    else Scan(r0', r2 + 1, r4, r5)
  }

  /** From R2 = k the loop adds R5 once if some multiple R5 * j with
      k <= j <= R4 equals R4, and exits with R1 = 1 and R2 = R4 + 1. */
  lemma {:induction false} ScanAddsDivisor(r0: nat, k: nat, r4: nat, r5: nat)
    requires 1 <= k <= r4 && r5 >= 1
    ensures Scan(r0, k, r4, r5).0 ==
            r0 + (if exists j | k <= j <= r4 :: r5 * j == r4 then r5 else 0)
    ensures Scan(r0, k, r4, r5).1 == 1 && Scan(r0, k, r4, r5).2 == r4 + 1
    decreases r4 - k
  {
    if k + 1 <= r4 {
      var r0' := if r4 == r5 * k then r5 + r0 else r0;
      ScanAddsDivisor(r0', k + 1, r4, r5);
      if r4 == r5 * k {
        forall j | k + 1 <= j <= r4
          ensures r5 * j != r4
        {
          MultipleGrows(r5, k, j);
        }
      }
    }
  }

  /** A larger factor gives a larger product. */
  lemma MultipleGrows(r5: nat, k: nat, j: nat)
    requires r5 >= 1 && k < j
    ensures r5 * k < r5 * j
  {
    assert r5 * j == r5 * k + r5 * (j - k);
  }

  /** R4 is a multiple of R5 between 1 and R4 exactly when R5 divides R4. */
  lemma MultipleDivides(r4: nat, r5: nat)
    requires r4 >= 1 && r5 >= 1
    ensures (exists j | 1 <= j <= r4 :: r5 * j == r4) <==> r4 % r5 == 0
  {
    if r4 % r5 == 0 {
      var j := r4 / r5;
      assert r5 * j == r4;
      MultipleBound(r5, j);
    }
    if exists j | 1 <= j <= r4 :: r5 * j == r4 {
      var j :| 1 <= j <= r4 && r5 * j == r4;
      MultipleRemainder(r5, j);
    }
  }

  lemma MultipleBound(r5: nat, j: nat)
    requires r5 >= 1
    ensures j <= r5 * j
  {
    assert r5 * j == j + (r5 - 1) * j;
  }

  lemma MultipleRemainder(r5: nat, j: nat)
    requires r5 >= 1
    ensures (r5 * j) % r5 == 0
  {
    var n := r5 * j;
    var q, m := n / r5, n % r5;
    assert n == r5 * q + m;
    assert r5 * (j - q) == m by {
      assert r5 * (j - q) == r5 * j - r5 * q;
    }
    if j - q >= 1 {
      ProductAtLeast(r5, j - q);
    } else {
      assert j - q == 0 || r5 * (q - j) == -m;
      if j - q != 0 {
        ProductAtLeast(r5, q - j);
      }
    }
  }

  /** Entered with R2 = 1 and R4, R5 at least 1, as the puzzle input enters
      it, the shortcut leaves register 0 as the loop does, and registers 3,
      4 and 5 untouched; it leaves 0 in R1 and R4 in R2 where the loop leaves
      1 and R4 + 1. */
  lemma ShortcutMatchesScan(reg: seq<nat>)
    requires |reg| == 6 && reg[2] == 1 && reg[4] >= 1 && reg[5] >= 1
    ensures Shortcut(reg).Some?
    ensures var scan := Scan(reg[0], 1, reg[4], reg[5]);
            var r := Shortcut(reg).value;
            && r[0] == scan.0
            && r[3..] == reg[3..]
            && r[1] == 0 && scan.1 == 1
            && r[2] == reg[4] && scan.2 == reg[4] + 1
  {
    ScanAddsDivisor(reg[0], 1, reg[4], reg[5]);
    MultipleDivides(reg[4], reg[5]);
  }

  /** `optimized`, changing the registers in place and returning the next
      instruction pointer; `ok` is false where the source panics. */
  method Optimize(reg: array<nat>) returns (ok: bool, next: nat)
    requires reg.Length == 6
    modifies reg
    ensures ok == (old(reg[5]) != 0)
    ensures ok ==> next == 12 && reg[..] == Shortcut(old(reg[..])).value
    ensures !ok ==> reg[..] == old(reg[..])
  {
    if reg[5] == 0 {
      return false, 0;
    }
    if reg[4] % reg[5] == 0 {
      reg[0] := reg[5] + reg[0];
    }
    reg[2] := reg[4];
    reg[1] := 0;
    return true, 12;
  }

  // ---------------------------------------------------------------------
  // Running a program

  /** One step of `run` on an instruction pointer inside the program: the
      shortcut at instruction 3, otherwise the instruction there. */
  function Next(program: seq<Instruction>, ipReg: nat, s: State): (r: Option<State>)
    requires s.ip < |program| && |s.reg| == 6
    ensures r.Some? ==> |r.value.reg| == 6
  {
    if s.ip == 3 then
      match Shortcut(s.reg)
      case None => None
      case Some(reg) => Some(State(12, reg))
    else Effect(ipReg, s.ip, program[s.ip], s.reg)
  }

  /** How a run ends: the pointer left the program, a step panicked, or it
      is still running when the steps counted run out. */
  datatype Ending = Halted(state: State) | Panicked | Running(state: State)

  /** At most `n` steps of `run` from `s`. */
  function RunFor(n: nat, program: seq<Instruction>, ipReg: nat, s: State): (e: Ending)
    requires |s.reg| == 6
    ensures e.Halted? ==> e.state.ip >= |program| && |e.state.reg| == 6
  {
    if s.ip >= |program| then Halted(s)
    else if n == 0 then Running(s)
    else
      match Next(program, ipReg, s)
      case None => Panicked
      case Some(t) => RunFor(n - 1, program, ipReg, t)
  }

  /** The run from `s` halts or panics after finitely many steps. */
  ghost predicate Stops(program: seq<Instruction>, ipReg: nat, s: State)
  {
    |s.reg| == 6 && exists n: nat :: !RunFor(n, program, ipReg, s).Running?
  }

  /** How a run that stops ends. */
  ghost function Final(program: seq<Instruction>, ipReg: nat, s: State): Ending
    requires Stops(program, ipReg, s)
  {
    var n: nat :| !RunFor(n, program, ipReg, s).Running?;
    RunFor(n, program, ipReg, s)
  }

  /** Once a run has stopped, more steps change nothing. */
  lemma {:induction false} RunForStable(n: nat, m: nat, program: seq<Instruction>, ipReg: nat, s: State)
    requires |s.reg| == 6 && n <= m && !RunFor(n, program, ipReg, s).Running?
    ensures RunFor(m, program, ipReg, s) == RunFor(n, program, ipReg, s)
    decreases n
  {
    if s.ip < |program| {
      match Next(program, ipReg, s)
      case None =>
      case Some(t) => RunForStable(n - 1, m - 1, program, ipReg, t);
    }
  }

  /** Any number of steps after which the run has stopped gives its ending. */
  lemma FinalAfter(n: nat, program: seq<Instruction>, ipReg: nat, s: State)
    requires |s.reg| == 6 && !RunFor(n, program, ipReg, s).Running?
    ensures Stops(program, ipReg, s)
    ensures Final(program, ipReg, s) == RunFor(n, program, ipReg, s)
  {
    var k: nat :| !RunFor(k, program, ipReg, s).Running? && Final(program, ipReg, s) == RunFor(k, program, ipReg, s);
    if k <= n {
      RunForStable(k, n, program, ipReg, s);
    } else {
      RunForStable(n, k, program, ipReg, s);
    }
  }

  /** `Interpreter`: the bound register and the instruction pointer. */
  class Interpreter {
    var ipReg: nat
    var ip: nat

    /** `Interpreter::new`: the pointer starts at 0. */
    constructor (ipReg: nat)
      ensures this.ipReg == ipReg && ip == 0
    {
      this.ipReg := ipReg;
      ip := 0;
    }

    /** `Interpreter::execute`, on registers changed in place; `ok` is false
        where the source panics. */
    method Execute(ins: Instruction, reg: array<nat>) returns (ok: bool)
      modifies `ip, reg
      ensures ok <==> Effect(ipReg, old(ip), ins, old(reg[..])).Some?
      ensures ok ==> State(ip, reg[..]) == Effect(ipReg, old(ip), ins, old(reg[..])).value
    {
      if ipReg >= reg.Length {
        return false;
      }
      reg[ipReg] := ip;
      ok := Day16.ExecuteMnemonic(ins.opcode, Operands(ins), reg);
      if ok {
        ip := reg[ipReg] + 1;
      }
    }

    /** `Interpreter::run`: steps until the pointer leaves the program.
        `ok` is false where a step panics. */
    method Run(program: seq<Instruction>, reg: array<nat>) returns (ok: bool)
      requires reg.Length == 6 && Stops(program, ipReg, State(ip, reg[..]))
      modifies `ip, reg
      ensures Final(program, ipReg, old(State(ip, reg[..]))) ==
              if ok then Halted(State(ip, reg[..])) else Panicked
    {
      ghost var start := State(ip, reg[..]);
      ghost var n: nat :| !RunFor(n, program, ipReg, start).Running?;
      FinalAfter(n, program, ipReg, start);
      ghost var fuel := n;
      while ip < |program|
        invariant !RunFor(fuel, program, ipReg, State(ip, reg[..])).Running?
        invariant RunFor(fuel, program, ipReg, State(ip, reg[..])) == Final(program, ipReg, start)
        decreases fuel
      {
        ghost var s := State(ip, reg[..]);
        if ip == 3 {
          var next;
          ok, next := Optimize(reg);
          if !ok {
            return;
          }
          ip := next;
        } else {
          ok := Execute(program[ip], reg);
          if !ok {
            return;
          }
        }
        assert Next(program, ipReg, s) == Some(State(ip, reg[..]));
        fuel := fuel - 1;
      }
      ok := true;
    }
  }

  /** The result a run leaves in register 0; `None` where it panics. */
  function Register0(e: Ending): Option<nat>
  {
    if e.Halted? && |e.state.reg| == 6 then Some(e.state.reg[0]) else None
  }

  /** `run_background_process`: the value in register 0 after running the
      program from all-zero registers. */
  method RunBackgroundProcess(program: Program) returns (r: Option<nat>)
    requires Stops(program.instructions, program.ipReg, State(0, [0, 0, 0, 0, 0, 0]))
    ensures r == Register0(Final(program.instructions, program.ipReg, State(0, [0, 0, 0, 0, 0, 0])))
  {
    var interpreter := new Interpreter(program.ipReg);
    var reg := new nat[6](_ => 0);
    assert reg[..] == [0, 0, 0, 0, 0, 0];
    var ok := interpreter.Run(program.instructions, reg);
    r := if ok then Some(reg[0]) else None;
  }

  /** `run_background_process_2`: the same with register 0 starting at 1. */
  method RunBackgroundProcess2(program: Program) returns (r: Option<nat>)
    requires Stops(program.instructions, program.ipReg, State(0, [1, 0, 0, 0, 0, 0]))
    ensures r == Register0(Final(program.instructions, program.ipReg, State(0, [1, 0, 0, 0, 0, 0])))
  {
    var interpreter := new Interpreter(program.ipReg);
    var reg := new nat[6](_ => 0);
    reg[0] := 1;
    assert reg[..] == [1, 0, 0, 0, 0, 0];
    var ok := interpreter.Run(program.instructions, reg);
    r := if ok then Some(reg[0]) else None;
  }

  // ---------------------------------------------------------------------
  // Reading and writing programs

  /** A line of the puzzle input: a binding of the pointer, or an instruction. */
  datatype Line = Bind(ipReg: nat) | Code(ins: Instruction)

  /** One line of `parse`. A line starting with "#ip" binds the pointer to
      the number after its fourth character; any other line is a four-letter
      mnemonic, one skipped character and three space-separated operands.
      Slicing a line that is too short panics in the source and is an error
      here, as is a missing operand. */
  function ParseLine(line: string): (r: Result<Line>)
    ensures r.Ok? && r.value.Bind? ==> r.value.ipReg <= U64_MAX
    ensures r.Ok? && r.value.Code? ==>
              |line| >= 5 && Day16.Name(r.value.ins.opcode) == line[..4]
              && r.value.ins.a <= U64_MAX && r.value.ins.b <= U64_MAX && r.value.ins.c <= U64_MAX
  {
    if |line| >= 3 && line[..3] == "#ip" then
      if |line| < 4 then Err("byte index 4 is out of bounds")
      else
        match ParseInt(Trim(line[4..]), 0, U64_MAX)
        case None => Err("invalid digit found in string")
        case Some(v) => Ok(Bind(v))
    else if |line| < 4 then Err("byte index 4 is out of bounds")
    else
      match Day16.ParseMnemonic(line[..4])
      case Err(e) => Err(e)
      case Ok(m) =>
        if |line| < 5 then Err("byte index 5 is out of bounds")
        else
          match ParseOperands(line[5..])
          case Err(e) => Err(e)
          case Ok((a, b, c)) => Ok(Code(Instruction(m, a, b, c)))
  }

  /** The operands of an instruction line: the first three space-separated
      fields, trimmed and read as `u64`; further fields are ignored. */
  function ParseOperands(text: string): (r: Result<(nat, nat, nat)>)
    ensures r.Ok? ==> r.value.0 <= U64_MAX && r.value.1 <= U64_MAX && r.value.2 <= U64_MAX
  {
    var fields := Split(text, ' ');
    var a := ParseInt(Trim(fields[0]), 0, U64_MAX);
    if a.None? then Err("invalid digit found in string")
    else if |fields| < 2 then Err("missing operand")
    else
      var b := ParseInt(Trim(fields[1]), 0, U64_MAX);
      if b.None? then Err("invalid digit found in string")
      else if |fields| < 3 then Err("missing operand")
      else
        var c := ParseInt(Trim(fields[2]), 0, U64_MAX);
        if c.None? then Err("invalid digit found in string")
        else Ok((a.value, b.value, c.value))
  }

  /** `parse` on the input's lines: the pointer is bound by the last "#ip"
      line, to register 6 when there is none, and the instructions are the
      other lines in order; the first bad line is the error. */
  function ParseLines(lines: seq<string>): (r: Result<Program>)
  {
    if lines == [] then Ok(Program(6, []))
    else
      match ParseLines(lines[..|lines| - 1])
      case Err(e) => Err(e)
      case Ok(p) =>
        match ParseLine(lines[|lines| - 1])
        case Err(e) => Err(e)
        case Ok(Bind(ipReg)) => Ok(p.(ipReg := ipReg))
        case Ok(Code(ins)) => Ok(p.(instructions := p.instructions + [ins]))
  }

  /** `parse`, reading line by line into a growing instruction list. */
  method Parse(input: string) returns (r: Result<Program>)
    ensures r == ParseLines(Lines(input))
  {
    var lines := Lines(input);
    var ipReg := 6;
    var instructions: seq<Instruction> := [];
    var i := 0;
    while i < |lines|
      invariant i <= |lines|
      invariant ParseLines(lines[..i]) == Ok(Program(ipReg, instructions))
    {
      assert lines[..i + 1][..i] == lines[..i];
      var line := ParseLine(lines[i]);
      match line {
        case Err(e) =>
          ParseLinesFails(lines, i + 1);
          return Err(e);
        case Ok(Bind(v)) =>
          ipReg := v;
        case Ok(Code(ins)) =>
          instructions := instructions + [ins];
      }
      i := i + 1;
    }
    assert lines[..i] == lines;
    return Ok(Program(ipReg, instructions));
  }

  /** A bad line makes every longer input bad with the same error. */
  lemma {:induction false} ParseLinesFails(lines: seq<string>, k: nat)
    requires k <= |lines| && ParseLines(lines[..k]).Err?
    ensures ParseLines(lines) == ParseLines(lines[..k])
    decreases |lines| - k
  {
    if k < |lines| {
      assert lines[..k + 1][..k] == lines[..k];
      ParseLinesFails(lines, k + 1);
    } else {
      assert lines[..k] == lines;
    }
  }

  /** `Display for Instruction`: mnemonic and operands separated by spaces. */
  function ShowInstruction(ins: Instruction): string
  {
    Day16.Name(ins.opcode) + " " + ShowNat(ins.a) + " " + ShowNat(ins.b) + " " + ShowNat(ins.c)
  }

  /** The lines `Display for Program` writes: the binding, then each instruction. */
  function ProgramLines(p: Program): seq<string>
  {
    ["#ip " + ShowNat(p.ipReg)] + seq(|p.instructions|, k requires 0 <= k < |p.instructions| => ShowInstruction(p.instructions[k]))
  }

  /** `Display for Program`. */
  function Show(p: Program): string
  {
    Terminated(ProgramLines(p))
  }

  /** The fields of a program that fit the source's `u64`. */
  predicate InRange(p: Program)
  {
    p.ipReg <= U64_MAX
    && forall ins <- p.instructions :: ins.a <= U64_MAX && ins.b <= U64_MAX && ins.c <= U64_MAX
  }

  /** Every program in range is read back from its text. */
  lemma ProgramRoundTrip(p: Program)
    requires InRange(p)
    ensures ParseLines(Lines(Show(p))) == Ok(p)
  {
    var lines := ProgramLines(p);
    TerminatedJoin(lines);
    forall l <- lines
      ensures '\n' !in l && (l == [] || l[|l| - 1] != '\r')
    {
      PlainProgramLine(p, l);
    }
    LinesTerminated(lines);
    ParseProgramLines(p.ipReg, p.instructions);
  }

  /** No line of a program's text holds a line break. */
  lemma PlainProgramLine(p: Program, l: string)
    requires l in ProgramLines(p)
    ensures '\n' !in l && (l == [] || l[|l| - 1] != '\r')
  {
    var lines := ProgramLines(p);
    var k :| 0 <= k < |lines| && lines[k] == l;
    if k == 0 {
      PlainBinding(p.ipReg);
    } else {
      PlainInstruction(p.instructions[k - 1]);
    }
  }

  lemma PlainBinding(v: nat)
    ensures var l := "#ip " + ShowNat(v);
            '\n' !in l && l[|l| - 1] != '\r'
  {
    DigitsPlain(ShowNat(v));
  }

  lemma PlainInstruction(ins: Instruction)
    ensures var l := ShowInstruction(ins);
            '\n' !in l && l[|l| - 1] != '\r'
  {
    DigitsPlain(ShowNat(ins.a));
    DigitsPlain(ShowNat(ins.b));
    DigitsPlain(ShowNat(ins.c));
    assert forall c <- Day16.Name(ins.opcode) :: IsAsciiLower(c);
  }

  lemma DigitsPlain(d: string)
    requires AllDigits(d) && d != []
    ensures '\n' !in d && '\r' !in d && d[|d| - 1] in d
  {
  }

  /** The binding line is read as the binding. */
  lemma ReadBinding(v: nat)
    requires v <= U64_MAX
    ensures ParseLine("#ip " + ShowNat(v)) == Ok(Bind(v))
  {
    var line := "#ip " + ShowNat(v);
    assert line[..3] == "#ip";
    assert line[4..] == ShowNat(v);
    Day16.ReadField(v, U64_MAX);
  }

  /** An instruction line in range is read as the instruction. */
  lemma ReadInstruction(ins: Instruction)
    requires ins.a <= U64_MAX && ins.b <= U64_MAX && ins.c <= U64_MAX
    ensures ParseLine(ShowInstruction(ins)) == Ok(Code(ins))
  {
    var name := Day16.Name(ins.opcode);
    var a, b, c := ShowNat(ins.a), ShowNat(ins.b), ShowNat(ins.c);
    var rest := Join([a, b, c], ' ');
    Day16.JoinThree(a, b, c, ' ');
    Associates(name + " " + a + " " + b, " ", c);
    Associates(name + " " + a, " " + b, " " + c);
    Associates(name, " ", a + " " + b + " " + c);
    assert ShowInstruction(ins) == name + " " + rest;
    Day16.ParseName(ins.opcode);
    assert name[0] in name;
    ReadOperands(ins.a, ins.b, ins.c);
    CodeLine(name, rest, ins.opcode);
  }

  /** A line of a mnemonic's name, a space and its operands. */
  lemma CodeLine(name: string, rest: string, m: Day16.Mnemonic)
    requires |name| == 4 && IsAsciiLower(name[0]) && Day16.ParseMnemonic(name) == Ok(m)
    ensures ParseLine(name + " " + rest) ==
            match ParseOperands(rest)
            case Err(e) => Err(e)
            case Ok((a, b, c)) => Ok(Code(Instruction(m, a, b, c)))
  {
    var line := name + " " + rest;
    assert line[..4] == name && line[5..] == rest;
    assert line[0] == name[0];
    assert line[..3] != "#ip" by {
      assert line[..3][0] == line[0];
    }
  }

  /** Operands written in decimal are read back. */
  lemma ReadOperands(a: nat, b: nat, c: nat)
    requires a <= U64_MAX && b <= U64_MAX && c <= U64_MAX
    ensures ParseOperands(Join([ShowNat(a), ShowNat(b), ShowNat(c)], ' ')) == Ok((a, b, c))
  {
    var fields := [ShowNat(a), ShowNat(b), ShowNat(c)];
    forall f <- fields
      ensures ' ' !in f
    {
      assert ' ' in f ==> !IsDigit(' ');
    }
    SplitJoin(fields, ' ');
    Day16.ReadField(a, U64_MAX);
    Day16.ReadField(b, U64_MAX);
    Day16.ReadField(c, U64_MAX);
  }

  /** The lines of a program are read as the program. */
  lemma {:induction false} ParseProgramLines(ipReg: nat, instructions: seq<Instruction>)
    requires InRange(Program(ipReg, instructions))
    ensures ParseLines(ProgramLines(Program(ipReg, instructions))) == Ok(Program(ipReg, instructions))
    decreases |instructions|
  {
    if instructions == [] {
      var lines := ProgramLines(Program(ipReg, instructions));
      assert lines == [] + ["#ip " + ShowNat(ipReg)];
      ReadBinding(ipReg);
      ParseLinesSnoc([], "#ip " + ShowNat(ipReg));
    } else {
      var init := instructions[..|instructions| - 1];
      var last := instructions[|instructions| - 1];
      assert last in instructions;
      assert instructions == init + [last];
      ParseProgramLines(ipReg, init);
      ProgramLinesSnoc(ipReg, init, last);
      ReadInstruction(last);
      ParseLinesSnoc(ProgramLines(Program(ipReg, init)), ShowInstruction(last));
    }
  }

  /** One more line read after the others. */
  lemma ParseLinesSnoc(lines: seq<string>, l: string)
    ensures ParseLines(lines + [l]) ==
            match ParseLines(lines)
            case Err(e) => Err(e)
            case Ok(p) =>
              match ParseLine(l)
              case Err(e) => Err(e)
              case Ok(Bind(ipReg)) => Ok(p.(ipReg := ipReg))
              case Ok(Code(ins)) => Ok(p.(instructions := p.instructions + [ins]))
  {
    assert (lines + [l])[..|lines|] == lines;
  }

  /** One more instruction writes one more line. */
  lemma ProgramLinesSnoc(ipReg: nat, init: seq<Instruction>, last: Instruction)
    ensures ProgramLines(Program(ipReg, init + [last])) ==
            ProgramLines(Program(ipReg, init)) + [ShowInstruction(last)]
  {
  }

  // ---------------------------------------------------------------------
  // The worked example

  /** The example program of the puzzle, bound to register 0. */
  const Example1 := Program(0, [
    Instruction(Day16.SetI, 5, 0, 1),
    Instruction(Day16.SetI, 6, 0, 2),
    Instruction(Day16.AddI, 0, 1, 0),
    Instruction(Day16.AddR, 1, 2, 3),
    Instruction(Day16.SetR, 1, 0, 0),
    Instruction(Day16.SetI, 8, 0, 4),
    Instruction(Day16.SetI, 9, 0, 5)])

  /** Its text, line by line. */
  const Example1Lines := ["#ip 0", "seti 5 0 1", "seti 6 0 2", "addi 0 1 0",
                          "addr 1 2 3", "setr 1 0 0", "seti 8 0 4", "seti 9 0 5"]

  /** The example's text. */
  const Example1Input := "#ip 0\n" + ("seti 5 0 1\n" + ("seti 6 0 2\n" + ("addi 0 1 0\n"
                         + ("addr 1 2 3\n" + ("setr 1 0 0\n" + ("seti 8 0 4\n" + ("seti 9 0 5\n")))))))

  /** The example program is written as the example's text. */
  lemma Example1Shown()
    ensures Show(Example1) == Example1Input
  {
    Example1LinesShown();
    var ls := Example1Lines;
    var t7 := "seti 9 0 5\n";
    var t6 := "seti 8 0 4\n" + t7;
    var t5 := "setr 1 0 0\n" + t6;
    var t4 := "addr 1 2 3\n" + t5;
    var t3 := "addi 0 1 0\n" + t4;
    var t2 := "seti 6 0 2\n" + t3;
    var t1 := "seti 5 0 1\n" + t2;
    var t0 := "#ip 0\n" + t1;
    TerminatedStep(ls, 7, "seti 9 0 5\n", "");
    TerminatedStep(ls, 6, "seti 8 0 4\n", t7);
    TerminatedStep(ls, 5, "setr 1 0 0\n", t6);
    TerminatedStep(ls, 4, "addr 1 2 3\n", t5);
    TerminatedStep(ls, 3, "addi 0 1 0\n", t4);
    TerminatedStep(ls, 2, "seti 6 0 2\n", t3);
    TerminatedStep(ls, 1, "seti 5 0 1\n", t2);
    TerminatedStep(ls, 0, "#ip 0\n", t1);
    assert ls[0..] == ls;
  }

  /** Terminating the lines from `k` on, knowing the rest. */
  lemma TerminatedStep(ls: seq<string>, k: nat, head: string, rest: string)
    requires k < |ls| && ls[k] + "\n" == head
    requires k + 1 == |ls| ==> rest == ""
    requires k + 1 < |ls| ==> Terminated(ls[k + 1..]) == rest
    ensures Terminated(ls[k..]) == head + rest
  {
    assert ls[k..][1..] == ls[k + 1..];
    if k + 1 == |ls| {
      assert ls[k + 1..] == [];
    }
  }

  lemma Example1LinesShown()
    ensures ProgramLines(Example1) == Example1Lines
  {
    var code := Example1.instructions;
    var lines := ProgramLines(Example1);
    assert "#ip " + ShowNat(0) == "#ip 0";
    ShownAs(code[0], "seti 5 0 1");
    ShownAs(code[1], "seti 6 0 2");
    ShownAs(code[2], "addi 0 1 0");
    ShownAs(code[3], "addr 1 2 3");
    ShownAs(code[4], "setr 1 0 0");
    ShownAs(code[5], "seti 8 0 4");
    ShownAs(code[6], "seti 9 0 5");
    assert forall k | 1 <= k < 8 :: lines[k] == ShowInstruction(code[k - 1]);
    assert forall k | 0 <= k < 8 :: lines[k] == Example1Lines[k];
  }

  /** An instruction with one-digit operands, written out. */
  lemma ShownAs(ins: Instruction, text: string)
    requires ins.a < 10 && ins.b < 10 && ins.c < 10
    requires text == Day16.Name(ins.opcode) + " " + [DigitChar(ins.a)] + " " + [DigitChar(ins.b)]
                     + " " + [DigitChar(ins.c)]
    ensures ShowInstruction(ins) == text
  {
  }

  /** `parse` reads the example's text as the example program, which
      displays back as that text. */
  lemma Example1Parsed()
    ensures ParseLines(Lines(Example1Input)) == Ok(Example1)
    ensures Show(Example1) == Example1Input
  {
    Example1InRange();
    Example1Shown();
    ReadShown(Example1, Example1Input);
  }

  lemma Example1InRange()
    ensures InRange(Example1)
  {
  }

  /** The text a program in range is written as is read as that program. */
  lemma ReadShown(p: Program, text: string)
    requires InRange(p) && Show(p) == text
    ensures ParseLines(Lines(text)) == Ok(p)
  {
    ProgramRoundTrip(p);
  }

  /** An instruction storing `v` in register C, from state `s` to `t`. */
  lemma EffectIs(ipReg: nat, ins: Instruction, s: State, v: nat, t: State)
    requires ipReg < |s.reg| && Day16.Addressable(ins.opcode, Operands(ins), s.reg)
    requires Day16.Value(ins.opcode, Operands(ins), s.reg[ipReg := s.ip]) == v
    requires t.reg == s.reg[ipReg := s.ip][ins.c := v] && t.ip == t.reg[ipReg] + 1
    ensures Effect(ipReg, s.ip, ins, s.reg) == Some(t)
  {
  }

  /** The example halts after five instructions with registers
      [6, 5, 6, 0, 0, 9], leaving 6 in register 0. */
  lemma Example1Runs()
    ensures Stops(Example1.instructions, 0, State(0, [0, 0, 0, 0, 0, 0]))
    ensures Final(Example1.instructions, 0, State(0, [0, 0, 0, 0, 0, 0])) ==
            Halted(State(7, [6, 5, 6, 0, 0, 9]))
    ensures Register0(Final(Example1.instructions, 0, State(0, [0, 0, 0, 0, 0, 0]))) == Some(6)
  {
    var p := Example1.instructions;
    var s0 := State(0, [0, 0, 0, 0, 0, 0]);
    var s1 := State(1, [0, 5, 0, 0, 0, 0]);
    var s2 := State(2, [1, 5, 6, 0, 0, 0]);
    var s3 := State(4, [3, 5, 6, 0, 0, 0]);
    var s4 := State(6, [5, 5, 6, 0, 0, 0]);
    var s5 := State(7, [6, 5, 6, 0, 0, 9]);
    EffectIs(0, p[0], s0, 5, s1);
    EffectIs(0, p[1], s1, 6, s2);
    EffectIs(0, p[2], s2, 3, s3);
    EffectIs(0, p[4], s3, 5, s4);
    EffectIs(0, p[6], s4, 9, s5);
    assert RunFor(0, p, 0, s5) == Halted(s5);
    assert RunFor(1, p, 0, s4) == Halted(s5);
    assert RunFor(2, p, 0, s3) == Halted(s5);
    assert RunFor(3, p, 0, s2) == Halted(s5);
    assert RunFor(4, p, 0, s1) == Halted(s5);
    assert RunFor(5, p, 0, s0) == Halted(s5);
    FinalAfter(5, p, 0, s0);
  }
}
