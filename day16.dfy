// Day 16: Chronal Classification. A four-register device has sixteen
// opcodes whose numbers are unknown; samples of registers before and after
// one instruction narrow down which numbers can mean which operation, and
// repeatedly fixing the opcodes with a single candidate decodes them all.
module Day16 {
  import opened Common

  // ---------------------------------------------------------------------
  // Mnemonics

  datatype Mnemonic =
    | AddR | AddI | MulR | MulI | BanR | BanI | BorR | BorI
    | SetR | SetI | GtIR | GtRI | GtRR | EqIR | EqRI | EqRR

  /** `INSTRUCTION_SET`: every mnemonic, in the order samples try them. */
  const InstructionSet: seq<Mnemonic> :=
    [AddR, AddI, MulR, MulI, BanR, BanI, BorR, BorI, SetR, SetI, GtIR, GtRI, GtRR, EqIR, EqRI, EqRR]

  /** The table lists every mnemonic exactly once. */
  lemma InstructionSetComplete(m: Mnemonic)
    ensures m in InstructionSet
    ensures |InstructionSet| == 16
    ensures forall i, j | 0 <= i < j < |InstructionSet| :: InstructionSet[i] != InstructionSet[j]
  {
  }

  /** `Display`: the four-letter lower-case name. */
  function Name(m: Mnemonic): (s: string)
    ensures |s| == 4 && forall c <- s :: IsAsciiLower(c)
  {
    match m
    case AddR => "addr"
    case AddI => "addi"
    case MulR => "mulr"
    case MulI => "muli"
    case BanR => "banr"
    case BanI => "bani"
    case BorR => "borr"
    case BorI => "bori"
    case SetR => "setr"
    case SetI => "seti"
    case GtIR => "gtir"
    case GtRI => "gtri"
    case GtRR => "gtrr"
    case EqIR => "eqir"
    case EqRI => "eqri"
    case EqRR => "eqrr"
  }

  /** `FromStr`: the mnemonic with that name, an error for anything else. */
  function ParseMnemonic(s: string): (r: Result<Mnemonic>)
    ensures r.Ok? ==> Name(r.value) == s
  {
    if s == "addr" then Ok(AddR)
    else if s == "addi" then Ok(AddI)
    else if s == "mulr" then Ok(MulR)
    else if s == "muli" then Ok(MulI)
    else if s == "banr" then Ok(BanR)
    else if s == "bani" then Ok(BanI)
    else if s == "borr" then Ok(BorR)
    else if s == "bori" then Ok(BorI)
    else if s == "setr" then Ok(SetR)
    else if s == "seti" then Ok(SetI)
    else if s == "gtir" then Ok(GtIR)
    else if s == "gtri" then Ok(GtRI)
    else if s == "gtrr" then Ok(GtRR)
    else if s == "eqir" then Ok(EqIR)
    else if s == "eqri" then Ok(EqRI)
    else if s == "eqrr" then Ok(EqRR)
    else Err("unknown opcode")
  }

  /** Parsing a displayed mnemonic gives it back. */
  lemma ParseName(m: Mnemonic)
    ensures ParseMnemonic(Name(m)) == Ok(m)
  {
    match m
    case AddR => case AddI => case MulR => case MulI =>
    case BanR => case BanI => case BorR => case BorI =>
    case SetR => case SetI => case GtIR => case GtRI =>
    case GtRR => case EqIR => case EqRI => case EqRR =>
  }

  /** Parsing succeeds exactly on the sixteen names, and displays back to its input. */
  lemma NameParse(s: string)
    ensures ParseMnemonic(s).Ok? <==> exists m :: Name(m) == s
    ensures ParseMnemonic(s).Ok? ==> Name(ParseMnemonic(s).value) == s
  {
    if exists m :: Name(m) == s {
      var m :| Name(m) == s;
      ParseName(m);
    } else if ParseMnemonic(s).Ok? {
      assert Name(ParseMnemonic(s).value) == s;
    }
  }

  // ---------------------------------------------------------------------
  // Bitwise operations on unbounded naturals

  function BitAnd(x: nat, y: nat): (r: nat)
    ensures r <= x && r <= y
  {
    if x == 0 || y == 0 then 0
    else 2 * BitAnd(x / 2, y / 2) + (if x % 2 == 1 && y % 2 == 1 then 1 else 0)
  }

  function BitOr(x: nat, y: nat): (r: nat)
    ensures x <= r && y <= r && r <= x + y
  {
    if x == 0 then y
    else if y == 0 then x
    else 2 * BitOr(x / 2, y / 2) + (if x % 2 == 1 || y % 2 == 1 then 1 else 0)
  }

  /** And-ing or or-ing a value with itself gives it back. */
  lemma {:induction false} BitIdempotent(x: nat)
    ensures BitAnd(x, x) == x && BitOr(x, x) == x
  {
    if x != 0 {
      BitIdempotent(x / 2);
    }
  }

  // ---------------------------------------------------------------------
  // Instructions and their effect

  /** An instruction: opcode number and the three operands A, B and C. */
  datatype Instruction = Instruction(opcode: nat, a: nat, b: nat, c: nat)

  /** Whether the operation reads operand A as a register number (otherwise
      as a value, or not at all). */
  predicate ReadsRegisterA(m: Mnemonic)
  {
    !(m.SetI? || m.GtIR? || m.EqIR?)
  }

  /** Whether the operation reads operand B as a register number. */
  predicate ReadsRegisterB(m: Mnemonic)
  {
    m.AddR? || m.MulR? || m.BanR? || m.BorR? || m.GtRR? || m.EqRR? || m.GtIR? || m.EqIR?
  }

  /** The register numbers the operation indexes all exist. */
  predicate Addressable(m: Mnemonic, ins: Instruction, reg: seq<nat>)
  {
    ins.c < |reg| && (ReadsRegisterA(m) ==> ins.a < |reg|) && (ReadsRegisterB(m) ==> ins.b < |reg|)
  }

  /** The value the operation stores into register C, as the device manual defines it. */
  function Value(m: Mnemonic, ins: Instruction, reg: seq<nat>): nat
    requires Addressable(m, ins, reg)
  {
    match m
    case AddR => reg[ins.a] + reg[ins.b]
    case AddI => reg[ins.a] + ins.b
    case MulR => reg[ins.a] * reg[ins.b]
    case MulI => reg[ins.a] * ins.b
    case BanR => BitAnd(reg[ins.a], reg[ins.b])
    case BanI => BitAnd(reg[ins.a], ins.b)
    case BorR => BitOr(reg[ins.a], reg[ins.b])
    case BorI => BitOr(reg[ins.a], ins.b)
    case SetR => reg[ins.a]
    case SetI => ins.a
    case GtIR => if ins.a > reg[ins.b] then 1 else 0
    case GtRI => if reg[ins.a] > ins.b then 1 else 0
    case GtRR => if reg[ins.a] > reg[ins.b] then 1 else 0
    case EqIR => if ins.a == reg[ins.b] then 1 else 0
    case EqRI => if reg[ins.a] == ins.b then 1 else 0
    case EqRR => if reg[ins.a] == reg[ins.b] then 1 else 0
  }

  /** `execute_mnemonic` on a register file of any width: `None` where the
      source indexes past the registers and panics. Only register C changes. */
  function Operate(m: Mnemonic, ins: Instruction, reg: seq<nat>): (r: Option<seq<nat>>)
    ensures r.Some? <==> Addressable(m, ins, reg)
    ensures r.Some? ==> |r.value| == |reg| && r.value[ins.c] == Value(m, ins, reg)
    ensures r.Some? ==> forall i | 0 <= i < |reg| && i != ins.c :: r.value[i] == reg[i]
  {
    if Addressable(m, ins, reg) then Some(reg[ins.c := Value(m, ins, reg)]) else None
  }

  /** The comparisons store a flag, 1 exactly when the comparison holds. */
  lemma ComparisonsStoreFlags(m: Mnemonic, ins: Instruction, reg: seq<nat>)
    requires Addressable(m, ins, reg) && (m.GtIR? || m.GtRI? || m.GtRR? || m.EqIR? || m.EqRI? || m.EqRR?)
    ensures Value(m, ins, reg) <= 1
    ensures m.GtRR? ==> (Value(m, ins, reg) == 1 <==> reg[ins.a] > reg[ins.b])
    ensures m.EqRR? ==> (Value(m, ins, reg) == 1 <==> reg[ins.a] == reg[ins.b])
  {
  }

  /** `execute_mnemonic`, changing the registers in place. `ok` is false
      where the source panics; the registers are then untouched. */
  method ExecuteMnemonic(m: Mnemonic, ins: Instruction, reg: array<nat>) returns (ok: bool)
    modifies reg
    ensures ok == Addressable(m, ins, old(reg[..]))
    ensures ok ==> reg[..] == Operate(m, ins, old(reg[..])).value
    ensures !ok ==> reg[..] == old(reg[..])
  {
    if !Addressable(m, ins, reg[..]) {
      return false;
    }
    reg[ins.c] := Value(m, ins, reg[..]);
    return true;
  }

  // ---------------------------------------------------------------------
  // Samples

  /** A captured sample: registers before, the instruction, registers after. */
  datatype Sample = Sample(before: seq<nat>, instruction: Instruction, after: seq<nat>)

  /** Whether running `m` on the sample's registers gives its recorded result. */
  predicate BehavesLike(sample: Sample, m: Mnemonic)
  {
    Operate(m, sample.instruction, sample.before) == Some(sample.after)
  }

  /** The entries of `ms` the sample behaves like, in the order of `ms`. */
  function Matching(ms: seq<Mnemonic>, sample: Sample): (r: seq<Mnemonic>)
    ensures |r| <= |ms|
  {
    if ms == [] then []
    else
      var m := ms[|ms| - 1];
      Matching(ms[..|ms| - 1], sample) + (if BehavesLike(sample, m) then [m] else [])
  }

  /** The matches are exactly the entries of `ms` the sample behaves like. */
  lemma {:induction false} MatchingExactly(ms: seq<Mnemonic>, sample: Sample)
    ensures forall m :: m in Matching(ms, sample) <==> m in ms && BehavesLike(sample, m)
  {
    if ms != [] {
      var init := ms[..|ms| - 1];
      MatchingExactly(init, sample);
      assert ms == init + [ms[|ms| - 1]];
    }
  }

  /** `possible_mnemonics`: the table entries the sample behaves like; `None`
      where some entry's execution panics. */
  function Possible(sample: Sample): (r: Option<seq<Mnemonic>>)
    ensures r.Some? ==> forall m <- r.value :: BehavesLike(sample, m)
  {
    if forall m :: Addressable(m, sample.instruction, sample.before)
    then MatchingExactly(InstructionSet, sample); Some(Matching(InstructionSet, sample))
    else None
  }

  /** The first table entry reads A and B as registers, so trying the
      samples panics exactly when one of the three operands is no register. */
  lemma PossiblePanics(sample: Sample)
    ensures Possible(sample).None? <==>
            var ins := sample.instruction;
            ins.a >= |sample.before| || ins.b >= |sample.before| || ins.c >= |sample.before|
    ensures Possible(sample).Some? ==>
            forall m :: m in Possible(sample).value <==> BehavesLike(sample, m)
  {
    if !Addressable(AddR, sample.instruction, sample.before) {
      assert Possible(sample).None?;
    }
    forall m ensures m in InstructionSet {
      InstructionSetComplete(m);
    }
    MatchingExactly(InstructionSet, sample);
  }

  /** `possible_mnemonics`, trying each table entry on a fresh copy of the
      registers. */
  method PossibleMnemonics(sample: Sample) returns (r: Option<seq<Mnemonic>>)
    ensures r == Possible(sample)
  {
    var possible: seq<Mnemonic> := [];
    for k := 0 to |InstructionSet|
      invariant possible == Matching(InstructionSet[..k], sample)
      invariant k > 0 ==> Addressable(AddR, sample.instruction, sample.before)
    {
      var register := new nat[|sample.before|](i requires 0 <= i < |sample.before| => sample.before[i]);
      assert register[..] == sample.before;
      var ok := ExecuteMnemonic(InstructionSet[k], sample.instruction, register);
      if !ok {
        assert !Addressable(AddR, sample.instruction, sample.before);
        return None;
      }
      if register[..] == sample.after {
        possible := possible + [InstructionSet[k]];
      }
      assert InstructionSet[..k + 1][..k] == InstructionSet[..k];
    }
    assert InstructionSet[..|InstructionSet|] == InstructionSet;
    return Some(possible);
  }

  const ManualSampleOf: Sample := Sample([3, 2, 1, 1], Instruction(9, 2, 1, 2), [3, 2, 2, 1])

  /** The sample of the device manual behaves like exactly addi, mulr and seti. */
  lemma ManualSample()
    ensures Possible(ManualSampleOf) == Some([AddI, MulR, SetI])
  {
    var s := ManualSampleOf;
    assert forall m :: Addressable(m, s.instruction, s.before);
    var c0, c1, c2, c3 := [AddR, AddI, MulR, MulI], [BanR, BanI, BorR, BorI], [SetR, SetI, GtIR, GtRI], [GtRR, EqIR, EqRI, EqRR];
    assert InstructionSet == c0 + c1 + c2 + c3;
    ManualSampleMatches(s, c0, c1, c2, c3);
  }

  lemma ManualSampleMatches(s: Sample, c0: seq<Mnemonic>, c1: seq<Mnemonic>, c2: seq<Mnemonic>, c3: seq<Mnemonic>)
    requires s == ManualSampleOf
    requires c0 == [AddR, AddI, MulR, MulI] && c1 == [BanR, BanI, BorR, BorI]
    requires c2 == [SetR, SetI, GtIR, GtRI] && c3 == [GtRR, EqIR, EqRI, EqRR]
    ensures Matching(c0 + c1 + c2 + c3, s) == [AddI, MulR, SetI]
  {
    ManualFirstHalf(s, c0, c1);
    ManualSecondHalf(s, c2, c3);
    assert c0 + c1 + c2 + c3 == (c0 + c1) + (c2 + c3);
    MatchingAppend(c0 + c1, c2 + c3, s);
  }

  lemma ManualFirstHalf(s: Sample, c0: seq<Mnemonic>, c1: seq<Mnemonic>)
    requires s == ManualSampleOf
    requires c0 == [AddR, AddI, MulR, MulI] && c1 == [BanR, BanI, BorR, BorI]
    ensures Matching(c0 + c1, s) == [AddI, MulR]
  {
    assert Matching(c0, s) == [AddI, MulR] by {
      ManualChunk(c0);
      assert [] + [AddI] + [MulR] + [] == [AddI, MulR];
    }
    assert Matching(c1, s) == [] by {
      ManualChunk(c1);
    }
    MatchingAppend(c0, c1, s);
    assert [AddI, MulR] + [] == [AddI, MulR];
  }

  lemma ManualSecondHalf(s: Sample, c2: seq<Mnemonic>, c3: seq<Mnemonic>)
    requires s == ManualSampleOf
    requires c2 == [SetR, SetI, GtIR, GtRI] && c3 == [GtRR, EqIR, EqRI, EqRR]
    ensures Matching(c2 + c3, s) == [SetI]
  {
    assert Matching(c2, s) == [SetI] by {
      ManualChunk(c2);
      assert [] + [SetI] + [] + [] == [SetI];
    }
    assert Matching(c3, s) == [] by {
      ManualChunk(c3);
    }
    MatchingAppend(c2, c3, s);
    assert [SetI] + [] == [SetI];
  }

  /** The manual sample's matches among four table entries are those of
      addi, mulr and seti. */
  lemma ManualChunk(c: seq<Mnemonic>)
    requires |c| == 4
    ensures Matching(c, ManualSampleOf) == Good(c[0]) + Good(c[1]) + Good(c[2]) + Good(c[3])
  {
    MatchingFour(c, ManualSampleOf);
    ManualSampleBehaves(c[0]);
    ManualSampleBehaves(c[1]);
    ManualSampleBehaves(c[2]);
    ManualSampleBehaves(c[3]);
  }

  function Good(m: Mnemonic): seq<Mnemonic>
  {
    if m == AddI || m == MulR || m == SetI then [m] else []
  }

  lemma MatchingOne(m: Mnemonic, sample: Sample)
    ensures Matching([m], sample) == if BehavesLike(sample, m) then [m] else []
  {
    assert [m][..0] == [];
  }

  /** The matches among four mnemonics, one at a time. */
  lemma MatchingFour(c: seq<Mnemonic>, sample: Sample)
    requires |c| == 4
    ensures Matching(c, sample) ==
            (if BehavesLike(sample, c[0]) then [c[0]] else []) + (if BehavesLike(sample, c[1]) then [c[1]] else [])
            + (if BehavesLike(sample, c[2]) then [c[2]] else []) + (if BehavesLike(sample, c[3]) then [c[3]] else [])
  {
    assert c == [c[0]] + [c[1]] + [c[2]] + [c[3]];
    MatchingOne(c[0], sample);
    MatchingOne(c[1], sample);
    MatchingOne(c[2], sample);
    MatchingOne(c[3], sample);
    MatchingAppend([c[0]], [c[1]], sample);
    MatchingAppend([c[0]] + [c[1]], [c[2]], sample);
    MatchingAppend([c[0]] + [c[1]] + [c[2]], [c[3]], sample);
  }

  lemma {:induction false} MatchingAppend(a: seq<Mnemonic>, b: seq<Mnemonic>, sample: Sample)
    ensures Matching(a + b, sample) == Matching(a, sample) + Matching(b, sample)
    decreases |b|
  {
    if b == [] {
      assert a + b == a;
    } else {
      var init := b[..|b| - 1];
      MatchingAppend(a, init, sample);
      assert (a + b)[..|a + b| - 1] == a + init;
    }
  }

  /** Which operations store 2 into register 2 of the manual sample. */
  lemma ManualSampleBehaves(m: Mnemonic)
    ensures BehavesLike(ManualSampleOf, m) <==> m == AddI || m == MulR || m == SetI
  {
    var s := ManualSampleOf;
    assert BitAnd(1, 2) == 0 && BitOr(1, 2) == 3 && BitAnd(1, 1) == 1 && BitOr(1, 1) == 1 by {
      BitIdempotent(1);
    }
    assert s.before[2 := 2] == s.after;
    if Value(m, s.instruction, s.before) != 2 {
      assert Operate(m, s.instruction, s.before).value[2] != s.after[2];
    }
  }

  // ---------------------------------------------------------------------
  // Decoding opcodes

  /** The candidate mnemonics of each opcode: the union of what its samples
      behave like. `None` where some sample panics. */
  function Candidates(samples: seq<Sample>): Option<map<nat, set<Mnemonic>>>
  {
    if samples == [] then Some(map[])
    else
      var prev := Candidates(samples[..|samples| - 1]);
      var sample := samples[|samples| - 1];
      var p := Possible(sample);
      if prev.None? || p.None? then None
      else
        var opcode := sample.instruction.opcode;
        var known := if opcode in prev.value then prev.value[opcode] else {};
        Some(prev.value[opcode := known + set m <- p.value])
  }

  /** The candidates are exactly what the samples of each opcode say. */
  lemma CandidatesUnion(samples: seq<Sample>)
    ensures Candidates(samples).None? <==> exists s <- samples :: Possible(s).None?
    ensures Candidates(samples).Some? ==>
            var c := Candidates(samples).value;
            && (forall op :: op in c <==> exists s <- samples :: s.instruction.opcode == op)
            && (forall op, m | op in c ::
                  m in c[op] <==> exists s <- samples :: s.instruction.opcode == op && m in Possible(s).value)
  {
    CandidatesNone(samples);
    if Candidates(samples).Some? {
      CandidatesKeys(samples);
      CandidatesMembers(samples);
    }
  }

  lemma {:induction false} CandidatesNone(samples: seq<Sample>)
    ensures Candidates(samples).None? <==> exists s <- samples :: Possible(s).None?
  {
    if samples != [] {
      var init := samples[..|samples| - 1];
      CandidatesNone(init);
      assert samples == init + [samples[|samples| - 1]];
    }
  }

  lemma {:induction false} CandidatesKeys(samples: seq<Sample>)
    requires Candidates(samples).Some?
    ensures forall op :: op in Candidates(samples).value <==>
                         exists s <- samples :: s.instruction.opcode == op
  {
    if samples != [] {
      var init := samples[..|samples| - 1];
      CandidatesKeys(init);
      assert samples == init + [samples[|samples| - 1]];
    }
  }

  lemma {:induction false} CandidatesMembers(samples: seq<Sample>)
    requires Candidates(samples).Some?
    ensures var c := Candidates(samples).value;
            forall op, m | op in c ::
              m in c[op] <==> exists s <- samples :: s.instruction.opcode == op && Possible(s).Some? && m in Possible(s).value
  {
    if samples != [] {
      var init := samples[..|samples| - 1];
      CandidatesMembers(init);
      CandidatesKeys(init);
      assert samples == init + [samples[|samples| - 1]];
    }
  }

  /** The mnemonic of a non-empty candidate set that comes first in the table. */
  function Pick(s: set<Mnemonic>): (m: Mnemonic)
    requires s != {}
    ensures m in s
  {
    var m :| m in s;
    InstructionSetComplete(m);
    FirstIn(InstructionSet, s)
  }

  function FirstIn(ms: seq<Mnemonic>, s: set<Mnemonic>): (m: Mnemonic)
    requires exists m <- ms :: m in s
    ensures m in s
  {
    if ms[0] in s then ms[0] else FirstIn(ms[1..], s)
  }

  /** The opcodes of one pass with a single candidate, and that candidate. */
  function Clarified(cands: map<nat, set<Mnemonic>>): (fixed: map<nat, Mnemonic>)
    ensures forall op :: op in fixed <==> op in cands && |cands[op]| == 1
    ensures forall op <- fixed :: cands[op] == {fixed[op]}
  {
    var fixed := map op | op in cands && |cands[op]| == 1 :: Pick(cands[op]);
    assert forall op <- fixed :: cands[op] == {fixed[op]} by {
      forall op <- fixed ensures cands[op] == {fixed[op]} {
        SingletonHolds(cands[op], fixed[op]);
      }
    }
    fixed
  }

  lemma SingletonHolds<T>(s: set<T>, x: T)
    requires |s| == 1 && x in s
    ensures s == {x}
  {
    if s - {x} != {} {
      var y :| y in s - {x};
      assert {x, y} <= s;
      assert |{x, y}| == 2;
      SubsetCard({x, y}, s);
    }
  }

  /** One pass of the decoding loop: the clarified mnemonics are removed from
      every candidate set, and the opcodes left with no candidate dropped. */
  function Pass(cands: map<nat, set<Mnemonic>>): (next: map<nat, set<Mnemonic>>)
    ensures next.Keys <= cands.Keys
    ensures forall op <- next :: next[op] != {} && next[op] <= cands[op]
  {
    Without(cands, Clarified(cands).Values)
  }

  /** The candidate sets less `taken`, dropping those left empty. */
  function Without(cands: map<nat, set<Mnemonic>>, taken: set<Mnemonic>): (next: map<nat, set<Mnemonic>>)
    ensures next.Keys <= cands.Keys
    ensures forall op <- next :: next[op] != {} && next[op] == cands[op] - taken
  {
    map op | op in cands && cands[op] - taken != {} :: cands[op] - taken
  }

  lemma WithoutNothing(cands: map<nat, set<Mnemonic>>)
    requires forall op <- cands :: cands[op] != {}
    ensures Without(cands, {}) == cands
  {
    var next := Without(cands, {});
    forall op <- cands ensures op in next && next[op] == cands[op] {
      assert cands[op] - {} == cands[op];
    }
    assert next.Keys == cands.Keys;
  }

  /** A pass makes progress exactly when some opcode has at most one
      candidate; otherwise the decoding loop never ends. */
  lemma PassProgress(cands: map<nat, set<Mnemonic>>)
    ensures |Pass(cands)| < |cands| <==> exists op <- cands :: |cands[op]| <= 1
    ensures |Pass(cands)| == |cands| ==> Pass(cands) == cands
  {
    var next := Pass(cands);
    SubsetCard(next.Keys, cands.Keys);
    if exists op <- cands :: |cands[op]| <= 1 {
      var op :| op in cands && |cands[op]| <= 1;
      PassDrops(cands, op);
      assert next.Keys != cands.Keys;
    } else {
      PassKeepsAll(cands);
    }
  }

  /** An opcode with at most one candidate leaves the loop in this pass. */
  lemma PassDrops(cands: map<nat, set<Mnemonic>>, op: nat)
    requires op in cands && |cands[op]| <= 1
    ensures op !in Pass(cands)
  {
    var fixed := Clarified(cands);
    if |cands[op]| == 1 {
      assert fixed[op] in fixed.Values;
      assert cands[op] - fixed.Values == {};
    } else {
      assert cands[op] == {};
    }
  }

  /** Without a single-candidate opcode a pass changes nothing. */
  lemma PassKeepsAll(cands: map<nat, set<Mnemonic>>)
    requires forall op <- cands :: |cands[op]| >= 2
    ensures Pass(cands) == cands
  {
    NothingClarified(cands);
    forall op <- cands ensures cands[op] != {} {
      assert |cands[op]| >= 2;
    }
    WithoutNothing(cands);
  }

  lemma NothingClarified(cands: map<nat, set<Mnemonic>>)
    requires forall op <- cands :: |cands[op]| >= 2
    ensures Clarified(cands).Values == {}
  {
  }

  /** `decode_opcodes` after the candidates are known: passes until no
      candidates remain; `None` where a pass makes no progress and the
      source loops forever. */
  function Decode(cands: map<nat, set<Mnemonic>>, opcodes: map<nat, Mnemonic>): Option<map<nat, Mnemonic>>
    decreases |cands|
  {
    if |cands| == 0 then Some(opcodes)
    else
      var next := Pass(cands);
      SubsetCard(next.Keys, cands.Keys);
      if |next| == |cands| then None
      else Decode(next, opcodes + Clarified(cands))
  }

  /** Each decoded mnemonic is one of its opcode's original candidates, and
      only opcodes with candidates are decoded. */
  lemma {:induction false} DecodeWithin(
    orig: map<nat, set<Mnemonic>>, cands: map<nat, set<Mnemonic>>, opcodes: map<nat, Mnemonic>)
    requires cands.Keys <= orig.Keys && forall op <- cands :: cands[op] <= orig[op]
    requires opcodes.Keys <= orig.Keys && forall op <- opcodes :: opcodes[op] in orig[op]
    requires Decode(cands, opcodes).Some?
    ensures var r := Decode(cands, opcodes).value;
            r.Keys <= orig.Keys && forall op <- r :: r[op] in orig[op]
    decreases |cands|
  {
    if |cands| != 0 {
      var next := Pass(cands);
      var fixed := Clarified(cands);
      SubsetCard(next.Keys, cands.Keys);
      forall op <- fixed ensures fixed[op] in orig[op] {
        assert fixed[op] in cands[op];
      }
      DecodeWithin(orig, next, opcodes + fixed);
    }
  }

  /** The decoded table of a set of samples only maps opcodes that occur in
      the samples, each to a mnemonic one of its samples behaves like. */
  lemma DecodedBySamples(samples: seq<Sample>)
    requires Candidates(samples).Some? && Decode(Candidates(samples).value, map[]).Some?
    ensures var r := Decode(Candidates(samples).value, map[]).value;
            forall op <- r :: exists s <- samples :: s.instruction.opcode == op && BehavesLike(s, r[op])
  {
    var c := Candidates(samples).value;
    CandidatesUnion(samples);
    DecodeWithin(c, c, map[]);
    var r := Decode(c, map[]).value;
    forall op <- r ensures exists s <- samples :: s.instruction.opcode == op && BehavesLike(s, r[op]) {
      var s :| s in samples && s.instruction.opcode == op && r[op] in Possible(s).value;
      PossiblePanics(s);
    }
  }

  /** The candidate collection loop of `decode_opcodes`: each sample's
      possible mnemonics are added to its opcode's set. */
  method CollectCandidates(samples: seq<Sample>) returns (r: Option<map<nat, set<Mnemonic>>>)
    ensures r == Candidates(samples)
  {
    var candidates: map<nat, set<Mnemonic>> := map[];
    for k := 0 to |samples|
      invariant Candidates(samples[..k]) == Some(candidates)
    {
      assert samples[..k + 1][..k] == samples[..k];
      var p := PossibleMnemonics(samples[k]);
      if p.None? {
        CandidatesUnion(samples);
        return None;
      }
      var opcode := samples[k].instruction.opcode;
      var known := if opcode in candidates then candidates[opcode] else {};
      candidates := candidates[opcode := known + set m <- p.value];
    }
    assert samples[..|samples|] == samples;
    return Some(candidates);
  }

  /** The body of the decoding loop: the clarified opcodes are handled one
      at a time, in an arbitrary order, which does not change the outcome. */
  method ApplyPass(mnemonics: map<nat, set<Mnemonic>>, opcodes: map<nat, Mnemonic>)
    returns (next: map<nat, set<Mnemonic>>, decoded: map<nat, Mnemonic>)
    ensures next == Pass(mnemonics)
    ensures decoded == opcodes + Clarified(mnemonics)
  {
    var clarified := Clarified(mnemonics);
    var todo := clarified.Keys;
    next := mnemonics;
    decoded := opcodes;
    ghost var taken: set<Mnemonic> := {};
    MinusNothing(mnemonics);
    RestrictNothing(opcodes, clarified);
    TakenNone(clarified);
    while todo != {}
      invariant todo <= clarified.Keys
      invariant taken == Taken(clarified, todo)
      invariant next == Minus(mnemonics, taken)
      invariant decoded == opcodes + Restrict(clarified, clarified.Keys - todo)
      decreases |todo|
    {
      var op :| op in todo;
      var mnemonic := clarified[op];
      MinusStep(mnemonics, taken, mnemonic);
      TakenStep(clarified, todo, op);
      RestrictStep(opcodes, clarified, todo, op);
      next := Minus(next, {mnemonic});
      decoded := decoded[op := mnemonic];
      todo := todo - {op};
      taken := taken + {mnemonic};
    }
    TakenAll(clarified);
    RestrictAll(clarified);
    RetainMinus(mnemonics, clarified.Values);
    next := NonEmpty(next);
  }

  /** Every candidate set less `taken` (`values_mut().for_each(remove)`). */
  function Minus(cands: map<nat, set<Mnemonic>>, taken: set<Mnemonic>): (r: map<nat, set<Mnemonic>>)
    ensures r.Keys == cands.Keys
  {
    map op | op in cands :: cands[op] - taken
  }

  /** The non-empty candidate sets (`retain(|_, mnes| !mnes.is_empty())`). */
  function NonEmpty(cands: map<nat, set<Mnemonic>>): (r: map<nat, set<Mnemonic>>)
    ensures r.Keys <= cands.Keys
  {
    map op | op in cands && cands[op] != {} :: cands[op]
  }

  lemma MinusNothing(cands: map<nat, set<Mnemonic>>)
    ensures Minus(cands, {}) == cands
  {
    var r := Minus(cands, {});
    forall o <- cands ensures r[o] == cands[o] {
      assert cands[o] - {} == cands[o];
    }
  }

  lemma MinusStep(cands: map<nat, set<Mnemonic>>, taken: set<Mnemonic>, m: Mnemonic)
    ensures Minus(Minus(cands, taken), {m}) == Minus(cands, taken + {m})
  {
    var lhs := Minus(Minus(cands, taken), {m});
    forall o <- cands ensures lhs[o] == Minus(cands, taken + {m})[o] {
      assert cands[o] - taken - {m} == cands[o] - (taken + {m});
    }
  }

  lemma RetainMinus(cands: map<nat, set<Mnemonic>>, taken: set<Mnemonic>)
    ensures NonEmpty(Minus(cands, taken)) == Without(cands, taken)
  {
  }

  /** The entries of `m` whose keys are not in `todo`. */
  ghost function Restrict(m: map<nat, Mnemonic>, keys: set<nat>): map<nat, Mnemonic>
  {
    map k | k in m && k in keys :: m[k]
  }

  lemma RestrictNothing(base: map<nat, Mnemonic>, m: map<nat, Mnemonic>)
    ensures base + Restrict(m, m.Keys - m.Keys) == base
  {
    assert Restrict(m, m.Keys - m.Keys) == map[];
  }

  lemma RestrictStep(base: map<nat, Mnemonic>, m: map<nat, Mnemonic>, todo: set<nat>, k: nat)
    requires k in m && k in todo
    ensures (base + Restrict(m, m.Keys - todo))[k := m[k]] == base + Restrict(m, m.Keys - (todo - {k}))
  {
    assert m.Keys - (todo - {k}) == (m.Keys - todo) + {k};
  }

  lemma RestrictAll(m: map<nat, Mnemonic>)
    ensures Restrict(m, m.Keys - {}) == m
  {
  }

  /** The mnemonics of the clarified opcodes already handled in a pass. */
  ghost function Taken(clarified: map<nat, Mnemonic>, todo: set<nat>): set<Mnemonic>
  {
    set op | op in clarified && op !in todo :: clarified[op]
  }

  lemma TakenStep(clarified: map<nat, Mnemonic>, todo: set<nat>, op: nat)
    requires op in todo && op in clarified
    ensures Taken(clarified, todo - {op}) == Taken(clarified, todo) + {clarified[op]}
  {
  }

  lemma TakenNone(clarified: map<nat, Mnemonic>)
    ensures Taken(clarified, clarified.Keys) == {}
  {
  }

  lemma TakenAll(clarified: map<nat, Mnemonic>)
    ensures Taken(clarified, {}) == clarified.Values
  {
  }

  /** `decode_opcodes`: collect the candidates, then run passes until none
      remain. */
  method DecodeOpcodes(samples: seq<Sample>) returns (r: Option<map<nat, Mnemonic>>)
    requires Candidates(samples).Some? ==> Decode(Candidates(samples).value, map[]).Some?
    ensures Candidates(samples).None? ==> r.None?
    ensures Candidates(samples).Some? ==> r == Decode(Candidates(samples).value, map[])
  {
    var candidates := CollectCandidates(samples);
    if candidates.None? {
      return None;
    }
    var opcodes: map<nat, Mnemonic> := map[];
    var mnemonics := candidates.value;
    while |mnemonics| != 0
      invariant Decode(mnemonics, opcodes) == Decode(candidates.value, map[])
      invariant Decode(mnemonics, opcodes).Some?
      decreases |mnemonics|
    {
      var next, decoded := ApplyPass(mnemonics, opcodes);
      SubsetCard(next.Keys, mnemonics.Keys);
      mnemonics, opcodes := next, decoded;
    }
    return Some(opcodes);
  }

  // ---------------------------------------------------------------------
  // The interpreter

  /** Where a run stopped: the registers then, and whether an instruction failed. */
  datatype Halt = Halt(registers: seq<nat>, failed: bool)

  /** `Interpreter`: the decoded opcode table. */
  datatype Interpreter = Interpreter(opcodes: map<nat, Mnemonic>)
  {
    /** One instruction: an error for an opcode missing from the table (or
        for an operand that is no register, where the source panics). */
    function Step(ins: Instruction, reg: seq<nat>): (r: Result<seq<nat>>)
      ensures ins.opcode !in opcodes ==> r.Err?
      ensures ins.opcode in opcodes ==>
                (r.Ok? <==> Addressable(opcodes[ins.opcode], ins, reg))
      ensures r.Ok? ==> Operate(opcodes[ins.opcode], ins, reg) == Some(r.value)
    {
      if ins.opcode !in opcodes then Err("unsupported opcode")
      else
        match Operate(opcodes[ins.opcode], ins, reg)
        case None => Err("index out of bounds")
        case Some(next) => Ok(next)
    }

    /** `run`: the instructions in order, stopping at the first that fails. */
    function Trace(program: seq<Instruction>, reg: seq<nat>): (h: Halt)
      ensures |h.registers| == |reg|
    {
      if program == [] then Halt(reg, false)
      else
        match Step(program[0], reg)
        case Err(_) => Halt(reg, true)
        case Ok(next) => Trace(program[1..], next)
    }

    /** `execute`, changing the registers in place; they stay untouched when
        the opcode is unknown. */
    method Execute(ins: Instruction, reg: array<nat>) returns (r: Result<()>)
      modifies reg
      ensures r.Ok? == Step(ins, old(reg[..])).Ok?
      ensures reg[..] == if r.Ok? then Step(ins, old(reg[..])).value else old(reg[..])
    {
      if ins.opcode !in opcodes {
        return Err("unsupported opcode");
      }
      var ok := ExecuteMnemonic(opcodes[ins.opcode], ins, reg);
      if !ok {
        return Err("index out of bounds");
      }
      return Ok(());
    }

    /** `run`, changing the registers in place. */
    method Run(program: seq<Instruction>, reg: array<nat>) returns (r: Result<()>)
      modifies reg
      ensures Trace(program, old(reg[..])) == Halt(reg[..], r.Err?)
    {
      for k := 0 to |program|
        invariant Trace(program, old(reg[..])) == Trace(program[k..], reg[..])
      {
        assert program[k..][1..] == program[k + 1..];
        r := Execute(program[k], reg);
        if r.Err? {
          return;
        }
      }
      return Ok(());
    }
  }

  /** Running two programs one after the other is running their
      concatenation; a failure in the first ends the run. */
  lemma {:induction false} TraceAppend(interpreter: Interpreter, p: seq<Instruction>, q: seq<Instruction>, reg: seq<nat>)
    ensures interpreter.Trace(p + q, reg) ==
            var h := interpreter.Trace(p, reg);
            if h.failed then h else interpreter.Trace(q, h.registers)
  {
    if p == [] {
      assert p + q == q;
    } else {
      assert (p + q)[0] == p[0];
      assert (p + q)[1..] == p[1..] + q;
      match interpreter.Step(p[0], reg)
      case Err(_) =>
      case Ok(next) => TraceAppend(interpreter, p[1..], q, next);
    }
  }

  // ---------------------------------------------------------------------
  // The two parts

  /** Part 1: the number of samples that behave like three or more opcodes;
      `None` where trying a sample panics. */
  function NumSamplesLikeThreeOrMore(samples: seq<Sample>): (r: Option<nat>)
    ensures r.Some? <==> forall s <- samples :: Possible(s).Some?
    ensures r.Some? ==> r.value <= |samples|
    ensures r.Some? ==> (r.value == 0 <==> forall s <- samples :: |Possible(s).value| < 3)
  {
    if samples == [] then Some(0)
    else
      var rest := NumSamplesLikeThreeOrMore(samples[1..]);
      var p := Possible(samples[0]);
      assert forall s <- samples :: s == samples[0] || s in samples[1..];
      if p.None? || rest.None? then None
      else Some(rest.value + (if |p.value| >= 3 then 1 else 0))
  }

  /** The example input's single sample counts. */
  lemma NumSamplesExample()
    ensures NumSamplesLikeThreeOrMore([ManualSampleOf]) == Some(1)
  {
    ManualSample();
    assert [ManualSampleOf][1..] == [];
  }

  /** Part 2: decode the opcodes, then run the program on zeroed registers.
      A failing instruction only ends the run; `None` where decoding panics. */
  method RunProgram(samples: seq<Sample>, program: seq<Instruction>) returns (r: Option<seq<nat>>)
    requires Candidates(samples).Some? ==> Decode(Candidates(samples).value, map[]).Some?
    ensures Candidates(samples).None? ==> r.None?
    ensures Candidates(samples).Some? ==>
              r == Some(Interpreter(Decode(Candidates(samples).value, map[]).value).Trace(program, [0, 0, 0, 0]).registers)
  {
    var opcodes := DecodeOpcodes(samples);
    if opcodes.None? {
      return None;
    }
    var register := new nat[4](_ => 0);
    assert register[..] == [0, 0, 0, 0];
    var interpreter := Interpreter(opcodes.value);
    var _ := interpreter.Run(program, register);
    return Some(register[..]);
  }

  // ---------------------------------------------------------------------
  // Parsing registers

  /** The characters `parse_register` accepts before the closing bracket. */
  predicate RegisterChar(c: char)
  {
    c == '[' || c == ' ' || c == ',' || IsDigit(c)
  }

  /** The index of the first ']', or the length where there is none. */
  function CloseAt(s: string): (k: nat)
    ensures k <= |s| && ']' !in s[..k]
    ensures k < |s| ==> s[k] == ']'
  {
    if s == [] then 0
    else if s[0] == ']' then 0
    else
      var k := CloseAt(s[1..]);
      assert s[..k + 1] == [s[0]] + s[1..][..k];
      k + 1
  }

  /** The characters kept in the number buffer: all but '[' and ' '. */
  function Kept(s: string): (r: string)
    ensures |r| <= |s|
  {
    if s == [] then []
    else
      var c := s[|s| - 1];
      Kept(s[..|s| - 1]) + (if c == '[' || c == ' ' then [] else [c])
  }

  lemma {:induction false} KeptAppend(a: string, b: string)
    ensures Kept(a + b) == Kept(a) + Kept(b)
    decreases |b|
  {
    if b == [] {
      assert a + b == a;
    } else {
      KeptAppend(a, b[..|b| - 1]);
      assert b == b[..|b| - 1] + [b[|b| - 1]];
      KeptAppendStep(a, b[..|b| - 1], b[|b| - 1]);
    }
  }

  lemma KeptAppendStep(a: string, init: string, c: char)
    requires Kept(a + init) == Kept(a) + Kept(init)
    ensures Kept(a + (init + [c])) == Kept(a) + Kept(init + [c])
  {
    assert a + (init + [c]) == (a + init) + [c];
    KeptSnoc(a + init, c);
    KeptSnoc(init, c);
    var tail: string := if c == '[' || c == ' ' then [] else [c];
    Associates(Kept(a), Kept(init), tail);
  }

  lemma KeptSnoc(u: string, c: char)
    ensures Kept(u + [c]) == Kept(u) + (if c == '[' || c == ' ' then [] else [c])
  {
    assert (u + [c])[..|u|] == u;
  }

  /** The comma-separated pieces of the buffer after reading `u`. */
  ghost function Pieces(u: string): seq<string>
  {
    Split(Kept(u), ',')
  }

  lemma PiecesSkip(u: string, c: char)
    requires c == '[' || c == ' '
    ensures Pieces(u + [c]) == Pieces(u)
  {
    assert (u + [c])[..|u|] == u;
    assert Kept(u) + [] == Kept(u);
    assert Kept(u + [c]) == Kept(u);
  }

  lemma PiecesDigit(u: string, c: char)
    requires IsDigit(c)
    ensures var p := Pieces(u);
      Pieces(u + [c]) == p[..|p| - 1] + [p[|p| - 1] + [c]]
  {
    assert (u + [c])[..|u|] == u;
    assert Kept(u + [c]) == Kept(u) + [c];
    SplitSnoc(Kept(u), ',', c);
  }

  lemma PiecesComma(u: string)
    ensures Pieces(u + [',']) == Pieces(u) + [""]
  {
    assert (u + [','])[..|u|] == u;
    assert Kept(u + [',']) == Kept(u) + [','] + [];
    SplitAtSeparator(Kept(u), ',', []);
  }

  /** Each piece parsed as a `u64`; `None` if any of them is no number. */
  function ParseAll(pieces: seq<string>): (r: Option<seq<nat>>)
    ensures r.Some? ==> |r.value| == |pieces|
  {
    if pieces == [] then Some([])
    else
      var init := ParseAll(pieces[..|pieces| - 1]);
      var last := ParseInt(pieces[|pieces| - 1], 0, U64_MAX);
      if init.None? || last.None? then None else Some(init.value + [last.value as nat])
  }

  lemma ParseAllSnoc(ps: seq<string>, p: string, vs: seq<nat>, v: int)
    requires ParseAll(ps) == Some(vs) && ParseInt(p, 0, U64_MAX) == Some(v)
    ensures v >= 0 && ParseAll(ps + [p]) == Some(vs + [v])
  {
    assert (ps + [p])[..|ps|] == ps;
  }

  lemma {:induction false} ParseAllFails(values: seq<string>, n: nat)
    requires 1 <= n <= |values| && ParseInt(values[n - 1], 0, U64_MAX).None?
    ensures ParseAll(values).None?
    decreases |values|
  {
    if n < |values| {
      var init := values[..|values| - 1];
      assert init[n - 1] == values[n - 1];
      ParseAllFails(init, n);
    }
  }

  /** What `parse_register` reads: everything before the first ']' must be
      digits, separators, spaces or '['; the numbers are the pieces ended by
      ',' or by the ']' (a trailing unterminated piece is ignored), and there
      must be exactly four of them, each a `u64`. */
  ghost function RegisterSpec(s: string): Option<seq<nat>>
  {
    var t := s[..CloseAt(s)];
    if exists i | 0 <= i < |t| :: !RegisterChar(t[i]) then None
    else
      var pieces := Pieces(t);
      var values := if CloseAt(s) < |s| then pieces else pieces[..|pieces| - 1];
      if |values| != 4 then None else ParseAll(values)
  }

  /** `parse_register`: reads characters into a buffer, storing a value at
      each ',' and at the first ']', where it stops. */
  method ParseRegister(s: string) returns (r: Result<seq<nat>>)
    ensures r.Ok? <==> RegisterSpec(s).Some?
    ensures r.Ok? ==> r.value == RegisterSpec(s).value
  {
    var values := new nat[4](_ => 0);
    var cIdx: nat := 0;
    var cVal: string := "";
    ghost var pieces := [""];
    var i := 0;
    while i < |s|
      invariant i <= |s| && ']' !in s[..i]
      invariant forall c | c in s[..i] :: RegisterChar(c)
      invariant pieces == Pieces(s[..i])
      invariant cIdx + 1 == |pieces| && cIdx <= 4 && cVal == pieces[cIdx]
      invariant ParseAll(pieces[..cIdx]) == Some(values[..cIdx])
    {
      var chr := s[i];
      ghost var u := s[..i];
      assert s[..i + 1] == u + [chr];
      if chr == ']' || chr == ',' {
        var value := ParseInt(cVal, 0, U64_MAX);
        if value.None? || cIdx >= 4 {
          if chr == ']' {
            ClosedRegister(s, i);
            LastPieceFails(pieces);
          } else {
            TerminatedAtComma(s, i);
          }
          return Err(if value.None? then "invalid digit found in string" else "index out of bounds");
        }
        ghost var before := values[..cIdx];
        values[cIdx] := value.value;
        assert values[..cIdx + 1] == before + [value.value];
        StoreValue(pieces, cIdx, before, value.value);
        cIdx := cIdx + 1;
        cVal := "";
        if chr == ']' {
          ClosedRegister(s, i);
          return if cIdx != 4 then Err("expected 4 values") else Ok(values[..]);
        }
        PiecesComma(u);
        pieces := pieces + [""];
      } else if chr == '[' || chr == ' ' {
        PiecesSkip(u, chr);
      } else if IsDigit(chr) {
        cVal := cVal + [chr];
        PiecesDigit(u, chr);
        DigitAppended(pieces, cIdx, chr);
        pieces := pieces[..cIdx] + [cVal];
      } else {
        UnexpectedCharacter(s, i);
        return Err("unexpected character");
      }
      i := i + 1;
    }
    OpenRegister(s);
    assert s[..i] == s;
    return if cIdx != 4 then Err("expected 4 values") else Ok(values[..]);
  }

  lemma StoreValue(pieces: seq<string>, n: nat, before: seq<nat>, v: int)
    requires n < |pieces| && ParseAll(pieces[..n]) == Some(before)
    requires ParseInt(pieces[n], 0, U64_MAX) == Some(v)
    ensures v >= 0 && ParseAll(pieces[..n + 1]) == Some(before + [v])
  {
    assert pieces[..n + 1] == pieces[..n] + [pieces[n]];
    ParseAllSnoc(pieces[..n], pieces[n], before, v);
  }

  lemma DigitAppended(pieces: seq<string>, n: nat, c: char)
    requires n + 1 == |pieces|
    ensures var next := pieces[..n] + [pieces[n] + [c]];
            |next| == n + 1 && next[..n] == pieces[..n]
  {
    var next := pieces[..n] + [pieces[n] + [c]];
    assert next[..n] == pieces[..n];
  }

  /** The register as read when the first ']' is at `i`: the pieces before it. */
  lemma ClosedRegister(s: string, i: nat)
    requires i < |s| && s[i] == ']' && ']' !in s[..i]
    requires forall c | c in s[..i] :: RegisterChar(c)
    ensures var p := Pieces(s[..i]);
            RegisterSpec(s) == if |p| != 4 then None else ParseAll(p)
  {
    ClosedHere(s, i);
    var t := s[..i];
    assert forall j | 0 <= j < |t| :: t[j] in t;
  }

  /** The register as read when there is no ']': the pieces but the last. */
  lemma OpenRegister(s: string)
    requires ']' !in s
    requires forall c | c in s :: RegisterChar(c)
    ensures var p := Pieces(s);
            RegisterSpec(s) == if |p| - 1 != 4 then None else ParseAll(p[..|p| - 1])
  {
    assert s[..CloseAt(s)] == s;
    assert forall j | 0 <= j < |s| :: s[j] in s;
  }

  /** Stopping at the first ']' with the pieces read so far. */
  lemma ClosedHere(s: string, i: nat)
    requires i < |s| && s[i] == ']' && ']' !in s[..i]
    ensures CloseAt(s) == i
  {
  }

  /** A character outside the accepted ones before the first ']' makes the
      register unreadable. */
  lemma UnexpectedCharacter(s: string, i: nat)
    requires i < |s| && ']' !in s[..i] && !RegisterChar(s[i]) && s[i] != ']'
    ensures RegisterSpec(s).None?
  {
    var k := CloseAt(s);
    assert s[..k][i] == s[i];
  }

  lemma LastPieceFails(pieces: seq<string>)
    requires |pieces| >= 1
    requires |pieces| > 4 || ParseInt(pieces[|pieces| - 1], 0, U64_MAX).None?
    ensures |pieces| != 4 || ParseAll(pieces).None?
  {
  }

  /** A piece ended by ',' is one of the values whatever follows, so too
      many pieces or an unreadable one make the register unreadable. */
  lemma TerminatedAtComma(s: string, i: nat)
    requires i < |s| && s[i] == ',' && ']' !in s[..i]
    requires var p := Pieces(s[..i]);
      |p| > 4 || ParseInt(p[|p| - 1], 0, U64_MAX).None?
    ensures RegisterSpec(s).None?
  {
    var k := CloseAt(s);
    assert i < k;
    var t := s[..k];
    if forall j | 0 <= j < |t| :: RegisterChar(t[j]) {
      var pieces := Pieces(s[..i]);
      var all := Pieces(t);
      PiecesAtComma(s, i, k);
      var values := if k < |s| then all else all[..|all| - 1];
      assert values[..|pieces|] == pieces;
      if |values| == 4 {
        assert values[|pieces| - 1] == pieces[|pieces| - 1];
        ParseAllFails(values, |pieces|);
      }
    }
  }

  lemma PiecesAtComma(s: string, i: nat, k: nat)
    requires i < k <= |s| && s[i] == ','
    ensures exists rest: seq<string> | |rest| >= 1 :: Pieces(s[..k]) == Pieces(s[..i]) + rest
  {
    var w := s[i + 1..k];
    assert s[..k] == s[..i] + [','] + w;
    KeptAppend(s[..i] + [','], w);
    KeptAppend(s[..i], [',']);
    assert Kept([',']) == [','] by {
      assert [','][..0] == [];
    }
    SplitAtSeparator(Kept(s[..i]), ',', Kept(w));
    var rest := Split(Kept(w), ',');
    assert Pieces(s[..k]) == Pieces(s[..i]) + rest;
  }

  // ---------------------------------------------------------------------
  // Displaying registers

  /** A register as `Display` writes it: "[a, b, c, d]". */
  function ShowRegister(r: seq<nat>): string
    requires |r| == 4
  {
    "[" + ShowNat(r[0]) + ", " + ShowNat(r[1]) + ", " + ShowNat(r[2]) + ", " + ShowNat(r[3]) + "]"
  }

  /** A displayed register of `u64` values reads back as the same values. */
  lemma RegisterRoundTrip(r: seq<nat>)
    requires |r| == 4 && forall v <- r :: v <= U64_MAX
    ensures RegisterSpec(ShowRegister(r)) == Some(r)
  {
    var d0, d1, d2, d3 := ShowNat(r[0]), ShowNat(r[1]), ShowNat(r[2]), ShowNat(r[3]);
    var p0 := "[" + d0;
    var p1 := p0 + ", " + d1;
    var p2 := p1 + ", " + d2;
    var t := p2 + ", " + d3;
    assert ShowRegister(r) == t + "]";
    NoCloseInDigits(t, d0, d1, d2, d3);
    PiecesOpened(d0);
    PiecesSeparated(p0, d1);
    PiecesSeparated(p1, d2);
    PiecesSeparated(p2, d3);
    assert Pieces(t) == [d0, d1, d2, d3];
    ClosedRegisterText(t, [d0, d1, d2, d3]);
    ParseAllShown([d0, d1, d2, d3], r);
  }

  /** A bracketed register text is read as its pieces. */
  lemma ClosedRegisterText(t: string, pieces: seq<string>)
    requires ']' !in t && forall i | 0 <= i < |t| :: RegisterChar(t[i])
    requires Pieces(t) == pieces && |pieces| == 4
    ensures RegisterSpec(t + "]") == ParseAll(pieces)
  {
    var s := t + "]";
    assert s[..|t|] == t;
    ClosedHere(s, |t|);
  }

  lemma NoCloseInDigits(t: string, d0: string, d1: string, d2: string, d3: string)
    requires AllDigits(d0) && AllDigits(d1) && AllDigits(d2) && AllDigits(d3)
    requires t == "[" + d0 + ", " + d1 + ", " + d2 + ", " + d3
    ensures ']' !in t && forall i | 0 <= i < |t| :: RegisterChar(t[i])
  {
    forall i | 0 <= i < |t|
      ensures RegisterChar(t[i])
    {
      assert t[i] in t;
    }
  }

  lemma {:induction false} KeptDigits(d: string)
    requires AllDigits(d)
    ensures Kept(d) == d
  {
    if d != [] {
      var init := d[..|d| - 1];
      assert d[|d| - 1] in d;
      assert forall c <- init :: c in d;
      KeptDigits(init);
      assert init + [d[|d| - 1]] == d;
    }
  }

  lemma PiecesOpened(d: string)
    requires AllDigits(d)
    ensures Pieces("[" + d) == [d]
  {
    KeptAppend("[", d);
    KeptDigits(d);
    assert "["[..0] == [];
    assert Kept("[") == [] + [];
    assert Kept("[" + d) == d;
    assert ',' !in d;
    SplitSegment(d, ',', []);
  }

  lemma PiecesSeparated(pre: string, d: string)
    requires AllDigits(d)
    ensures Pieces(pre + ", " + d) == Pieces(pre) + [d]
  {
    KeptAppend(pre + ", ", d);
    KeptAppend(pre, ", ");
    KeptDigits(d);
    assert ", "[..1] == "," && ","[..0] == [];
    assert Kept(pre + ", " + d) == Kept(pre) + [','] + d;
    SplitAtSeparator(Kept(pre), ',', d);
    assert ',' !in d;
    SplitSegment(d, ',', []);
  }

  lemma {:induction false} ParseAllShown(ds: seq<string>, r: seq<nat>)
    requires |ds| == |r| && forall v <- r :: v <= U64_MAX
    requires forall i | 0 <= i < |ds| :: ds[i] == ShowNat(r[i])
    ensures ParseAll(ds) == Some(r)
    decreases |ds|
  {
    if ds != [] {
      var n := |ds| - 1;
      assert forall v <- r[..n] :: v in r;
      ParseAllShown(ds[..n], r[..n]);
      assert r[n] in r;
      assert r[..n] + [r[n]] == r;
    }
  }

  // ---------------------------------------------------------------------
  // Instructions as text

  /** `parse_instruction`: the first four space-separated fields, trimmed,
      read as a `u8` opcode and three `u64` operands; further fields are
      ignored. */
  function ParseInstruction(line: string): (r: Result<Instruction>)
    ensures r.Ok? ==> r.value.opcode <= U8_MAX && r.value.a <= U64_MAX
                      && r.value.b <= U64_MAX && r.value.c <= U64_MAX
  {
    var parts := Split(line, ' ');
    var opcode := ParseInt(Trim(parts[0]), 0, U8_MAX);
    if opcode.None? then Err("invalid opcode")
    else if |parts| < 2 then Err("unexpected end of line")
    else
      var a := ParseInt(Trim(parts[1]), 0, U64_MAX);
      if a.None? then Err("invalid operand")
      else if |parts| < 3 then Err("unexpected end of line")
      else
        var b := ParseInt(Trim(parts[2]), 0, U64_MAX);
        if b.None? then Err("invalid operand")
        else if |parts| < 4 then Err("unexpected end of line")
        else
          var c := ParseInt(Trim(parts[3]), 0, U64_MAX);
          if c.None? then Err("invalid operand")
          else Ok(Instruction(opcode.value, a.value, b.value, c.value))
  }

  /** The field ranges of an instruction read from text. */
  predicate InRange(ins: Instruction)
  {
    ins.opcode <= U8_MAX && ins.a <= U64_MAX && ins.b <= U64_MAX && ins.c <= U64_MAX
  }

  /** An instruction written with decimal fields, as the puzzle input has them. */
  function ShowInstruction(ins: Instruction): string
  {
    Join([ShowNat(ins.opcode), ShowNat(ins.a), ShowNat(ins.b), ShowNat(ins.c)], ' ')
  }

  /** Reading a decimal field that was written from `v`. */
  lemma ReadField(v: nat, hi: int)
    requires v <= hi
    ensures ParseInt(Trim(ShowNat(v)), 0, hi) == Some(v)
  {
    var d := ShowNat(v);
    assert d[0] in d && d[|d| - 1] in d;
    TrimKeeps(d);
  }

  /** Every instruction in range is read back from its text. */
  lemma InstructionRoundTrip(ins: Instruction)
    requires InRange(ins)
    ensures ParseInstruction(ShowInstruction(ins)) == Ok(ins)
  {
    var parts := [ShowNat(ins.opcode), ShowNat(ins.a), ShowNat(ins.b), ShowNat(ins.c)];
    forall p <- parts
      ensures ' ' !in p
    {
      assert ' ' in p ==> !IsDigit(' ');
    }
    SplitJoin(parts, ' ');
    ReadField(ins.opcode, U8_MAX);
    ReadField(ins.a, U64_MAX);
    ReadField(ins.b, U64_MAX);
    ReadField(ins.c, U64_MAX);
  }

  /** The lower-case hexadecimal digits of `n`, as `{:x}` writes them. */
  function ShowHex(n: nat): (s: string)
    ensures s != []
  {
    var digit := "0123456789abcdef"[n % 16];
    if n < 16 then [digit] else ShowHex(n / 16) + [digit]
  }

  /** `Display for Instruction` as written: the opcode in hexadecimal
      (`Display for OpCode`), the operands in decimal. */
  function ShowInstructionAsWritten(ins: Instruction): string
  {
    Join([ShowHex(ins.opcode), ShowNat(ins.a), ShowNat(ins.b), ShowNat(ins.c)], ' ')
  }

  /** Below ten, hexadecimal and decimal agree, so the written form is the
      intended one for such opcodes. */
  lemma AsWrittenAgreesBelowTen(ins: Instruction)
    requires ins.opcode < 10
    ensures ShowInstructionAsWritten(ins) == ShowInstruction(ins)
  {
  }

  /** Opcode 10 is written "a", which `parse_instruction` refuses. */
  lemma AsWrittenLosesOpcodeTen()
    ensures ShowInstructionAsWritten(Instruction(10, 0, 0, 0)) == "a 0 0 0"
    ensures ParseInstruction(ShowInstructionAsWritten(Instruction(10, 0, 0, 0))).Err?
  {
    var parts := ["a", "0", "0", "0"];
    assert ShowHex(10) == "a";
    assert ShowInstructionAsWritten(Instruction(10, 0, 0, 0)) == Join(parts, ' ');
    JoinFour("a", "0", "0", "0", ' ');
    LetterFieldRefused(Join(parts, ' '), parts);
  }

  /** A line whose first field is a letter is no instruction. */
  lemma LetterFieldRefused(line: string, parts: seq<string>)
    requires |parts| >= 1 && parts[0] == "a" && forall p <- parts :: ' ' !in p
    requires line == Join(parts, ' ')
    ensures ParseInstruction(line).Err?
  {
    SplitJoin(parts, ' ');
    assert Trim("a") == "a";
  }

  // ---------------------------------------------------------------------
  // The puzzle input

  /** `results` prefixed by what was read before them. */
  function Prepend(samples: seq<Sample>, program: seq<Instruction>,
                   results: Option<(seq<Sample>, seq<Instruction>)>): Option<(seq<Sample>, seq<Instruction>)>
  {
    if results.None? then None else Some((samples + results.value.0, program + results.value.1))
  }

  lemma PrependTwice(s1: seq<Sample>, p1: seq<Instruction>, s2: seq<Sample>, p2: seq<Instruction>,
                     results: Option<(seq<Sample>, seq<Instruction>)>)
    ensures Prepend(s1, p1, Prepend(s2, p2, results)) == Prepend(s1 + s2, p1 + p2, results)
  {
    if results.Some? {
      assert s1 + (s2 + results.value.0) == s1 + s2 + results.value.0;
      assert p1 + (p2 + results.value.1) == p1 + p2 + results.value.1;
    }
  }

  /** One item of the input: a sample of three lines, an instruction of
      the program, or a blank line. */
  datatype Item = SampleItem(sample: Sample) | InstructionItem(ins: Instruction) | BlankLine
  {
    function Consumed(): nat { if SampleItem? then 3 else 1 }
    function Samples(): seq<Sample> { if SampleItem? then [sample] else [] }
    function Program(): seq<Instruction> { if InstructionItem? then [ins] else [] }
  }

  /** The item at the head of the remaining lines: a line starting "Before:"
      opens a sample of three lines, whose first and third lines hold a
      register from their ninth character on; any other line that is not
      blank is an instruction of the program. */
  ghost function ReadItem(lines: seq<string>): (r: Option<Item>)
    requires lines != []
    ensures r.Some? ==> r.value.Consumed() <= |lines|
  {
    var line := lines[0];
    if "Before:" <= line then
      if |line| < 8 then None
      else
        var before := RegisterSpec(line[8..]);
        if before.None? || |lines| < 2 then None
        else
          var ins := ParseInstruction(lines[1]);
          if ins.Err? || |lines| < 3 || |lines[2]| < 8 then None
          else
            var after := RegisterSpec(lines[2][8..]);
            if after.None? then None
            else Some(SampleItem(Sample(before.value, ins.value, after.value)))
    else if Trim(line) == [] then Some(BlankLine)
    else
      var ins := ParseInstruction(line);
      if ins.Err? then None else Some(InstructionItem(ins.value))
  }

  /** What `parse` reads from the input's lines: its items in order. */
  ghost function ParseLines(lines: seq<string>): Option<(seq<Sample>, seq<Instruction>)>
    decreases |lines|
  {
    if lines == [] then Some(([], []))
    else
      var item := ReadItem(lines);
      if item.None? then None
      else Prepend(item.value.Samples(), item.value.Program(), ParseLines(lines[item.value.Consumed()..]))
  }

  /** One iteration of `parse`'s loop, reading the item at line `i`. A line
      too short to slice, where the source panics, is an error here. */
  method ReadNext(lines: seq<string>, i: nat) returns (r: Result<Item>)
    requires i < |lines|
    ensures r.Ok? <==> ReadItem(lines[i..]).Some?
    ensures r.Ok? ==> r.value == ReadItem(lines[i..]).value
  {
    ghost var rest := lines[i..];
    var line := lines[i];
    assert rest[0] == line;
    if "Before:" <= line {
      if |line| < 8 {
        return Err("byte index 8 is out of range");
      }
      var before := ParseRegister(line[8..]);
      if before.Err? {
        return Err(before.msg);
      }
      if i + 1 >= |lines| {
        return Err("sample instruction expected but no more input left");
      }
      assert rest[1] == lines[i + 1];
      var ins := ParseInstruction(lines[i + 1]);
      if ins.Err? {
        return Err(ins.msg);
      }
      if i + 2 >= |lines| {
        return Err("register after instruction expected but no more input left");
      }
      assert rest[2] == lines[i + 2];
      if |lines[i + 2]| < 8 {
        return Err("byte index 8 is out of range");
      }
      var after := ParseRegister(lines[i + 2][8..]);
      if after.Err? {
        return Err(after.msg);
      }
      return Ok(SampleItem(Sample(before.value, ins.value, after.value)));
    } else if Trim(line) != [] {
      var ins := ParseInstruction(line);
      if ins.Err? {
        return Err(ins.msg);
      }
      return Ok(InstructionItem(ins.value));
    }
    return Ok(BlankLine);
  }

  /** `parse`: the samples and the program of the puzzle input. */
  method Parse(input: string) returns (r: Result<(seq<Sample>, seq<Instruction>)>)
    ensures r.Ok? <==> ParseLines(Lines(input)).Some?
    ensures r.Ok? ==> r.value == ParseLines(Lines(input)).value
  {
    var lines := Lines(input);
    var samples: seq<Sample> := [];
    var program: seq<Instruction> := [];
    var i := 0;
    assert lines[0..] == lines;
    PrependNothing(ParseLines(lines));
    while i < |lines|
      invariant i <= |lines|
      invariant ParseLines(lines) == Prepend(samples, program, ParseLines(lines[i..]))
    {
      var item := ReadNext(lines, i);
      if item.Err? {
        return Err(item.msg);
      }
      var n := item.value.Consumed();
      assert lines[i..][n..] == lines[i + n..];
      PrependTwice(samples, program, item.value.Samples(), item.value.Program(), ParseLines(lines[i + n..]));
      samples := samples + item.value.Samples();
      program := program + item.value.Program();
      i := i + n;
    }
    assert samples + [] == samples && program + [] == program;
    return Ok((samples, program));
  }

  lemma PrependNothing(results: Option<(seq<Sample>, seq<Instruction>)>)
    ensures Prepend([], [], results) == results
  {
    if results.Some? {
      assert [] + results.value.0 == results.value.0;
      assert [] + results.value.1 == results.value.1;
    }
  }

  // ---------------------------------------------------------------------
  // Samples and the input as text

  /** The field ranges of a sample read from text. */
  predicate ValidSample(s: Sample)
  {
    && |s.before| == 4 && |s.after| == 4
    && (forall v <- s.before :: v <= U64_MAX) && (forall v <- s.after :: v <= U64_MAX)
    && InRange(s.instruction)
  }

  /** The three lines `Display for Sample` writes. */
  function SampleLines(s: Sample): seq<string>
    requires ValidSample(s)
  {
    ["Before: " + ShowRegister(s.before), ShowInstruction(s.instruction), "After:  " + ShowRegister(s.after)]
  }

  /** A sample as `Display for Sample` writes it, each line ended by a newline. */
  function ShowSample(s: Sample): string
    requires ValidSample(s)
  {
    Join(SampleLines(s), '\n') + "\n"
  }

  /** The samples, each followed by a blank line. */
  function SamplesLines(samples: seq<Sample>): seq<string>
    requires forall s <- samples :: ValidSample(s)
  {
    if samples == [] then []
    else SampleLines(samples[0]) + [""] + SamplesLines(samples[1..])
  }

  function ProgramLines(program: seq<Instruction>): (r: seq<string>)
    ensures |r| == |program| && forall k | 0 <= k < |r| :: r[k] == ShowInstruction(program[k])
  {
    if program == [] then [] else [ShowInstruction(program[0])] + ProgramLines(program[1..])
  }

  /** A puzzle input: the samples, a blank line, then the program. */
  function ShowInput(samples: seq<Sample>, program: seq<Instruction>): string
    requires forall s <- samples :: ValidSample(s)
  {
    Join(SamplesLines(samples) + [""] + ProgramLines(program), '\n') + "\n"
  }

  /** A written sample is read back as that sample, whatever follows it. */
  lemma ReadSampleLines(s: Sample, rest: seq<string>)
    requires ValidSample(s)
    ensures ReadItem(SampleLines(s) + rest) == Some(SampleItem(s))
  {
    var lines := SampleLines(s) + rest;
    var before, after := ShowRegister(s.before), ShowRegister(s.after);
    assert lines[0] == "Before: " + before && lines[1] == ShowInstruction(s.instruction);
    assert lines[2] == "After:  " + after;
    LabelledRegister("Before: ", before);
    LabelledRegister("After:  ", after);
    RegisterRoundTrip(s.before);
    RegisterRoundTrip(s.after);
    InstructionRoundTrip(s.instruction);
    ReadSampleItem(lines, s);
  }

  lemma LabelledRegister(tag: string, text: string)
    requires |tag| == 8
    ensures tag <= tag + text && (tag + text)[8..] == text
  {
  }

  /** The item of three lines that read as a sample's parts. */
  lemma ReadSampleItem(lines: seq<string>, s: Sample)
    requires |lines| >= 3 && "Before:" <= lines[0] && |lines[0]| >= 8 && |lines[2]| >= 8
    requires RegisterSpec(lines[0][8..]) == Some(s.before)
    requires ParseInstruction(lines[1]) == Ok(s.instruction)
    requires RegisterSpec(lines[2][8..]) == Some(s.after)
    ensures ReadItem(lines) == Some(SampleItem(s))
  {
  }

  lemma ReadInstructionLine(ins: Instruction, lines: seq<string>)
    requires InRange(ins) && lines != [] && lines[0] == ShowInstruction(ins)
    ensures ReadItem(lines) == Some(InstructionItem(ins))
  {
    var parts := [ShowNat(ins.opcode), ShowNat(ins.a), ShowNat(ins.b), ShowNat(ins.c)];
    var line := ShowInstruction(ins);
    JoinEnds(parts, ' ');
    assert IsDigit(parts[0][0]) && IsDigit(parts[3][|parts[3]| - 1]) by {
      assert parts[0][0] in parts[0] && parts[3][|parts[3]| - 1] in parts[3];
    }
    TrimKeeps(line);
    assert !("Before:" <= line) by {
      assert "Before:"[0] == 'B';
    }
    InstructionRoundTrip(ins);
  }

  lemma {:induction false} ParseSamplesLines(samples: seq<Sample>, rest: seq<string>)
    requires forall s <- samples :: ValidSample(s)
    ensures ParseLines(SamplesLines(samples) + rest) == Prepend(samples, [], ParseLines(rest))
    decreases |samples|
  {
    if samples == [] {
      assert SamplesLines(samples) + rest == rest;
      PrependNothing(ParseLines(rest));
    } else {
      var tail := SamplesLines(samples[1..]) + rest;
      SamplesLinesCons(samples, rest);
      SampleBlock(samples[0], tail);
      ParseSamplesLines(samples[1..], rest);
      PrependCons(samples, ParseLines(rest));
    }
  }

  lemma SamplesLinesCons(samples: seq<Sample>, rest: seq<string>)
    requires samples != [] && forall s <- samples :: ValidSample(s)
    ensures forall s <- samples[1..] :: ValidSample(s)
    ensures SamplesLines(samples) == SampleLines(samples[0]) + [""] + SamplesLines(samples[1..])
    ensures SamplesLines(samples) + rest == SampleLines(samples[0]) + [""] + (SamplesLines(samples[1..]) + rest)
  {
    assert forall t <- samples[1..] :: t in samples;
    var head := SampleLines(samples[0]) + [""];
    assert SamplesLines(samples) == head + SamplesLines(samples[1..]);
    Associates(head, SamplesLines(samples[1..]), rest);
  }

  lemma PrependCons(samples: seq<Sample>, results: Option<(seq<Sample>, seq<Instruction>)>)
    requires samples != []
    ensures Prepend([samples[0]], [], Prepend(samples[1..], [], results)) == Prepend(samples, [], results)
  {
    PrependTwice([samples[0]], [], samples[1..], [], results);
    assert [samples[0]] + samples[1..] == samples;
    var none: seq<Instruction> := [];
    assert none + none == none;
  }

  /** A written sample and the blank line after it. */
  lemma SampleBlock(s: Sample, tail: seq<string>)
    requires ValidSample(s)
    ensures ParseLines(SampleLines(s) + [""] + tail) == Prepend([s], [], ParseLines(tail))
  {
    var lines := SampleLines(s) + [""] + tail;
    assert lines == SampleLines(s) + ([""] + tail);
    ReadSampleLines(s, [""] + tail);
    assert lines[3..] == [""] + tail && lines[4..] == tail;
    ReadBlankLine(tail);
    SampleStep(lines, s);
  }

  lemma ReadBlankLine(tail: seq<string>)
    ensures ReadItem([""] + tail) == Some(BlankLine)
  {
    assert ([""] + tail)[0] == "";
    assert !("Before:" <= "");
    assert Trim("") == [];
  }

  lemma SampleStep(lines: seq<string>, s: Sample)
    requires |lines| >= 4 && ReadItem(lines) == Some(SampleItem(s))
    requires ReadItem(lines[3..]) == Some(BlankLine)
    ensures ParseLines(lines) == Prepend([s], [], ParseLines(lines[4..]))
  {
    ParseLinesStep(lines, SampleItem(s));
    ParseLinesStep(lines[3..], BlankLine);
    assert lines[3..][1..] == lines[4..];
    PrependNothing(ParseLines(lines[4..]));
  }

  lemma ParseProgramLines(program: seq<Instruction>)
    requires forall ins <- program :: InRange(ins)
    ensures ParseLines(ProgramLines(program)) == Some(([], program))
  {
    var lines := ProgramLines(program);
    forall k | 0 <= k < |lines|
      ensures ReadItem(lines[k..]) == Some(InstructionItem(program[k]))
    {
      ProgramLineAt(program, k);
    }
    ParseInstructionItems(lines, program);
  }

  lemma ProgramLineAt(program: seq<Instruction>, k: nat)
    requires k < |program| && InRange(program[k])
    ensures ReadItem(ProgramLines(program)[k..]) == Some(InstructionItem(program[k]))
  {
    var rest := ProgramLines(program)[k..];
    assert rest[0] == ShowInstruction(program[k]);
    ReadInstructionLine(program[k], rest);
  }

  /** Lines that each read as one instruction read as those instructions. */
  lemma {:induction false} ParseInstructionItems(lines: seq<string>, program: seq<Instruction>)
    requires |lines| == |program|
    requires forall k | 0 <= k < |lines| :: ReadItem(lines[k..]) == Some(InstructionItem(program[k]))
    ensures ParseLines(lines) == Some(([], program))
    decreases |lines|
  {
    if lines != [] {
      assert lines[0..] == lines;
      ParseLinesStep(lines, InstructionItem(program[0]));
      forall k | 0 <= k < |lines| - 1
        ensures ReadItem(lines[1..][k..]) == Some(InstructionItem(program[1..][k]))
      {
        assert lines[1..][k..] == lines[k + 1..];
      }
      ParseInstructionItems(lines[1..], program[1..]);
      var none: seq<Sample> := [];
      assert none + none == none;
      assert [program[0]] + program[1..] == program;
    }
  }

  /** One step of `ParseLines`, for an item known to be read. */
  lemma ParseLinesStep(lines: seq<string>, item: Item)
    requires lines != [] && ReadItem(lines) == Some(item)
    ensures ParseLines(lines) == Prepend(item.Samples(), item.Program(), ParseLines(lines[item.Consumed()..]))
  {
  }

  /** A line without line breaks. */
  predicate PlainLine(l: string)
  {
    forall c <- l :: c != '\n' && c != '\r'
  }

  lemma PlainSampleLines(s: Sample)
    requires ValidSample(s)
    ensures forall l <- SampleLines(s) :: PlainLine(l)
  {
    PlainRegister(s.before);
    PlainRegister(s.after);
    PlainInstruction(s.instruction);
  }

  lemma {:induction false} PlainSamplesLines(samples: seq<Sample>)
    requires forall s <- samples :: ValidSample(s)
    ensures forall l <- SamplesLines(samples) :: PlainLine(l)
    decreases |samples|
  {
    if samples != [] {
      SamplesLinesCons(samples, []);
      PlainSampleLines(samples[0]);
      PlainSamplesLines(samples[1..]);
    }
  }

  lemma PlainRegister(r: seq<nat>)
    requires |r| == 4
    ensures forall c <- ShowRegister(r) :: c != '\n' && c != '\r'
  {
    var d0, d1, d2, d3 := ShowNat(r[0]), ShowNat(r[1]), ShowNat(r[2]), ShowNat(r[3]);
    assert ShowRegister(r) == "[" + d0 + ", " + d1 + ", " + d2 + ", " + d3 + "]";
  }

  lemma PlainInstruction(ins: Instruction)
    ensures PlainLine(ShowInstruction(ins))
  {
    var parts := [ShowNat(ins.opcode), ShowNat(ins.a), ShowNat(ins.b), ShowNat(ins.c)];
    JoinChars(parts, ' ');
  }

  /** Plain lines, each ended by a newline, are read back as those lines. */
  lemma LinesOfPlain(lines: seq<string>)
    requires |lines| >= 1 && forall l <- lines :: PlainLine(l)
    ensures Lines(Join(lines, '\n') + "\n") == lines
  {
    forall l <- lines
      ensures '\n' !in l && (l == [] || l[|l| - 1] != '\r')
    {
      assert l != [] ==> l[|l| - 1] in l;
    }
    LinesTerminated(lines);
  }

  /** The input's lines are read as its samples and program. */
  lemma ParseInputLines(samples: seq<Sample>, program: seq<Instruction>)
    requires forall s <- samples :: ValidSample(s)
    requires forall ins <- program :: InRange(ins)
    ensures ParseLines(SamplesLines(samples) + [""] + ProgramLines(program)) == Some((samples, program))
  {
    var tail := [""] + ProgramLines(program);
    Associates(SamplesLines(samples), [""], ProgramLines(program));
    ParseSamplesLines(samples, tail);
    ReadBlankLine(ProgramLines(program));
    ParseLinesStep(tail, BlankLine);
    assert tail[1..] == ProgramLines(program);
    ParseProgramLines(program);
    PrependNothing(ParseLines(tail[1..]));
    assert samples + [] == samples;
  }

  /** The written input is read back as the same samples and program. */
  lemma InputRoundTrip(samples: seq<Sample>, program: seq<Instruction>)
    requires forall s <- samples :: ValidSample(s)
    requires forall ins <- program :: InRange(ins)
    ensures ParseLines(Lines(ShowInput(samples, program))) == Some((samples, program))
  {
    var lines := SamplesLines(samples) + [""] + ProgramLines(program);
    PlainSamplesLines(samples);
    forall l <- ProgramLines(program)
      ensures PlainLine(l)
    {
      var k :| 0 <= k < |program| && ProgramLines(program)[k] == l;
      PlainInstruction(program[k]);
    }
    assert forall l <- lines :: PlainLine(l);
    LinesOfPlain(lines);
    ParseInputLines(samples, program);
  }

  /** The sample of the puzzle's manual as text. */
  const ManualSampleText: string :=
    "Before: [3, 2, 1, 1]" + "\n" + "9 2 1 2" + "\n" + "After:  [3, 2, 2, 1]" + "\n"

  /** The manual's sample is written as its text. */
  lemma ManualSampleShown()
    ensures ShowSample(ManualSampleOf) == ManualSampleText
  {
    ManualRegisterShown([3, 2, 1, 1], "[3, 2, 1, 1]");
    ManualRegisterShown([3, 2, 2, 1], "[3, 2, 2, 1]");
    ManualInstructionShown();
    SampleText(ManualSampleOf, "[3, 2, 1, 1]", "9 2 1 2", "[3, 2, 2, 1]");
    ManualTextPieces();
  }

  lemma ManualRegisterShown(r: seq<nat>, text: string)
    requires (r == [3, 2, 1, 1] && text == "[3, 2, 1, 1]") || (r == [3, 2, 2, 1] && text == "[3, 2, 2, 1]")
    ensures |r| == 4 && ShowRegister(r) == text
  {
  }

  lemma ManualInstructionShown()
    ensures ShowInstruction(Instruction(9, 2, 1, 2)) == "9 2 1 2"
  {
    JoinFour("9", "2", "1", "2", ' ');
  }

  lemma JoinFour(a: string, b: string, c: string, d: string, sep: char)
    ensures Join([a, b, c, d], sep) == a + [sep] + b + [sep] + c + [sep] + d
  {
    assert [a, b, c, d][1..] == [b, c, d];
    JoinThree(b, c, d, sep);
  }

  lemma ManualTextPieces()
    ensures "Before: " + "[3, 2, 1, 1]" == "Before: [3, 2, 1, 1]"
    ensures "After:  " + "[3, 2, 2, 1]" == "After:  [3, 2, 2, 1]"
  {
  }

  /** A sample's text from the texts of its parts. */
  lemma SampleText(s: Sample, before: string, ins: string, after: string)
    requires ValidSample(s)
    requires ShowRegister(s.before) == before && ShowInstruction(s.instruction) == ins
    requires ShowRegister(s.after) == after
    ensures ShowSample(s) == ("Before: " + before) + "\n" + ins + "\n" + ("After:  " + after) + "\n"
  {
    JoinThree("Before: " + before, ins, "After:  " + after, '\n');
  }

  lemma JoinThree(a: string, b: string, c: string, sep: char)
    ensures Join([a, b, c], sep) == a + [sep] + b + [sep] + c
  {
    assert [a, b, c][1..] == [b, c] && [b, c][1..] == [c];
    assert Join([b, c], sep) == b + [sep] + c;
    assert a + [sep] + (b + [sep] + c) == a + [sep] + b + [sep] + c;
  }

  /** The manual's text is read as its one sample and no program. */
  lemma ManualSampleRead()
    ensures ParseLines(Lines(ManualSampleText)) == Some(([ManualSampleOf], []))
  {
    ManualSampleShown();
    ReadShownSample(ManualSampleOf, ManualSampleText);
  }

  /** A written sample on its own is read back as that sample. */
  lemma ReadShownSample(s: Sample, text: string)
    requires ValidSample(s) && ShowSample(s) == text
    ensures ParseLines(Lines(text)) == Some(([s], []))
  {
    var lines := SampleLines(s);
    PlainSampleLines(s);
    LinesOfPlain(lines);
    ReadSampleLines(s, []);
    assert lines + [] == lines;
    OnlySample(lines, s);
  }

  lemma PrependSingle(s: Sample)
    ensures Prepend([s], [], Some(([], []))) == Some(([s], []))
  {
    var none: seq<Instruction> := [];
    assert [s] + [] == [s] && none + none == none;
  }

  lemma NoLines(lines: seq<string>)
    requires |lines| == 0
    ensures ParseLines(lines) == Some(([], []))
  {
  }

  lemma OnlySample(lines: seq<string>, s: Sample)
    requires |lines| == 3 && ReadItem(lines) == Some(SampleItem(s))
    ensures ParseLines(lines) == Some(([s], []))
  {
    var none: seq<Instruction> := [];
    calc {
      ParseLines(lines);
      { ParseLinesStep(lines, SampleItem(s)); }
      Prepend([s], none, ParseLines(lines[3..]));
      { NoLines(lines[3..]); }
      Prepend([s], none, Some(([], none)));
      { PrependSingle(s); }
      Some(([s], none));
    }
  }
}
