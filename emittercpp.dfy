/**
 * The translator of the C++ variant: for the instruction at bytecode address
 * `pc` the bytes written into the slot at code offset 4*pc.  Registers are
 * addressed as [rdi + 4*r] and memory through rdx as in the C variant, but
 * the counter displacements are eight times the opcode over 32-bit
 * counters, the status is saved whole by `pushf` through rcx and restored
 * by `popf`, and relative jumps are computed for a 9- and 14-byte layout.
 */
module EmitterCpp {
  import opened Words
  import opened Isa
  import opened CodeCache

  /** `uint32_t target_pc = pc + 4 + offset`, the offset sign-extended. */
  function Target(pc: nat, offset: Half): Word
  {
    Wrap32(pc + INSTRUCTION_SIZE + ToInt16(offset))
  }

  /** `(target_pc - pc) * 4 - adjust`, as the int32_t the rel32 holds. */
  function Rel(t: Word, pc: nat, adjust: nat): Word
  {
    Wrap32((t - pc) * 4 - adjust)
  }

  /** `inc dword ptr [rsi + d8]` followed by `mov eax, [rcx]; push rax; popf`: the head of JG/JL/JE. */
  function RestoreFlags(d8: Byte): (b: seq<Byte>)
    ensures |b| == 7
  {
    [0xFF, 0x46, d8, 0x8B, 0x01, 0x50, 0x9D]
  }

  /**
   * The body emitted for `i` at `pc`.  It never reaches the last byte of its
   * slot; the body of ADD stops after the first two bytes of its `inc`, and
   * the bodies of SAL and SAR are one byte shorter than the trampoline.
   */
  function Emit(i: Instr, pc: nat): (body: seq<Byte>)
    requires pc < MEMORY_SIZE
    ensures |body| <= SLOT_SIZE - 1
    ensures i.Invalid? <==> body == []
  {
    match i
    case MovImm(rx, imm) =>
      [0xC7, 0x47, Disp(rx)] + LE32(SignExtend16(imm)) + [0xFF, 0x06]
    case MovReg(rx, ry) =>
      [0x8B, 0x47, Disp(ry), 0x89, 0x47, Disp(rx), 0xFF, 0x46, 0x08]
    case Load(rx, ry) =>
      [0x8B, 0x47, Disp(ry), 0x8B, 0x04, 0x02, 0x89, 0x47, Disp(rx), 0xFF, 0x46, 0x10]
    case Store(rx, ry) =>
      [0x8B, 0x47, Disp(rx), 0x8B, 0x4F, Disp(ry), 0x89, 0x0C, 0x02, 0xFF, 0x46, 0x18]
    case Cmp(rx, ry) =>
      [0x8B, 0x47, Disp(rx), 0x3B, 0x47, Disp(ry), 0x9C, 0x58, 0x89, 0x01, 0xFF, 0x46, 0x20]
    case Jump(c, offset) =>
      var t := Target(pc, offset);
      (match c
       case Always =>
         [0xFF, 0x46, 0x28]
         + (if t >= MEMORY_SIZE then ExitTo(t) else [0xE9] + LE32(Rel(t, pc, 9)))
       case Greater =>
         RestoreFlags(0x30)
         + (if t >= MEMORY_SIZE then [0x7E, 0x06] + ExitTo(t) else [0x0F, 0x8F] + LE32(Rel(t, pc, 14)))
       case Less =>
         RestoreFlags(0x38)
         + (if t >= MEMORY_SIZE then [0x7D, 0x06] + ExitTo(t) else [0x0F, 0x8C] + LE32(Rel(t, pc, 14)))
       case Equal =>
         RestoreFlags(0x40)
         + (if t >= MEMORY_SIZE then ExitTo(t) else [0x0F, 0x84] + LE32(Rel(t, pc, 14))))
    case Alu(Add, rx, ry) =>
      [0x8B, 0x47, Disp(ry), 0x01, 0x47, Disp(rx), 0xFF, 0x46]
    case Alu(op, rx, ry) =>
      [0x8B, 0x47, Disp(ry), AluByte(op), 0x47, Disp(rx), 0xFF, 0x46, AluCounter(op)]
    case ShiftLeft(rx, n) =>
      [0xC1, 0x67, Disp(rx), n, 0xFF, 0x46, 0x70]
    case ShiftRight(rx, n) =>
      [0xC1, 0x7F, Disp(rx), n, 0xFF, 0x46, 0x78]
    case Invalid(_) =>
      []
  }

  /** The instruction of an ALU opcode in its `op dword ptr [rdi + d8], eax` form. */
  function AluByte(op: AluOp): Byte
  {
    match op case Add => 0x01 case Sub => 0x29 case And => 0x21 case Or => 0x09 case Xor => 0x31
  }

  /** The disp8 of the counter `inc` of SUB, AND, OR and XOR (ADD's is missing). */
  function AluCounter(op: AluOp): Byte
    requires !op.Add?
  {
    if op.Sub? then 0x50 else if op.And? then 0x58 else if op.Or? then 0x60 else 0x68
  }

  /** Where in a body its counter `inc` starts. */
  function IncSite(i: Instr): nat
  {
    match i
    case MovImm(_, _) => 7
    case MovReg(_, _) => 6
    case Load(_, _) => 9
    case Store(_, _) => 9
    case Cmp(_, _) => 10
    case Jump(_, _) => 0
    case Alu(_, _, _) => 6
    case ShiftLeft(_, _) => 4
    case ShiftRight(_, _) => 4
    case Invalid(_) => 0
  }

  /**
   * The 32-bit counter each body's `inc` reaches, as an index into
   * `instruction_counts`: the displacement over four.  ADD's displacement is
   * the NOP (0x90) that follows its body in the slot, read as -112.
   */
  function CounterIndex(i: Instr): int
  {
    match i
    case MovImm(_, _) => 0
    case MovReg(_, _) => 2
    case Load(_, _) => 4
    case Store(_, _) => 6
    case Cmp(_, _) => 8
    case Jump(c, _) =>
      (match c case Always => 10 case Greater => 12 case Less => 14 case Equal => 16)
    case Alu(op, _, _) =>
      (match op case Add => -28 case Sub => 20 case And => 22 case Or => 24 case Xor => 26)
    case ShiftLeft(_, _) => 28
    case ShiftRight(_, _) => 30
    case Invalid(_) => 0
  }

  /** The `inc` of every body, as the slot holds it, addresses the counter `CounterIndex`. */
  lemma {:induction false} CounterSite(i: Instr, pc: nat)
    requires pc < MEMORY_SIZE && !i.Invalid?
    ensures CounterOperand(Overlay(Emit(i, pc)), IncSite(i)) == Some(4 * CounterIndex(i))
  {
    var body := Emit(i, pc);
    var slot := Overlay(body);
    assert slot[..|body|] == body;
    match i
    case Alu(op, _, _) =>
      match op {
        case Add => assert slot[8] == EmptySlot()[8] == NOP;
        case Sub => case And => case Or => case Xor =>
      }
    case Jump(c, _) =>
      match c { case Always => case Greater => case Less => case Equal => }
    case _ =>
  }

  /**
   * The displacements are scaled for 64-bit counters over a table of 32-bit
   * ones: every body but ADD's increments counter 2*opcode, so only opcodes
   * below 8 reach a counter of the sixteen at all.
   */
  lemma {:induction false} MisplacedCounters(i: Instr)
    requires WellFormed(i) && !i.Invalid?
    ensures !(i.Alu? && i.op.Add?) ==> CounterIndex(i) == 2 * Opcode(i)
    ensures 0 <= CounterIndex(i) < REGISTERS_NUM <==> Opcode(i) < 8
    ensures CounterIndex(i) == 0 <==> Opcode(i) == 0
  {
    match i
    case Alu(op, _, _) =>
      match op { case Add => case Sub => case And => case Or => case Xor => }
    case Jump(c, _) =>
      match c { case Always => case Greater => case Less => case Equal => }
    case _ =>
  }

  /** MOV_IMM stores the sign-extended immediate, little-endian, into [rdi + 4*rx]. */
  lemma {:induction false} ImmediateField(rx: Reg, imm: Half, pc: nat)
    requires pc < MEMORY_SIZE
    ensures var body := Emit(MovImm(rx, imm), pc);
      body[2] == 4 * rx && ToInt32(FromLE32(body[3..7])) == ToInt16(imm)
  {
    var body := Emit(MovImm(rx, imm), pc);
    assert body[3..7] == LE32(SignExtend16(imm));
  }

  /**
   * The register operands: MOV, LOAD and the ALU forms read [rdi + 4*ry] and
   * write [rdi + 4*rx]; STORE reads the address from rx and the value from
   * ry, CMP compares rx with ry.
   */
  lemma {:induction false} RegisterFields(i: Instr, pc: nat)
    requires pc < MEMORY_SIZE && (i.MovReg? || i.Load? || i.Store? || i.Cmp? || i.Alu?)
    ensures var body := Emit(i, pc);
      && (i.MovReg? || i.Alu? ==> body[2] == 4 * i.ry && body[5] == 4 * i.rx)
      && (i.Load? ==> body[2] == 4 * i.ry && body[8] == 4 * i.rx)
      && (i.Store? || i.Cmp? ==> body[2] == 4 * i.rx && body[5] == 4 * i.ry)
  {
    if i.Alu? {
      match i.op { case Add => case Sub => case And => case Or => case Xor => }
    }
  }

  /**
   * SAL and SAR carry the five-bit amount as their imm8 and are seven bytes
   * long, so the slot keeps the `ret` of the trampoline right after them.
   */
  lemma {:induction false} StaleReturn(i: Instr, pc: nat)
    requires pc < MEMORY_SIZE && (i.ShiftLeft? || i.ShiftRight?)
    ensures var body := Emit(i, pc);
      && |body| == 7 && body[2] == 4 * i.rx && body[3] == i.amount
      && Overlay(body)[7] == RET
  {
    assert EmptySlot()[..8] == Trampoline();
  }

  /**
   * An in-range jump lands one byte before the target's slot: JMP's rel32
   * ends 8 bytes into the slot and is computed for 9, JG/JL/JE's ends 13 in
   * and is computed for 14.
   */
  lemma {:induction false} JumpLanding(c: Cond, offset: Half, pc: nat)
    requires pc < MEMORY_SIZE && Target(pc, offset) < MEMORY_SIZE
    ensures var body := Emit(Jump(c, offset), pc);
      && |body| == (if c.Always? then 8 else 13)
      && Landing(4 * pc, body, |body|) == 4 * Target(pc, offset) - 1
  {
    var t := Target(pc, offset);
    var body := Emit(Jump(c, offset), pc);
    var (prefix, adjust) := match c
      case Always => ([0xFF, 0x46, 0x28, 0xE9], 9)
      case Greater => (RestoreFlags(0x30) + [0x0F, 0x8F], 14)
      case Less => (RestoreFlags(0x38) + [0x0F, 0x8C], 14)
      case Equal => (RestoreFlags(0x40) + [0x0F, 0x84], 14);
    assert body == prefix + LE32(Rel(t, pc, adjust));
    RelLands(prefix, t, pc, adjust);
  }

  /** A rel32 computed for `adjust` and placed to end `adjust - 1` bytes into the slot lands one byte before slot `t`. */
  lemma {:induction false} RelLands(prefix: seq<Byte>, t: Word, pc: nat, adjust: nat)
    requires pc < MEMORY_SIZE && t < MEMORY_SIZE && adjust == |prefix| + 5 <= SLOT_SIZE
    ensures var body := prefix + LE32(Rel(t, pc, adjust));
      Landing(4 * pc, body, |body|) == 4 * t - 1
  {
    var body := prefix + LE32(Rel(t, pc, adjust));
    var d := (t - pc) * 4 - adjust;
    assert -TWO31 <= d < TWO31;
    Int32RoundTrip(d);
    assert body[|body| - 4..] == LE32(Wrap32(d));
  }

  /**
   * An out-of-range jump ends in `mov eax, target; ret`.  In JG and JL the
   * inverted short jump before it skips exactly those six bytes, onto the end
   * of the body; JE has no short jump, so it leaves whether or not ZF is set.
   */
  lemma {:induction false} JumpExit(c: Cond, offset: Half, pc: nat)
    requires pc < MEMORY_SIZE && Target(pc, offset) >= MEMORY_SIZE
    ensures var body := Emit(Jump(c, offset), pc);
      && |body| >= 6 && body[|body| - 6..] == ExitTo(Target(pc, offset))
      && FromLE32(body[|body| - 5..|body| - 1]) == Target(pc, offset)
      && (c.Greater? || c.Less? ==> |body| == 15 && body[8] == 6 && 9 + body[8] == |body|)
      && (c.Equal? ==> |body| == 13 && body[7] == 0xB8)
  {
    var body := Emit(Jump(c, offset), pc);
    var t := Target(pc, offset);
    var prefix: seq<Byte> := match c
      case Always => [0xFF, 0x46, 0x28]
      case Greater => RestoreFlags(0x30) + [0x7E, 0x06]
      case Less => RestoreFlags(0x38) + [0x7D, 0x06]
      case Equal => RestoreFlags(0x40);
    assert body == prefix + ExitTo(t);
    ExitTail(prefix, t);
  }

  /**
   * The target is the signed sum modulo 2^32: a jump back past address 0
   * wraps to a word of at least 2^32 - 2^15 and so leaves through the exit.
   */
  lemma {:induction false} TargetWraps(pc: nat, offset: Half)
    requires pc < MEMORY_SIZE
    ensures 0 <= pc + INSTRUCTION_SIZE + ToInt16(offset) ==> Target(pc, offset) == pc + INSTRUCTION_SIZE + ToInt16(offset)
    ensures pc + INSTRUCTION_SIZE + ToInt16(offset) < 0 ==> Target(pc, offset) >= TWO32 - 0x8000
    ensures pc >= 4 ==> Target(pc, 0xFFF8) == pc - 4
  {
    var n := pc + INSTRUCTION_SIZE + ToInt16(offset);
    if n < 0 {
      assert Target(pc, offset) == n + TWO32;
    }
  }
}
