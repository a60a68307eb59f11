/**
 * The translator of the C variant: for the instruction at bytecode address
 * `pc` the bytes written into the slot at code offset 4*pc.  Registers are
 * addressed as [rdi + 4*r], counters as [rsi + 4*k], memory through rdx and
 * the byte saved by `lahf` through rcx.
 */
module EmitterC {
  import opened Words
  import opened Isa
  import opened CodeCache

  /** `uint16_t target_pc = pc + 4 + offset`, the offset zero-extended. */
  function Target(pc: nat, offset: Half): (t: nat)
    ensures t < TWO16
  {
    (pc + INSTRUCTION_SIZE + offset) % TWO16
  }

  /** The instruction of an ALU opcode in its `op dword ptr [rdi + d8], eax` form. */
  function AluByte(op: AluOp): Byte
  {
    match op case Add => 0x01 case Sub => 0x29 case And => 0x21 case Or => 0x09 case Xor => 0x31
  }

  /** The disp8 of the counter `inc` of an ALU opcode. */
  function AluCounter(op: AluOp): Byte
  {
    match op case Add => 0x24 case Sub => 0x28 case And => 0x2C case Or => 0x30 case Xor => 0x34
  }

  /**
   * The body emitted for `i` at `pc`.  It never reaches the next slot, and
   * every body but the empty one of an undefined opcode covers the whole
   * trampoline it replaces.
   */
  function Emit(i: Instr, pc: nat): (body: seq<Byte>)
    requires pc < MEMORY_SIZE
    ensures |body| <= SLOT_SIZE - 1
    ensures i.Invalid? <==> body == []
    ensures !i.Invalid? ==> |body| >= |Trampoline()|
  {
    match i
    case MovImm(rx, imm) =>
      [0xC7, 0x47, Disp(rx)] + LE32(SignExtend16(imm)) + [0xFF, 0x06]
    case MovReg(rx, ry) =>
      [0x8B, 0x47, Disp(ry), 0x89, 0x47, Disp(rx), 0xFF, 0x46, 0x04]
    case Load(rx, ry) =>
      [0x8B, 0x47, Disp(ry), 0x0F, 0xB6, 0xC0, 0x8B, 0x04, 0x02, 0x89, 0x47, Disp(rx), 0xFF, 0x46, 0x08]
    case Store(rx, ry) =>
      [0x53, 0x8B, 0x47, Disp(rx), 0x8B, 0x5F, Disp(ry), 0x89, 0x1C, 0x02, 0x5B, 0xFF, 0x46, 0x0C]
    case Cmp(rx, ry) =>
      [0x8B, 0x47, Disp(rx), 0x3B, 0x47, Disp(ry), 0x9F, 0x8A, 0xC4, 0x88, 0x01, 0xFF, 0x46, 0x10]
    case Jump(c, offset) =>
      var t := Target(pc, offset);
      (match c
       case Always =>
         [0xFF, 0x46, 0x14]
         + (if t >= MEMORY_SIZE then ExitTo(t) else [0xE9] + LE32(Wrap32((t - pc) * 4 - 8)))
       case Greater =>
         [0xFF, 0x46, 0x18, 0xF6, 0x01, 0xC0]
         + (if t >= MEMORY_SIZE then [0x75, 0x06] + ExitTo(t) else [0x0F, 0x84] + LE32(Wrap32((t - pc) * 4 - 12)))
       case Less =>
         [0xFF, 0x46, 0x1C, 0xF6, 0x01, 0x80]
         + (if t >= MEMORY_SIZE then [0x74, 0x06] + ExitTo(t) else [0x0F, 0x85] + LE32(Wrap32((t - pc) * 4 - 12)))
       case Equal =>
         [0xFF, 0x46, 0x20, 0xF6, 0x01, 0x40]
         + (if t >= MEMORY_SIZE then [0x74, 0x06] + ExitTo(t) else [0x0F, 0x85] + LE32(Wrap32((t - pc) * 4 - 12))))
    case Alu(op, rx, ry) =>
      [0x8B, 0x47, Disp(ry), AluByte(op), 0x47, Disp(rx), 0xFF, 0x46, AluCounter(op)]
    case ShiftLeft(rx, n) =>
      [0xC1, 0x67, Disp(rx), n, 0xFF, 0x46, 0x38, NOP]
    case ShiftRight(rx, n) =>
      [0xC1, 0x7F, Disp(rx), n, 0xFF, 0x46, 0x3C, NOP]
    case Invalid(_) =>
      []
  }

  /** Where in a body its counter `inc` starts. */
  function IncSite(i: Instr): nat
  {
    match i
    case MovImm(_, _) => 7
    case MovReg(_, _) => 6
    case Load(_, _) => 12
    case Store(_, _) => 11
    case Cmp(_, _) => 11
    case Jump(_, _) => 0
    case Alu(_, _, _) => 6
    case ShiftLeft(_, _) => 4
    case ShiftRight(_, _) => 4
    case Invalid(_) => 0
  }

  /**
   * The counter displacement is four times the opcode, so the body of opcode
   * k increments exactly `instruction_counts[k]`.
   */
  lemma {:induction false} CounterSite(i: Instr, pc: nat)
    requires pc < MEMORY_SIZE && WellFormed(i) && !i.Invalid?
    ensures CounterOperand(Overlay(Emit(i, pc)), IncSite(i)) == Some(4 * Opcode(i))
  {
    var body := Emit(i, pc);
    assert Overlay(body)[..|body|] == body;
    match i
    case Alu(op, _, _) =>
      match op { case Add => case Sub => case And => case Or => case Xor => }
    case Jump(c, _) =>
      match c { case Always => case Greater => case Less => case Equal => }
    case _ =>
  }

  /** MOV_IMM stores the sign-extended immediate, little-endian, into [rdi + 4*rx]. */
  lemma {:induction false} ImmediateField(rx: Reg, imm: Half, pc: nat)
    requires pc < MEMORY_SIZE
    ensures var body := Emit(MovImm(rx, imm), pc);
      body[2] == 4 * rx && ToInt32(FromLE32(body[3..7])) == ToInt16(imm)
  {
    var body := Emit(MovImm(rx, imm), pc);
    assert body[3..7] == LE32(SignExtend16(imm));
  }

  /** The operands the register forms address: [rdi + 4*ry] read, [rdi + 4*rx] written. */
  lemma {:induction false} RegisterFields(i: Instr, pc: nat)
    requires pc < MEMORY_SIZE && (i.MovReg? || i.Load? || i.Alu?)
    ensures var body := Emit(i, pc);
      body[2] == 4 * i.ry && body[|body| - 4] == 4 * i.rx
  {
  }

  /** SAL and SAR carry the five-bit amount as their imm8, and the target register as disp8. */
  lemma {:induction false} ShiftFields(i: Instr, pc: nat)
    requires pc < MEMORY_SIZE && (i.ShiftLeft? || i.ShiftRight?)
    ensures var body := Emit(i, pc); body[2] == 4 * i.rx && body[3] == i.amount
  {
  }

  /**
   * An in-range jump lands exactly on the first byte of the target's slot:
   * JMP's rel32 ends 8 bytes into the slot, JG/JL/JE's 12 bytes in.
   */
  lemma {:induction false} JumpLanding(c: Cond, offset: Half, pc: nat)
    requires pc < MEMORY_SIZE && Target(pc, offset) < MEMORY_SIZE
    ensures var body := Emit(Jump(c, offset), pc);
      && |body| == (if c.Always? then 8 else 12)
      && Landing(4 * pc, body, |body|) == 4 * Target(pc, offset)
  {
    var t := Target(pc, offset);
    var body := Emit(Jump(c, offset), pc);
    var prefix: seq<Byte> := match c
      case Always => [0xFF, 0x46, 0x14, 0xE9]
      case Greater => [0xFF, 0x46, 0x18, 0xF6, 0x01, 0xC0, 0x0F, 0x84]
      case Less => [0xFF, 0x46, 0x1C, 0xF6, 0x01, 0x80, 0x0F, 0x85]
      case Equal => [0xFF, 0x46, 0x20, 0xF6, 0x01, 0x40, 0x0F, 0x85];
    assert body == prefix + LE32(Wrap32((t - pc) * 4 - (|prefix| + 4)));
    RelLands(prefix, t, pc);
  }

  /** A rel32 computed from the body's own length, placed at its end, lands on slot `t`. */
  lemma {:induction false} RelLands(prefix: seq<Byte>, t: nat, pc: nat)
    requires pc < MEMORY_SIZE && t < MEMORY_SIZE && |prefix| + 4 <= SLOT_SIZE
    ensures var body := prefix + LE32(Wrap32((t - pc) * 4 - (|prefix| + 4)));
      Landing(4 * pc, body, |body|) == 4 * t
  {
    var d := (t - pc) * 4 - (|prefix| + 4);
    var body := prefix + LE32(Wrap32(d));
    assert -TWO31 <= d < TWO31;
    Int32RoundTrip(d);
    assert body[|body| - 4..] == LE32(Wrap32(d));
  }

  /**
   * An out-of-range jump ends in `mov eax, target; ret`; in JG/JL/JE the short
   * jump before it skips exactly those six bytes, onto the end of the body.
   */
  lemma {:induction false} JumpExit(c: Cond, offset: Half, pc: nat)
    requires pc < MEMORY_SIZE && Target(pc, offset) >= MEMORY_SIZE
    ensures var body := Emit(Jump(c, offset), pc);
      && |body| >= 6 && body[|body| - 6..] == ExitTo(Target(pc, offset))
      && FromLE32(body[|body| - 5..|body| - 1]) == Target(pc, offset)
      && (!c.Always? ==> |body| == 14 && body[7] == 6 && 8 + body[7] == |body|)
  {
    var body := Emit(Jump(c, offset), pc);
    var t := Target(pc, offset);
    var prefix: seq<Byte> := match c
      case Always => [0xFF, 0x46, 0x14]
      case Greater => [0xFF, 0x46, 0x18, 0xF6, 0x01, 0xC0, 0x75, 0x06]
      case Less => [0xFF, 0x46, 0x1C, 0xF6, 0x01, 0x80, 0x74, 0x06]
      case Equal => [0xFF, 0x46, 0x20, 0xF6, 0x01, 0x40, 0x74, 0x06];
    assert body == prefix + ExitTo(t);
    ExitTail(prefix, t);
  }

  /** The zero-extended offset reaches the same target as the signed one, modulo 2^16. */
  lemma {:induction false} TargetWraps(pc: nat, offset: Half)
    requires pc < MEMORY_SIZE
    ensures Target(pc, offset) == (pc + INSTRUCTION_SIZE + ToInt16(offset)) % TWO16
    ensures pc >= 4 ==> Target(pc, 0xFFF8) == pc - 4
  {
    if offset >= 0x8000 {
      assert pc + INSTRUCTION_SIZE + offset == (pc + INSTRUCTION_SIZE + ToInt16(offset)) + TWO16;
    }
  }
}
