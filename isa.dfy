/**
 * The bytecode both engines execute: the 4-byte instruction format, its
 * decoder, and the reference semantics of the sixteen opcodes on a machine
 * of sixteen 32-bit registers, 256 bytes of memory, sixteen execution
 * counters and the processor status saved by the last compare.
 */
module Isa {
  import opened Words

  const REGISTERS_NUM: nat := 16
  const MEMORY_SIZE: nat := 256
  const INSTRUCTION_SIZE: nat := 4

  type Reg = r: nat | r < 16
  type Shift = n: nat | n < 32
  /** The raw little-endian 16-bit field in bytes 2..3 of an instruction. */
  type Half = h: nat | h < 0x1_0000

  datatype AluOp = Add | Sub | And | Or | Xor

  /** Which condition a jump tests: JMP, JG, JL, JE. */
  datatype Cond = Always | Greater | Less | Equal

  datatype Instr =
    | MovImm(rx: Reg, imm: Half)          // 0x00  rx := sign-extended imm
    | MovReg(rx: Reg, ry: Reg)            // 0x01  rx := ry
    | Load(rx: Reg, ry: Reg)              // 0x02  rx := mem32[ry]
    | Store(rx: Reg, ry: Reg)             // 0x03  mem32[rx] := ry
    | Cmp(rx: Reg, ry: Reg)               // 0x04  flags := compare(rx, ry)
    | Jump(cond: Cond, offset: Half)      // 0x05..0x08  JMP, JG, JL, JE
    | Alu(op: AluOp, rx: Reg, ry: Reg)    // 0x09..0x0D  ADD, SUB, AND, OR, XOR
    | ShiftLeft(rx: Reg, amount: Shift)   // 0x0E  SAL
    | ShiftRight(rx: Reg, amount: Shift)  // 0x0F  SAR
    | Invalid(opcode: Byte)               // any other opcode byte

  /** Every instruction the decoder can produce: an Invalid one has an undefined opcode. */
  predicate WellFormed(i: Instr)
  {
    i.Invalid? ==> i.opcode >= 16
  }

  /** The opcode byte of an instruction, which is also the index of its execution counter. */
  function Opcode(i: Instr): Byte
  {
    match i
    case MovImm(_, _) => 0x00
    case MovReg(_, _) => 0x01
    case Load(_, _) => 0x02
    case Store(_, _) => 0x03
    case Cmp(_, _) => 0x04
    case Jump(c, _) =>
      (match c case Always => 0x05 case Greater => 0x06 case Less => 0x07 case Equal => 0x08)
    case Alu(op, _, _) =>
      (match op case Add => 0x09 case Sub => 0x0A case And => 0x0B case Or => 0x0C case Xor => 0x0D)
    case ShiftLeft(_, _) => 0x0E
    case ShiftRight(_, _) => 0x0F
    case Invalid(op) => op
  }

  /**
   * The decoder: byte 0 is the opcode, the high and low nibbles of byte 1 are
   * rx and ry, bytes 2..3 are a little-endian 16-bit field and the low five
   * bits of byte 3 are the shift amount.
   */
  function Decode(b0: Byte, b1: Byte, b2: Byte, b3: Byte): (i: Instr)
    ensures Opcode(i) == b0
    ensures WellFormed(i)
  {
    var rx: Reg := b1 / 16;
    var ry: Reg := b1 % 16;
    var half: Half := b2 + 0x100 * b3;
    var shift: Shift := b3 % 32;
    match b0
    case 0x00 => MovImm(rx, half)
    case 0x01 => MovReg(rx, ry)
    case 0x02 => Load(rx, ry)
    case 0x03 => Store(rx, ry)
    case 0x04 => Cmp(rx, ry)
    case 0x05 => Jump(Always, half)
    case 0x06 => Jump(Greater, half)
    case 0x07 => Jump(Less, half)
    case 0x08 => Jump(Equal, half)
    case 0x09 => Alu(Add, rx, ry)
    case 0x0A => Alu(Sub, rx, ry)
    case 0x0B => Alu(And, rx, ry)
    case 0x0C => Alu(Or, rx, ry)
    case 0x0D => Alu(Xor, rx, ry)
    case 0x0E => ShiftLeft(rx, shift)
    case 0x0F => ShiftRight(rx, shift)
    case _ => Invalid(b0)
  }

  /** The instruction at byte address `pc` of memory. */
  function DecodeAt(mem: seq<Byte>, pc: nat): Instr
    requires pc + INSTRUCTION_SIZE <= |mem|
  {
    Decode(mem[pc], mem[pc + 1], mem[pc + 2], mem[pc + 3])
  }

  /** An assembler for the format: the four bytes that encode an instruction, unused fields zero. */
  function Encode(i: Instr): (b: seq<Byte>)
    ensures |b| == 4 && b[0] == Opcode(i)
  {
    match i
    case MovImm(rx, imm) => [0x00, 16 * rx, imm % 0x100, imm / 0x100]
    case MovReg(rx, ry) => [0x01, 16 * rx + ry, 0, 0]
    case Load(rx, ry) => [0x02, 16 * rx + ry, 0, 0]
    case Store(rx, ry) => [0x03, 16 * rx + ry, 0, 0]
    case Cmp(rx, ry) => [0x04, 16 * rx + ry, 0, 0]
    case Jump(_, off) => [Opcode(i), 0, off % 0x100, off / 0x100]
    case Alu(_, rx, ry) => [Opcode(i), 16 * rx + ry, 0, 0]
    case ShiftLeft(rx, n) => [0x0E, 16 * rx, 0, n]
    case ShiftRight(rx, n) => [0x0F, 16 * rx, 0, n]
    case Invalid(op) => [op, 0, 0, 0]
  }

  /** Decoding inverts encoding: every field the decoder extracts is recovered exactly. */
  lemma {:induction false} DecodeEncode(i: Instr)
    requires WellFormed(i)
    ensures var b := Encode(i); Decode(b[0], b[1], b[2], b[3]) == i
  {
    var b := Encode(i);
    match i
    case MovImm(rx, imm) =>
      Nibbles(rx, 0);
      assert b[2] as int + 0x100 * (b[3] as int) == imm;
    case Jump(c, off) =>
      assert b[2] as int + 0x100 * (b[3] as int) == off;
    case ShiftLeft(rx, _) => Nibbles(rx, 0);
    case ShiftRight(rx, _) => Nibbles(rx, 0);
    case Invalid(_) =>
    case _ => Nibbles(i.rx, i.ry);
  }

  /** The byte `16 * rx + ry` splits back into its two nibbles. */
  lemma Nibbles(rx: Reg, ry: Reg)
    ensures (16 * rx + ry) / 16 == rx && (16 * rx + ry) % 16 == ry
  {
  }

  /* ---------------------------------------------------------------- */
  /* Machine state                                                     */

  /** The arithmetic status of the last `cmp`, as far as the branches read it. */
  datatype Status = Status(sf: bool, zf: bool, of: bool)

  datatype Machine = Machine(regs: seq<Word>, mem: seq<Byte>, counts: seq<Word>, saved: Status)

  predicate ValidMachine(m: Machine)
  {
    |m.regs| == REGISTERS_NUM && |m.mem| == MEMORY_SIZE && |m.counts| == REGISTERS_NUM
  }

  /** The state at start-up: everything zero, the loaded program at the bottom of memory. */
  function Boot(program: seq<Byte>): (m: Machine)
    requires |program| <= MEMORY_SIZE
    ensures ValidMachine(m) && m.mem[..|program|] == program
    ensures forall r :: 0 <= r < REGISTERS_NUM ==> m.regs[r] == 0 && m.counts[r] == 0
    ensures forall a :: |program| <= a < MEMORY_SIZE ==> m.mem[a] == 0
  {
    Machine(seq(REGISTERS_NUM, _ => 0), program + seq(MEMORY_SIZE - |program|, _ => 0),
            seq(REGISTERS_NUM, _ => 0), Status(false, false, false))
  }

  /* ---------------------------------------------------------------- */
  /* Arithmetic                                                        */

  function AluApply(op: AluOp, a: Word, b: Word): Word
  {
    match op
    case Add => Wrap32(a + b)
    case Sub => Wrap32(a - b)
    case And => BitAnd(a, b)
    case Or => BitOr(a, b)
    case Xor => BitXor(a, b)
  }

  /**
   * ADD is the exact signed sum taken modulo 2^32, and equal to it whenever
   * the sum fits in 32 bits.
   */
  lemma {:induction false} AddWrap(a: Word, b: Word)
    ensures Wrap32(ToInt32(a) + ToInt32(b)) == AluApply(Add, a, b)
    ensures -TWO31 <= ToInt32(a) + ToInt32(b) < TWO31 ==>
              ToInt32(AluApply(Add, a, b)) == ToInt32(a) + ToInt32(b)
  {
    var x, y := ToInt32(a), ToInt32(b);
    var ca, cb := a - x, b - y;
    assert ca == 0 || ca == TWO32;
    assert cb == 0 || cb == TWO32;
    WrapShift(a + b, ca + cb);
    if -TWO31 <= x + y < TWO31 { Int32RoundTrip(x + y); }
  }

  /**
   * SUB is the exact signed difference taken modulo 2^32, and equal to it
   * whenever the difference fits in 32 bits.
   */
  lemma {:induction false} SubWrap(a: Word, b: Word)
    ensures Wrap32(ToInt32(a) - ToInt32(b)) == AluApply(Sub, a, b)
    ensures -TWO31 <= ToInt32(a) - ToInt32(b) < TWO31 ==>
              ToInt32(AluApply(Sub, a, b)) == ToInt32(a) - ToInt32(b)
  {
    var x, y := ToInt32(a), ToInt32(b);
    var ca, cb := a - x, b - y;
    assert ca == 0 || ca == TWO32;
    assert cb == 0 || cb == TWO32;
    WrapShift(a - b, ca - cb);
    if -TWO31 <= x - y < TWO31 { Int32RoundTrip(x - y); }
  }

  /** Subtracting a small multiple of 2^32 does not change the truncation. */
  lemma WrapShift(n: int, c: int)
    requires c == 0 || c == TWO32 || c == -TWO32 || c == 2 * TWO32
    ensures Wrap32(n - c) == Wrap32(n)
  {
  }

  /**
   * SAL: the shifted-out high bits are lost, so the result is the signed
   * value times 2^n taken modulo 2^32, and equal to it whenever the product
   * fits in 32 bits.
   */
  function ShiftLeftWord(a: Word, n: Shift): (r: Word)
    ensures r == Wrap32(ToInt32(a) * Pow2(n))
    ensures -TWO31 <= ToInt32(a) * Pow2(n) < TWO31 ==> ToInt32(r) == ToInt32(a) * Pow2(n)
  {
    MulWrap(a, Pow2(n));
    Wrap32(a * Pow2(n))
  }

  /** Multiplying a word or its signed reading by p gives the same 32-bit result. */
  lemma {:induction false} MulWrap(a: Word, p: nat)
    ensures Wrap32(a * p) == Wrap32(ToInt32(a) * p)
    ensures -TWO31 <= ToInt32(a) * p < TWO31 ==> ToInt32(Wrap32(a * p)) == ToInt32(a) * p
  {
    var x := ToInt32(a);
    if a != x {
      assert a == x + TWO32;
      assert a * p == x * p + TWO32 * p;
      WrapMultiple(x * p, p);
    }
    if -TWO31 <= x * p < TWO31 { Int32RoundTrip(x * p); }
  }

  /** Adding a multiple of 2^32 does not change the truncation. */
  lemma {:induction false} WrapMultiple(x: int, k: nat)
    ensures Wrap32(x + TWO32 * k) == Wrap32(x)
  {
    if k > 0 {
      WrapMultiple(x, k - 1);
      WrapShift(x + TWO32 * k, TWO32);
    }
  }

  /** SAR: division of the signed value by 2^n rounding down, so the sign is kept. */
  function ShiftRightWord(a: Word, n: Shift): (r: Word)
    ensures ToInt32(r) == ToInt32(a) / Pow2(n)
    ensures ToInt32(r) < 0 <==> ToInt32(a) < 0
  {
    QuotientInRange(ToInt32(a), Pow2(n));
    Int32RoundTrip(ToInt32(a) / Pow2(n));
    Wrap32(ToInt32(a) / Pow2(n))
  }

  /** The status `cmp a, b` leaves: sign and zero of the 32-bit difference, and signed overflow. */
  function Compare(a: Word, b: Word): (s: Status)
    ensures s.zf <==> a == b
    ensures s.of <==> !(-TWO31 <= ToInt32(a) - ToInt32(b) < TWO31)
  {
    SubWrap(a, b);
    var d := Wrap32(a - b);
    Status(d >= TWO31, d == 0, ToInt32(d) != ToInt32(a) - ToInt32(b))
  }

  /** The three booleans greater, less, equal of a signed comparison. */
  datatype Verdict = Verdict(gt: bool, lt: bool, eq: bool)

  function SignedVerdict(a: Word, b: Word): (v: Verdict)
    ensures (if v.gt then 1 else 0) + (if v.lt then 1 else 0) + (if v.eq then 1 else 0) == 1
    ensures v.eq <==> a == b
  {
    Verdict(ToInt32(a) > ToInt32(b), ToInt32(a) < ToInt32(b), ToInt32(a) == ToInt32(b))
  }

  /**
   * The processor's signed conditions on the saved status agree with the
   * signed comparison for every pair of operands, overflow included:
   * `je` tests ZF, `jl` tests SF != OF, `jg` tests !ZF && SF == OF.
   */
  lemma {:induction false} StatusConditions(a: Word, b: Word)
    ensures var s, v := Compare(a, b), SignedVerdict(a, b);
      && (s.zf <==> v.eq)
      && ((s.sf != s.of) <==> v.lt)
      && ((!s.zf && s.sf == s.of) <==> v.gt)
  {
    var x, y := ToInt32(a), ToInt32(b);
    var d := Wrap32(a - b);
    SubWrap(a, b);
    assert Wrap32(x - y) == d;
    assert d == 0 <==> a == b;
    if -TWO31 <= x - y < TWO31 {
      assert ToInt32(d) == x - y;
    } else if x - y >= TWO31 {
      assert d == x - y;
      assert ToInt32(d) == x - y - TWO32;
    } else {
      assert d == x - y + TWO32;
    }
  }

  /* ---------------------------------------------------------------- */
  /* Memory and registers                                              */

  /** A little-endian 32-bit read of memory. */
  function LoadWord(mem: seq<Byte>, addr: nat): (r: Word)
    requires addr + 4 <= |mem|
    ensures LE32(r) == mem[addr..addr + 4]
  {
    FromLE32RoundTrip(mem[addr..addr + 4]);
    FromLE32(mem[addr..addr + 4])
  }

  /** A little-endian 32-bit write of memory. */
  function StoreWord(mem: seq<Byte>, addr: nat, v: Word): (r: seq<Byte>)
    requires addr + 4 <= |mem|
    ensures |r| == |mem| && LoadWord(r, addr) == v
    ensures forall k :: 0 <= k < |mem| && !(addr <= k < addr + 4) ==> r[k] == mem[k]
  {
    var r := mem[..addr] + LE32(v) + mem[addr + 4..];
    assert r[addr..addr + 4] == LE32(v);
    r
  }

  predicate IsDataOp(i: Instr)
  {
    !i.Jump? && !i.Invalid?
  }

  /** The register an instruction writes, if any. */
  function Destination(i: Instr): int
  {
    match i
    case MovImm(rx, _) => rx
    case MovReg(rx, _) => rx
    case Load(rx, _) => rx
    case Alu(_, rx, _) => rx
    case ShiftLeft(rx, _) => rx
    case ShiftRight(rx, _) => rx
    case _ => -1
  }

  /**
   * The effect of a non-branching instruction on registers, memory and the
   * saved status; `addr` is the memory address LOAD reads or STORE writes, as
   * computed by the engine running it.
   */
  function Execute(i: Instr, m: Machine, addr: nat): (r: Machine)
    requires ValidMachine(m) && IsDataOp(i)
    requires (i.Load? || i.Store?) ==> addr + 4 <= MEMORY_SIZE
    ensures ValidMachine(r) && r.counts == m.counts
    ensures forall k :: 0 <= k < REGISTERS_NUM && k != Destination(i) ==> r.regs[k] == m.regs[k]
    ensures !i.Store? ==> r.mem == m.mem
    ensures !i.Cmp? ==> r.saved == m.saved
    ensures i.MovImm? ==> ToInt32(r.regs[i.rx]) == ToInt16(i.imm)
    ensures i.MovReg? ==> r.regs[i.rx] == m.regs[i.ry]
    ensures i.Load? ==> r.regs[i.rx] == LoadWord(m.mem, addr)
    ensures i.Store? ==> LoadWord(r.mem, addr) == m.regs[i.ry]
    ensures i.Store? ==> forall k :: 0 <= k < MEMORY_SIZE && !(addr <= k < addr + 4) ==> r.mem[k] == m.mem[k]
    ensures i.Cmp? ==> r.saved == Compare(m.regs[i.rx], m.regs[i.ry])
    ensures i.Alu? ==> r.regs[i.rx] == AluApply(i.op, m.regs[i.rx], m.regs[i.ry])
    ensures i.ShiftLeft? ==> r.regs[i.rx] == ShiftLeftWord(m.regs[i.rx], i.amount)
    ensures i.ShiftRight? ==> ToInt32(r.regs[i.rx]) == ToInt32(m.regs[i.rx]) / Pow2(i.amount)
  {
    match i
    case MovImm(rx, imm) => m.(regs := m.regs[rx := SignExtend16(imm)])
    case MovReg(rx, ry) => m.(regs := m.regs[rx := m.regs[ry]])
    case Load(rx, _) => m.(regs := m.regs[rx := LoadWord(m.mem, addr)])
    case Store(_, ry) => m.(mem := StoreWord(m.mem, addr, m.regs[ry]))
    case Cmp(rx, ry) => m.(saved := Compare(m.regs[rx], m.regs[ry]))
    case Alu(op, rx, ry) => m.(regs := m.regs[rx := AluApply(op, m.regs[rx], m.regs[ry])])
    case ShiftLeft(rx, n) => m.(regs := m.regs[rx := ShiftLeftWord(m.regs[rx], n)])
    case ShiftRight(rx, n) => m.(regs := m.regs[rx := ShiftRightWord(m.regs[rx], n)])
  }

  /**
   * `inc dword ptr [rsi + 4*index]`: one execution counter incremented with
   * 32-bit wrap-around; there is no counter past the sixteenth, so an index
   * beyond the table gives None (a write outside the counters).
   */
  function Bump(m: Machine, index: nat): (r: Option<Machine>)
    requires ValidMachine(m)
    ensures r.Some? <==> index < REGISTERS_NUM
    ensures r.Some? ==> ValidMachine(r.value) && r.value.regs == m.regs && r.value.mem == m.mem
                        && r.value.saved == m.saved
                        && r.value.counts == m.counts[index := Wrap32(m.counts[index] as int + 1)]
  {
    if index < REGISTERS_NUM then Some(m.(counts := m.counts[index := Wrap32(m.counts[index] as int + 1)]))
    else None
  }

  datatype Option<T> = None | Some(value: T)
}
