/**
 * What the two engines share about their code cache: the 1024-byte region
 * of sixteen-byte slots (slot s translates the instruction at bytecode
 * address 4*s), the return trampoline every slot holds before translation,
 * the write-once translation table, and the protocol by which a native body
 * tells the host where execution continues.
 */
module CodeCache {
  import opened Words
  import opened Isa

  const SIZE_CODE: nat := 1024
  const SLOT_SIZE: nat := 16
  const SLOTS: nat := 64

  const NOP: Byte := 0x90
  const RET: Byte := 0xC3

  /** `lea rax, [rip + 0]` (7 bytes) then `ret`. */
  function Trampoline(): (t: seq<Byte>)
    ensures |t| == 8 && t[7] == RET
  {
    [0x48, 0x8D, 0x05, 0x00, 0x00, 0x00, 0x00, RET]
  }

  /** Length of the `lea`, so what it loads into rax is the address of its own end. */
  const LEA_LENGTH: nat := 7

  /** A slot as set up before any translation: the trampoline, then the page's NOP fill. */
  function EmptySlot(): (s: seq<Byte>)
    ensures |s| == SLOT_SIZE && s[..8] == Trampoline()
    ensures forall k :: 8 <= k < SLOT_SIZE ==> s[k] == NOP
  {
    Trampoline() + [NOP, NOP, NOP, NOP, NOP, NOP, NOP, NOP]
  }

  /** The slot once a body has been written over the start of an empty slot. */
  function Overlay(body: seq<Byte>): (s: seq<Byte>)
    requires |body| <= SLOT_SIZE
    ensures |s| == SLOT_SIZE && s[..|body|] == body
    ensures forall k :: |body| <= k < SLOT_SIZE ==> s[k] == EmptySlot()[k]
  {
    body + EmptySlot()[|body|..]
  }

  /**
   * What the trampoline of slot `slot` returns: rip after the `lea`, plus the
   * lea's (zero) displacement.
   */
  function TrampolineValue(codeBase: nat, slot: nat): (v: nat)
    ensures v == codeBase + SLOT_SIZE * slot + LEA_LENGTH + ToInt32(FromLE32(Trampoline()[3..7]))
  {
    assert Trampoline()[3..7] == [0, 0, 0, 0];
    codeBase + SLOT_SIZE * slot + LEA_LENGTH
  }

  /**
   * Where the page may be mapped: above every 32-bit value, so that no
   * 32-bit value a body returns in eax can be mistaken for a slot address.
   */
  predicate CodeBaseOk(codeBase: nat)
  {
    TWO32 <= codeBase
  }

  /** A value a trampoline can return: inside the code range, seven bytes into a slot. */
  predicate IsTrampolineValue(v: nat, codeBase: nat)
  {
    codeBase <= v < codeBase + SIZE_CODE && (v - codeBase) % SLOT_SIZE == LEA_LENGTH
  }

  /** The word a trampoline returns is a value "seven bytes into a slot". */
  lemma {:induction false} TrampolineShape(codeBase: nat, s: nat)
    requires s < SLOTS
    ensures IsTrampolineValue(TrampolineValue(codeBase, s), codeBase)
  {
  }

  /** What a slot holds: the trampoline still, or the body for the instruction decoded there. */
  datatype SlotContent = Untranslated | Body(instr: Instr)

  /**
   * ensureTranslated: a slot not yet translated gets the instruction the
   * memory holds at `pc` now; a translated one is never translated again.
   */
  function Translate(slots: seq<SlotContent>, mem: seq<Byte>, pc: nat): (r: seq<SlotContent>)
    requires |slots| == SLOTS && |mem| == MEMORY_SIZE && pc < MEMORY_SIZE && pc % 4 == 0
    ensures |r| == SLOTS && r[pc / 4].Body?
    ensures slots[pc / 4].Untranslated? ==> r[pc / 4] == Body(DecodeAt(mem, pc))
    ensures slots[pc / 4].Body? ==> r == slots
    ensures forall s :: 0 <= s < SLOTS && s != pc / 4 ==> r[s] == slots[s]
  {
    if slots[pc / 4].Untranslated? then slots[pc / 4 := Body(DecodeAt(mem, pc))] else slots
  }

  /** The operand of `inc dword ptr [rsi]` (FF 06) or `inc dword ptr [rsi + d8]` (FF 46 d8) at `at`; the disp8 is signed. */
  function CounterOperand(code: seq<Byte>, at: nat): Option<int>
  {
    if at + 2 <= |code| && code[at] == 0xFF && code[at + 1] == 0x06 then Some(0)
    else if at + 3 <= |code| && code[at] == 0xFF && code[at + 1] == 0x46 then Some(ToInt8(code[at + 2]))
    else None
  }

  /** The end of a slot-sized relative jump: the displacement is the 4 bytes before `end`. */
  function Landing(slotStart: int, code: seq<Byte>, end: nat): int
    requires 4 <= end <= |code|
  {
    slotStart + end + ToInt32(FromLE32(code[end - 4..end]))
  }

  /** The disp8 of the register operand [rdi + 4*r]. */
  function Disp(r: Reg): Byte
  {
    4 * r
  }

  /** `mov eax, v; ret`: the exit of an out-of-range jump. */
  function ExitTo(v: Word): (b: seq<Byte>)
    ensures |b| == 6
  {
    [0xB8] + LE32(v) + [RET]
  }

  /** A body that ends in `mov eax, v; ret` carries `v` in the four bytes before its last. */
  lemma {:induction false} ExitTail(prefix: seq<Byte>, v: Word)
    ensures var b := prefix + ExitTo(v);
      |b| >= 6 && b[|b| - 6..] == ExitTo(v) && FromLE32(b[|b| - 5..|b| - 1]) == v
  {
    var b := prefix + ExitTo(v);
    assert b[|b| - 6..] == ExitTo(v);
    assert b[|b| - 5..|b| - 1] == LE32(v);
  }

  /** `inc dword ptr [rsi + 4*k]` for a counter that exists. */
  function Count(m: Machine, k: nat): (r: Machine)
    requires ValidMachine(m) && k < REGISTERS_NUM
    ensures ValidMachine(r) && r.regs == m.regs && r.mem == m.mem && r.saved == m.saved
    ensures r.counts[k] == Wrap32(m.counts[k] as int + 1)
    ensures forall j :: 0 <= j < REGISTERS_NUM && j != k ==> r.counts[j] == m.counts[j]
  {
    Bump(m, k).value
  }

  /* ---------------------------------------------------------------- */
  /* Results of running native code                                    */

  /** How one translated body ends. */
  datatype Step =
    | Next(m: Machine)                 // falls through to the following slot
    | Goto(m: Machine, target: nat)    // jumps to the slot of bytecode address `target`
    | Return(m: Machine, value: nat)   // executes `ret` with `value` in rax
    | Trap                             // undefined behaviour: out-of-bounds access, wild jump
    | Unknown                          // executes `ret` with an unspecified value in rax

  /** How one call of a slot from the host ends. */
  datatype Native = Returned(value: nat) | Crashed | Unspecified | Exhausted

  /** How the whole dispatch loop ends; the pc is the one the summary prints. */
  datatype Outcome = Exit(pc: nat) | Crash | Undetermined | OutOfFuel

  /** The outcome of a call that did not return a word. */
  function Failed(native: Native): Outcome
  {
    match native
    case Crashed => Crash
    case Unspecified => Undetermined
    case _ => OutOfFuel
  }

  /** What one pass of the loop body leaves the loop with: the next pc and the fuel left, or the end. */
  datatype Turn = Done(outcome: Outcome) | Again(pc: nat, fuel: nat)

  /** What the host makes of a returned word: a pc to continue at, or the end. */
  datatype Resume = Continue(temp: nat) | Stop(temp: nat)

  /** The engine state the dispatch loop carries from one iteration to the next. */
  datatype Engine = Engine(m: Machine, slots: seq<SlotContent>)

  predicate ValidEngine(e: Engine)
  {
    ValidMachine(e.m) && |e.slots| == SLOTS
  }

  /** `page` with `bytes` written over it from offset `at`. */
  function Patch(page: seq<Byte>, at: nat, bytes: seq<Byte>): (r: seq<Byte>)
    requires at + |bytes| <= |page|
    ensures |r| == |page|
  {
    page[..at] + bytes + page[at + |bytes|..]
  }

  /**
   * Run-time writes into the code page: `executable_code[index++] = b` for
   * each byte of `bytes`, starting at `at`.
   */
  method WriteBytes(code: array<Byte>, at: nat, bytes: seq<Byte>)
    requires at + |bytes| <= code.Length
    modifies code
    ensures forall k :: 0 <= k < code.Length ==>
              code[k] == if at <= k < at + |bytes| then bytes[k - at] else old(code[k])
    ensures code[..] == Patch(old(code[..]), at, bytes)
  {
    var index := at;
    while index < at + |bytes|
      invariant at <= index <= at + |bytes|
      invariant forall k :: 0 <= k < code.Length ==>
                  code[k] == if at <= k < index then bytes[k - at] else old(code[k])
    {
      code[index] := bytes[index - at];
      index := index + 1;
    }
    assert code[..] == Patch(old(code[..]), at, bytes);
  }

  /* ---------------------------------------------------------------- */
  /* The code page                                                     */

  /** The sixteen bytes of slot `s` in a page. */
  function SlotBytes(page: seq<Byte>, s: nat): (b: seq<Byte>)
    requires s < SLOTS && |page| >= SIZE_CODE
    ensures |b| == SLOT_SIZE
  {
    page[SLOT_SIZE * s..SLOT_SIZE * s + SLOT_SIZE]
  }

  /**
   * Writing `body` at the start of slot `s` changes that slot into the
   * overlay of `body` on what it held, and no other slot.
   */
  lemma {:induction false} WriteSlot(page: seq<Byte>, s: nat, body: seq<Byte>)
    requires s < SLOTS && |page| >= SIZE_CODE && |body| <= SLOT_SIZE
    ensures var page' := Patch(page, SLOT_SIZE * s, body);
      && SlotBytes(page', s) == body + SlotBytes(page, s)[|body|..]
      && (forall t :: 0 <= t < SLOTS && t != s ==> SlotBytes(page', t) == SlotBytes(page, t))
      && page'[SIZE_CODE..] == page[SIZE_CODE..]
  {
    var at := SLOT_SIZE * s;
    var page' := Patch(page, at, body);
    assert forall k :: 0 <= k < |page| ==> page'[k] == if at <= k < at + |body| then body[k - at] else page[k];
    forall t | 0 <= t < SLOTS && t != s
      ensures SlotBytes(page', t) == SlotBytes(page, t)
    {
      assert SLOT_SIZE * t + SLOT_SIZE <= at || at + SLOT_SIZE <= SLOT_SIZE * t;
    }
  }

  /** The loop `for (i = 0; i < SIZE_CODE; i += 16)` that writes a trampoline at every slot. */
  method WriteTrampolines(page: array<Byte>)
    requires page.Length > SIZE_CODE
    requires forall k :: 0 <= k < page.Length - 1 ==> page[k] == NOP
    modifies page
    ensures forall t :: 0 <= t < SLOTS ==> SlotBytes(page[..], t) == EmptySlot()
    ensures forall k :: SIZE_CODE <= k < page.Length ==> page[k] == old(page[k])
  {
    var i := 0;
    ghost var slot := 0;
    while i < SIZE_CODE
      invariant i == SLOT_SIZE * slot && slot <= SLOTS
      invariant forall t :: 0 <= t < slot ==> SlotBytes(page[..], t) == EmptySlot()
      invariant forall k :: i <= k < page.Length ==> page[k] == old(page[k])
    {
      ghost var before := page[..];
      WriteBytes(page, i, Trampoline());
      WriteSlot(before, slot, Trampoline());
      assert SlotBytes(page[..], slot) == EmptySlot() by {
        assert forall k :: 0 <= k < SLOT_SIZE ==> page[i + k] == EmptySlot()[k];
      }
      i, slot := i + SLOT_SIZE, slot + 1;
    }
  }
}
