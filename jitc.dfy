/**
 * The C variant's engine: what a translated body does when the host calls
 * into the cache, how the host reads the returned word, the dispatch loop
 * as a state machine, and the machine object with its code page and
 * `not_interpreted` table updated in place.
 */
module JitC {
  import opened Words
  import opened Isa
  import opened CodeCache
  import opened EmitterC

  const INTERPRETED_SIZE: nat := 64

  /** `mov eax, 256; ret` at offset 1024: where native code lands after the last slot. */
  function EndTrampoline(): (b: seq<Byte>)
    ensures |b| == 6 && FromLE32(b[1..5]) == MEMORY_SIZE
  {
    assert [0xB8, 0x00, 0x01, 0x00, 0x00, RET][1..5] == [0x00, 0x01, 0x00, 0x00];
    [0xB8, 0x00, 0x01, 0x00, 0x00, RET]
  }

  /** The bytes of slot `s` for what the cache holds there. */
  function SlotImage(c: SlotContent, s: nat): (b: seq<Byte>)
    requires s < SLOTS
    ensures |b| == SLOT_SIZE
    ensures c.Untranslated? || c.instr.Invalid? ==> b == EmptySlot()
    ensures c.Body? ==> var body := Emit(c.instr, 4 * s); b[..|body|] == body
    ensures c.Body? && !c.instr.Invalid? ==> b[..8] == Emit(c.instr, 4 * s)[..8]
  {
    match c
    case Untranslated => EmptySlot()
    case Body(i) => Overlay(Emit(i, 4 * s))
  }

  /* ---------------------------------------------------------------- */
  /* Native execution, in terms of the reference semantics             */

  /**
   * The branch tests on the byte `lahf` saved (bit 7 SF, bit 6 ZF):
   * `test 0xC0` for JG, `test 0x80` for JL, `test 0x40` for JE.
   */
  function Taken(c: Cond, s: Status): bool
  {
    match c
    case Always => true
    case Greater => !s.sf && !s.zf
    case Less => s.sf
    case Equal => s.zf
  }

  /**
   * Without signed overflow in `rx - ry`, the `lahf` tests are the signed
   * comparisons of the operands of the last CMP.
   */
  lemma {:induction false} LahfAgrees(a: Word, b: Word)
    requires -TWO31 <= ToInt32(a) - ToInt32(b) < TWO31
    ensures var s, v := Compare(a, b), SignedVerdict(a, b);
      && (Taken(Greater, s) <==> v.gt)
      && (Taken(Less, s) <==> v.lt)
      && (Taken(Equal, s) <==> v.eq)
  {
    StatusConditions(a, b);
    SubWrap(a, b);
  }

  /**
   * With overflow they are not: comparing INT32_MIN with 1 leaves SF and ZF
   * clear, so JG branches and JL does not, although the first is the smaller.
   */
  lemma {:induction false} LahfOverflow()
    ensures var s, v := Compare(0x8000_0000, 1), SignedVerdict(0x8000_0000, 1);
      v.lt && !Taken(Less, s) && Taken(Greater, s)
  {
    assert Wrap32(0x8000_0000 - 1) == 0x7FFF_FFFF;
  }

  /**
   * One translated body, from its first byte.  LOAD reads at the register's
   * low byte (`movzx eax, al`); STORE writes at the whole register.  An
   * access that does not fit the 256-byte memory, and a jump into the middle
   * of a slot, leave the modelled state.
   */
  function Step(i: Instr, m: Machine, pc: nat, codeBase: nat): (r: Step)
    requires ValidMachine(m) && pc < MEMORY_SIZE && pc % 4 == 0
    ensures (r.Next? || r.Goto? || r.Return?) ==> ValidMachine(r.m)
    ensures r.Goto? ==> r.target < MEMORY_SIZE && r.target % 4 == 0
    ensures r.Return? ==> IsTrampolineValue(r.value, codeBase) || MEMORY_SIZE <= r.value < TWO16
    ensures !r.Unknown?
    ensures r.Next? ==> IsDataOp(i) || (i.Jump? && !Taken(i.cond, m.saved))
  {
    match i
    case Load(_, ry) =>
      var addr := m.regs[ry] % TWO8;
      if addr + 4 <= MEMORY_SIZE then Next(Count(Execute(i, m, addr), Opcode(i))) else Trap
    case Store(rx, _) =>
      var addr := m.regs[rx];
      if addr + 4 <= MEMORY_SIZE then Next(Count(Execute(i, m, addr), Opcode(i))) else Trap
    case Jump(c, offset) =>
      var m' := Count(m, Opcode(i));
      var t := Target(pc, offset);
      if !Taken(c, m.saved) then Next(m')
      else if t >= MEMORY_SIZE then Return(m', t)
      else if t % 4 == 0 then Goto(m', t)
      else Trap
    case Invalid(_) =>
      Return(m, TrampolineValue(codeBase, pc / 4))
    case _ =>
      Next(Count(Execute(i, m, 0), Opcode(i)))
  }

  /**
   * LOAD reads the word at the low byte of the address register, whatever
   * its upper bits; it leaves the model only when that word would run past
   * the end of memory.
   */
  lemma {:induction false} LoadMasked(rx: Reg, ry: Reg, m: Machine, pc: nat, codeBase: nat)
    requires ValidMachine(m) && pc < MEMORY_SIZE && pc % 4 == 0
    ensures var r := Step(Load(rx, ry), m, pc, codeBase); var a := m.regs[ry] % TWO8;
      && (r.Next? <==> a + 4 <= MEMORY_SIZE)
      && (r.Next? ==> r.m.regs[rx] == LoadWord(m.mem, a) && r.m.mem == m.mem)
      && (!r.Next? ==> r.Trap?)
  {
  }

  /**
   * One call of the cache at slot `s`: bodies run one after another, falling
   * through or jumping, until a `ret`: the trampoline of an untranslated slot,
   * an out-of-range exit, or the end trampoline past the last slot.
   */
  function Call(fuel: nat, m: Machine, slots: seq<SlotContent>, s: nat, codeBase: nat): (r: (Native, Machine))
    requires ValidMachine(m) && |slots| == SLOTS && s <= SLOTS
    ensures ValidMachine(r.1)
    ensures r.0.Returned? ==>
              r.0.value == MEMORY_SIZE || MEMORY_SIZE <= r.0.value < TWO16 || IsTrampolineValue(r.0.value, codeBase)
    ensures !r.0.Unspecified?
    decreases fuel
  {
    if s == SLOTS then (Returned(MEMORY_SIZE), m)
    else match slots[s]
      case Untranslated =>
        TrampolineShape(codeBase, s);
        (Returned(TrampolineValue(codeBase, s)), m)
      case Body(i) =>
        if fuel == 0 then (Exhausted, m)
        else match Step(i, m, 4 * s, codeBase)
          case Next(m') => Call(fuel - 1, m', slots, s + 1, codeBase)
          case Goto(m', t) => Call(fuel - 1, m', slots, t / 4, codeBase)
          case Return(m', v) => (Returned(v), m')
          case Trap => (Crashed, m)
          case Unknown => (Unspecified, m)
  }

  /* ---------------------------------------------------------------- */
  /* The host side                                                     */

  /**
   * A word inside [code_base, code_base + 1024) is a slot reference,
   * `(uint32_t)(result - code_base) / 4` then `temp_pc--`; anything else is
   * `(uint32_t)result`, which ends the loop when it is at least 256.
   */
  function HostDecode(result: nat, codeBase: nat): (d: Resume)
    ensures d.temp < TWO32
    ensures d.Stop? ==> MEMORY_SIZE <= d.temp
    ensures !(codeBase <= result < codeBase + SIZE_CODE) && result < MEMORY_SIZE ==> d == Continue(result)
  {
    if codeBase <= result < codeBase + SIZE_CODE then Continue(Wrap32((result - codeBase) / 4 - 1))
    else
      var temp := Wrap32(result);
      if temp >= MEMORY_SIZE then Stop(temp) else Continue(temp)
  }

  /** The host recovers the slot's bytecode address from its trampoline's word. */
  lemma {:induction false} TrampolineRoundTrip(codeBase: nat, s: nat)
    requires s < SLOTS
    ensures HostDecode(TrampolineValue(codeBase, s), codeBase) == Continue(4 * s)
  {
    assert (SLOT_SIZE * s + LEA_LENGTH) / 4 == 4 * s + 1;
  }

  /** The end trampoline's 256, and any out-of-range target, end the loop with that value. */
  lemma {:induction false} RawExit(v: nat, codeBase: nat)
    requires CodeBaseOk(codeBase) && MEMORY_SIZE <= v < TWO32
    ensures HostDecode(v, codeBase) == Stop(v)
  {
  }

  /** Every word a call can return makes the host continue at a slot boundary, or stop. */
  lemma {:induction false} DecodeReturned(v: nat, codeBase: nat)
    requires CodeBaseOk(codeBase)
    requires v == MEMORY_SIZE || MEMORY_SIZE <= v < TWO16 || IsTrampolineValue(v, codeBase)
    ensures Resumable(HostDecode(v, codeBase))
  {
    if IsTrampolineValue(v, codeBase) {
      var s := (v - codeBase) / SLOT_SIZE;
      assert v == TrampolineValue(codeBase, s);
      TrampolineRoundTrip(codeBase, s);
    }
  }

  /** A decoded word the loop can go on with: a slot boundary, or a stop value below 2^16. */
  predicate Resumable(d: Resume)
  {
    && (d.Continue? ==> d.temp < MEMORY_SIZE && d.temp % 4 == 0)
    && (d.Stop? ==> MEMORY_SIZE <= d.temp < TWO16)
  }

  /**
   * The dispatch loop `while (pc < pos)`: translate the slot of `pc` if its
   * `not_interpreted` entry is still set, call it, and decode the result.
   * The loop ends at a pc at or beyond the end of the program, or at a word
   * of 256 or more naming no slot; the exit line prints that pc.
   */
  function Dispatch(fuel: nat, e: Engine, pc: nat, pos: nat, codeBase: nat): (r: (Outcome, Engine))
    requires ValidEngine(e) && pc < MEMORY_SIZE && pc % 4 == 0 && pos <= MEMORY_SIZE && CodeBaseOk(codeBase)
    ensures ValidEngine(r.1) && (r.0.Exit? ==> r.0.pc < TWO16)
    decreases fuel, 1
  {
    if pc >= pos then (Exit(pc), e)
    else if fuel == 0 then (OutOfFuel, e)
    else Iterate(fuel, e, pc, pos, codeBase)
  }

  /**
   * One pass of the loop body at a pc below `pos`: the call, then
   * `pc = temp_pc` (a uint8_t) or the `break` on a word naming no slot.
   */
  function Iterate(fuel: nat, e: Engine, pc: nat, pos: nat, codeBase: nat): (r: (Outcome, Engine))
    requires ValidEngine(e) && pc < pos <= MEMORY_SIZE && pc % 4 == 0 && CodeBaseOk(codeBase) && fuel > 0
    ensures ValidEngine(r.1) && (r.0.Exit? ==> r.0.pc < TWO16)
    decreases fuel, 0
  {
    var (native, e') := Visit(fuel, e, pc, codeBase);
    match native
    case Returned(v) =>
      var resume := HostDecode(v, codeBase);
      if resume.Stop? then (Exit(Low16(resume.temp)), e')
      else Dispatch(fuel - 1, e', Low8(resume.temp), pos, codeBase)
    case _ => (Failed(native), e')
  }

  /** An iteration that decodes a slot boundary goes on at that pc, one unit of fuel down. */
  lemma DispatchContinues(fuel: nat, e: Engine, pc: nat, pos: nat, codeBase: nat, native: Native, e': Engine)
    requires ValidEngine(e) && pc < pos <= MEMORY_SIZE && pc % 4 == 0 && CodeBaseOk(codeBase) && fuel > 0
    requires (native, e') == Visit(fuel, e, pc, codeBase)
    requires native.Returned? && HostDecode(native.value, codeBase).Continue?
    ensures var t := HostDecode(native.value, codeBase).temp;
      t < MEMORY_SIZE && t % 4 == 0 && Dispatch(fuel, e, pc, pos, codeBase) == Dispatch(fuel - 1, e', t, pos, codeBase)
  {
  }

  /** An iteration that decodes a value of 256 or more ends the loop there. */
  lemma DispatchStops(fuel: nat, e: Engine, pc: nat, pos: nat, codeBase: nat, native: Native, e': Engine)
    requires ValidEngine(e) && pc < pos <= MEMORY_SIZE && pc % 4 == 0 && CodeBaseOk(codeBase) && fuel > 0
    requires (native, e') == Visit(fuel, e, pc, codeBase)
    requires native.Returned? && HostDecode(native.value, codeBase).Stop?
    ensures Dispatch(fuel, e, pc, pos, codeBase) == (Exit(Low16(HostDecode(native.value, codeBase).temp)), e')
  {
  }

  /** An iteration whose call does not return a word ends the loop with the failure. */
  lemma DispatchFails(fuel: nat, e: Engine, pc: nat, pos: nat, codeBase: nat, native: Native, e': Engine)
    requires ValidEngine(e) && pc < pos <= MEMORY_SIZE && pc % 4 == 0 && CodeBaseOk(codeBase) && fuel > 0
    requires (native, e') == Visit(fuel, e, pc, codeBase)
    requires !native.Returned?
    ensures Dispatch(fuel, e, pc, pos, codeBase) == (Failed(native), e')
  {
  }

  /** One iteration's work before the result is decoded: translate the slot of `pc`, then call it. */
  function Visit(fuel: nat, e: Engine, pc: nat, codeBase: nat): (r: (Native, Engine))
    requires ValidEngine(e) && pc < MEMORY_SIZE && pc % 4 == 0 && CodeBaseOk(codeBase)
    ensures ValidEngine(r.1) && r.1.slots == Translate(e.slots, e.m.mem, pc)
    ensures r.0.Returned? ==> Resumable(HostDecode(r.0.value, codeBase))
    ensures !r.0.Unspecified?
  {
    var slots := Translate(e.slots, e.m.mem, pc);
    var (native, m) := Call(fuel, e.m, slots, pc / 4, codeBase);
    var r := (native, Engine(m, slots));
    if native.Returned? then DecodeReturned(native.value, codeBase); r else r
  }

  /* ---------------------------------------------------------------- */
  /* Properties of the loop                                            */

  /**
   * The loop ends at a pc the summary line can print: at or past the end of
   * the program, below 2^16; and never in an unspecified state.
   */
  lemma {:induction false} DispatchOutcome(fuel: nat, e: Engine, pc: nat, pos: nat, codeBase: nat)
    requires ValidEngine(e) && pc < MEMORY_SIZE && pc % 4 == 0 && pos <= MEMORY_SIZE && CodeBaseOk(codeBase)
    ensures var r := Dispatch(fuel, e, pc, pos, codeBase).0;
      (r.Exit? ==> pos <= r.pc < TWO16) && !r.Undetermined?
    decreases fuel
  {
    if pc < pos && fuel > 0 {
      var (native, e') := Visit(fuel, e, pc, codeBase);
      if native.Returned? {
        var d := HostDecode(native.value, codeBase);
        if d.Continue? {
          DispatchOutcome(fuel - 1, e', Low8(d.temp), pos, codeBase);
        }
      }
    }
  }

  /** Write-once: a slot translated before the loop is still the same translation after it. */
  lemma {:induction false} DispatchKeepsTranslations(fuel: nat, e: Engine, pc: nat, pos: nat, codeBase: nat, s: nat)
    requires ValidEngine(e) && pc < MEMORY_SIZE && pc % 4 == 0 && pos <= MEMORY_SIZE && CodeBaseOk(codeBase)
    requires s < SLOTS && e.slots[s].Body?
    ensures Dispatch(fuel, e, pc, pos, codeBase).1.slots[s] == e.slots[s]
    decreases fuel
  {
    if pc < pos && fuel > 0 {
      var (native, e') := Visit(fuel, e, pc, codeBase);
      if native.Returned? {
        var d := HostDecode(native.value, codeBase);
        if d.Continue? {
          DispatchKeepsTranslations(fuel - 1, e', Low8(d.temp), pos, codeBase, s);
        }
      }
    }
  }

  /**
   * An undefined opcode is translated into nothing, so its trampoline hands
   * the same pc back: once the loop reaches it, it never ends.
   */
  lemma {:induction false} InvalidNeverExits(fuel: nat, e: Engine, pc: nat, pos: nat, codeBase: nat)
    requires ValidEngine(e) && pc < pos <= MEMORY_SIZE && pc % 4 == 0 && CodeBaseOk(codeBase)
    requires e.slots[pc / 4].Untranslated? ==> DecodeAt(e.m.mem, pc).Invalid?
    requires e.slots[pc / 4].Body? ==> e.slots[pc / 4].instr.Invalid?
    ensures Dispatch(fuel, e, pc, pos, codeBase).0 == OutOfFuel
    decreases fuel
  {
    if fuel > 0 {
      var slots := Translate(e.slots, e.m.mem, pc);
      assert slots[pc / 4].instr.Invalid?;
      CallInvalid(fuel, e.m, slots, pc / 4, codeBase);
      TrampolineRoundTrip(codeBase, pc / 4);
      InvalidNeverExits(fuel - 1, Engine(e.m, slots), pc, pos, codeBase);
    }
  }

  /** A call that starts at a slot of an undefined opcode runs its trampoline at once. */
  lemma {:induction false} CallInvalid(fuel: nat, m: Machine, slots: seq<SlotContent>, s: nat, codeBase: nat)
    requires ValidMachine(m) && |slots| == SLOTS && s < SLOTS
    requires slots[s].Body? && slots[s].instr.Invalid? && fuel > 0
    ensures Call(fuel, m, slots, s, codeBase) == (Returned(TrampolineValue(codeBase, s)), m)
  {
    assert Step(slots[s].instr, m, 4 * s, codeBase) == Return(m, TrampolineValue(codeBase, s));
  }

  /* ---------------------------------------------------------------- */
  /* The machine object                                                */

  /** The page as the table of slots says: each slot's image, then the end trampoline at 1024. */
  predicate PageMatches(page: seq<Byte>, slots: seq<SlotContent>)
  {
    && |page| > SIZE_CODE + |EndTrampoline()| && |slots| == SLOTS
    && (forall s {:trigger SlotBytes(page, s)} :: 0 <= s < SLOTS ==> SlotBytes(page, s) == SlotImage(slots[s], s))
    && page[SIZE_CODE..SIZE_CODE + |EndTrampoline()|] == EndTrampoline()
  }

  /** `not_interpreted[s]` holds exactly for the slots not translated yet. */
  predicate TableMatches(table: seq<bool>, slots: seq<SlotContent>)
  {
    && |table| == INTERPRETED_SIZE && |slots| == SLOTS
    && forall s :: 0 <= s < SLOTS ==> (table[s] <==> slots[s].Untranslated?)
  }

  /**
   * Overlaying an untranslated slot with the image of new content gives the
   * page of the table with that slot's content replaced.
   */
  lemma {:induction false} OverlayKeepsPage(page: seq<Byte>, slots: seq<SlotContent>, s: nat, c: SlotContent, body: seq<Byte>)
    requires PageMatches(page, slots) && s < SLOTS && slots[s].Untranslated? && |body| <= SLOT_SIZE
    requires SlotImage(c, s) == Overlay(body)
    ensures PageMatches(Patch(page, SLOT_SIZE * s, body), slots[s := c])
  {
    var page', slots' := Patch(page, SLOT_SIZE * s, body), slots[s := c];
    WriteSlot(page, s, body);
    forall t | 0 <= t < SLOTS
      ensures SlotBytes(page', t) == SlotImage(slots'[t], t)
    {
      if t == s {
        assert SlotBytes(page, s) == EmptySlot();
      }
    }
    EndUnchanged(page, page');
  }

  /** Two pages that agree from offset 1024 on hold the same end trampoline. */
  lemma EndUnchanged(page: seq<Byte>, page': seq<Byte>)
    requires |page| == |page'| > SIZE_CODE + |EndTrampoline()| && page'[SIZE_CODE..] == page[SIZE_CODE..]
    ensures page'[SIZE_CODE..SIZE_CODE + |EndTrampoline()|] == page[SIZE_CODE..SIZE_CODE + |EndTrampoline()|]
  {
    assert page'[SIZE_CODE..SIZE_CODE + |EndTrampoline()|] == page'[SIZE_CODE..][..|EndTrampoline()|];
    assert page[SIZE_CODE..SIZE_CODE + |EndTrampoline()|] == page[SIZE_CODE..][..|EndTrampoline()|];
  }

  /**
   * Writing the body of the instruction at `pc` over its untranslated slot
   * gives the page of the table with that slot translated.
   */
  lemma {:induction false} EmitKeepsPage(page: seq<Byte>, slots: seq<SlotContent>, pc: nat, instr: Instr)
    requires PageMatches(page, slots) && pc < MEMORY_SIZE && pc % 4 == 0 && slots[pc / 4].Untranslated?
    ensures PageMatches(Patch(page, 4 * pc, Emit(instr, pc)), slots[pc / 4 := Body(instr)])
  {
    var s := pc / 4;
    SlotOfPc(instr, pc, s);
    OverlayKeepsPage(page, slots, s, Body(instr), Emit(instr, pc));
  }

  /** The slot of `pc` is the slot of bytecode address 4*s: the same body and the same offset. */
  lemma SlotOfPc(instr: Instr, pc: nat, s: nat)
    requires pc < MEMORY_SIZE && pc % 4 == 0 && s == pc / 4
    ensures s < SLOTS && 4 * pc == SLOT_SIZE * s
    ensures SlotImage(Body(instr), s) == Overlay(Emit(instr, pc))
  {
    assert 4 * s == pc;
  }

  /**
   * The start-up page: NOP fill with a final `ret`, a trampoline at the start
   * of every slot and the end trampoline at 1024.
   */
  method NewPage(pageSize: nat) returns (page: array<Byte>)
    requires pageSize > SIZE_CODE + |EndTrampoline()|
    ensures fresh(page) && page.Length == pageSize
    ensures PageMatches(page[..], seq(SLOTS, _ => Untranslated))
    ensures page[pageSize - 1] == RET
    ensures forall k :: SIZE_CODE + |EndTrampoline()| <= k < pageSize - 1 ==> page[k] == NOP
  {
    page := new Byte[pageSize](_ => NOP);
    page[pageSize - 1] := RET;
    WriteTrampolines(page);
    ghost var slotted := page[..];
    WriteBytes(page, SIZE_CODE, EndTrampoline());
    forall t | 0 <= t < SLOTS
      ensures SlotBytes(page[..], t) == SlotImage(Untranslated, t)
    {
      assert SlotBytes(page[..], t) == SlotBytes(slotted, t);
    }
  }

  class JitMachine {
    const codeBase: nat
    /** The executable page: the 1024-byte cache, the end trampoline, NOP fill, a final `ret`. */
    const code: array<Byte>
    /** `not_interpreted[pc / 4]`: slot pc/4 still holds its trampoline. */
    const notInterpreted: array<bool>
    /** What each slot holds, as decoded when it was translated. */
    var slots: seq<SlotContent>
    /** Registers, memory, counters and the saved status. */
    var machine: Machine

    ghost predicate Valid()
      reads this, code, notInterpreted
    {
      && CodeBaseOk(codeBase)
      && ValidEngine(Engine(machine, slots))
      && TableMatches(notInterpreted[..], slots)
      && PageMatches(code[..], slots)
    }

    /**
     * Start-up: the page filled with NOPs and a final `ret`, a trampoline at
     * every slot, the end trampoline at 1024, every slot marked untranslated
     * and the program loaded at the bottom of memory.
     */
    constructor(pageSize: nat, base: nat, program: seq<Byte>)
      requires CodeBaseOk(base) && pageSize > SIZE_CODE + |EndTrampoline()| && |program| <= MEMORY_SIZE
      ensures Valid() && codeBase == base && code.Length == pageSize
      ensures machine == Boot(program)
      ensures forall s :: 0 <= s < SLOTS ==> slots[s] == Untranslated
      ensures code[pageSize - 1] == RET
      ensures forall k :: SIZE_CODE + |EndTrampoline()| <= k < pageSize - 1 ==> code[k] == NOP
    {
      var page := NewPage(pageSize);
      var table := new bool[INTERPRETED_SIZE](_ => true);
      codeBase := base;
      code := page;
      notInterpreted := table;
      slots := seq(SLOTS, _ => Untranslated);
      machine := Boot(program);
    }

    /**
     * The translation step of the loop body: if `not_interpreted[pc / 4]` is
     * set, clear it, decode the instruction at `pc` and write its body over
     * the start of the slot.  No byte outside the slot changes.
     */
    method EnsureTranslated(pc: nat)
      requires Valid() && pc < MEMORY_SIZE && pc % 4 == 0
      modifies this`slots, code, notInterpreted
      ensures Valid() && machine == old(machine)
      ensures slots == Translate(old(slots), machine.mem, pc)
      ensures !notInterpreted[pc / 4]
      ensures forall s :: 0 <= s < INTERPRETED_SIZE && s != pc / 4 ==> notInterpreted[s] == old(notInterpreted[s])
      ensures forall k :: 0 <= k < code.Length && !(4 * pc <= k < 4 * pc + SLOT_SIZE) ==> code[k] == old(code[k])
    {
      if notInterpreted[pc / 4] {
        notInterpreted[pc / 4] := false;
        var instr := DecodeAt(machine.mem, pc);
        EmitKeepsPage(code[..], slots, pc, instr);
        WriteBytes(code, 4 * pc, Emit(instr, pc));
        slots := slots[pc / 4 := Body(instr)];
      }
    }

    /** One iteration's native work: translate the slot of `pc` if need be, then call it. */
    method VisitSlot(pc: nat, fuel: nat) returns (native: Native)
      requires Valid() && pc < MEMORY_SIZE && pc % 4 == 0
      modifies this, code, notInterpreted
      ensures Valid()
      ensures (native, Engine(machine, slots)) == Visit(fuel, old(Engine(machine, slots)), pc, codeBase)
    {
      EnsureTranslated(pc);
      var (n, m) := Call(fuel, machine, slots, pc / 4, codeBase);
      native, machine := n, m;
    }

    /**
     * The body of the dispatch loop at a pc below `pos`: visit the slot and
     * decode what it returned, either into the pc of the next iteration or
     * into the end of the loop.
     */
    method Advance(pc: nat, fuel: nat, pos: nat) returns (turn: Turn)
      requires Valid() && pc < pos <= MEMORY_SIZE && pc % 4 == 0 && fuel > 0
      modifies this, code, notInterpreted
      ensures Valid()
      ensures turn.Done? ==>
                (turn.outcome, Engine(machine, slots)) == Dispatch(fuel, old(Engine(machine, slots)), pc, pos, codeBase)
      ensures turn.Again? ==>
                && turn.pc < MEMORY_SIZE && turn.pc % 4 == 0 && turn.fuel + 1 == fuel
                && Dispatch(turn.fuel, Engine(machine, slots), turn.pc, pos, codeBase)
                   == Dispatch(fuel, old(Engine(machine, slots)), pc, pos, codeBase)
    {
      ghost var before := Engine(machine, slots);
      var native := VisitSlot(pc, fuel);
      if !native.Returned? {
        DispatchFails(fuel, before, pc, pos, codeBase, native, Engine(machine, slots));
        return Done(Failed(native));
      }
      var resume := HostDecode(native.value, codeBase);
      if resume.Stop? {
        DispatchStops(fuel, before, pc, pos, codeBase, native, Engine(machine, slots));
        return Done(Exit(Low16(resume.temp)));
      }
      DispatchContinues(fuel, before, pc, pos, codeBase, native, Engine(machine, slots));
      return Again(Low8(resume.temp), fuel - 1);
    }

    /**
     * The dispatch loop of `main`, bounded by `fuel` iterations: it ends in
     * the outcome, state and cache the specification `Dispatch` gives.
     */
    method Run(pos: nat, fuel: nat) returns (outcome: Outcome)
      requires Valid() && pos <= MEMORY_SIZE
      modifies this, code, notInterpreted
      ensures Valid()
      ensures (outcome, Engine(machine, slots)) == Dispatch(fuel, Engine(old(machine), old(slots)), 0, pos, codeBase)
    {
      var pc: nat := 0;
      var tempPc: nat := 0;
      var steps: nat := fuel;
      while pc < pos
        invariant Valid() && pc < MEMORY_SIZE && pc % 4 == 0 && tempPc == pc
        invariant Dispatch(steps, Engine(machine, slots), pc, pos, codeBase)
                  == Dispatch(fuel, Engine(old(machine), old(slots)), 0, pos, codeBase)
        decreases steps
      {
        if steps == 0 {
          return OutOfFuel;
        }
        var turn := Advance(pc, steps, pos);
        match turn {
          case Done(o) =>
            return o;
          case Again(next, rest) =>
            pc, tempPc, steps := next, next, rest;
        }
      }
      outcome := Exit(Low16(tempPc));
    }
  }
}
