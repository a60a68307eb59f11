/**
 * The C++ variant's engine: what its translated bodies do when the host
 * calls into the cache, how the host reads the returned word, the dispatch
 * loop as a state machine, and the machine object whose 4096-byte page and
 * 256-entry `not_interpreted` vector are updated in place.
 */
module JitCpp {
  import opened Words
  import opened Isa
  import opened CodeCache
  import opened EmitterCpp

  const PAGE_SIZE: nat := 4096
  /** `not_interpreted(MEMORY_SIZE, true)`: one entry per byte address. */
  const INTERPRETED_SIZE: nat := 256

  /** The page after the code region: NOP fill up to the final `ret` at PAGE_SIZE - 1. */
  function Sled(): (b: seq<Byte>)
    ensures |b| == PAGE_SIZE - SIZE_CODE && b[|b| - 1] == RET
    ensures forall k :: 0 <= k < |b| - 1 ==> b[k] == NOP
  {
    seq(PAGE_SIZE - SIZE_CODE - 1, _ => NOP) + [RET]
  }

  /** The bytes of slot `s` for what the cache holds there; its last byte is never written. */
  function SlotImage(c: SlotContent, s: nat): (b: seq<Byte>)
    requires s < SLOTS
    ensures |b| == SLOT_SIZE && b[SLOT_SIZE - 1] == NOP
    ensures c.Untranslated? || c.instr.Invalid? ==> b == EmptySlot()
    ensures c.Body? ==> var body := Emit(c.instr, 4 * s); b[..|body|] == body
  {
    match c
    case Untranslated => EmptySlot()
    case Body(i) => Overlay(Emit(i, 4 * s))
  }

  /* ---------------------------------------------------------------- */
  /* Native execution, in terms of the reference semantics             */

  /**
   * What a body leaves in the scratch registers: rax when it holds a known
   * word, and whether rcx still holds the address of `save_bool`.  Each
   * call starts with rax unknown and rcx as the host passed it.
   */
  datatype Scratch = Scratch(rax: Option<Word>, rcxValid: bool)

  const ENTRY: Scratch := Scratch(None, true)

  /** The branch conditions on the flags `popf` restores: `jg`, `jl` and `je` as the processor tests them. */
  function Taken(c: Cond, s: Status): bool
  {
    match c
    case Always => true
    case Greater => !s.zf && s.sf == s.of
    case Less => s.sf != s.of
    case Equal => s.zf
  }

  /** Restored whole, the status makes JG, JL and JE the signed comparisons of the operands of the last CMP. */
  lemma {:induction false} SignedBranches(a: Word, b: Word)
    ensures var s, v := Compare(a, b), SignedVerdict(a, b);
      && (Taken(Greater, s) <==> v.gt)
      && (Taken(Less, s) <==> v.lt)
      && (Taken(Equal, s) <==> v.eq)
  {
    StatusConditions(a, b);
  }

  /**
   * One translated body, from its first byte.  Every body whose counter
   * `inc` addresses no counter of the sixteen (JE, ADD to XOR, SAL, SAR)
   * writes outside the table and so leaves the modelled state, as do LOAD
   * and STORE at an address whose word does not fit the memory, CMP, JG and
   * JL once a STORE has overwritten rcx, and a jump that does not land on
   * the NOP before a slot.
   */
  function Step(i: Instr, m: Machine, x: Scratch, pc: nat, codeBase: nat): (r: (Step, Scratch))
    requires ValidMachine(m) && pc < MEMORY_SIZE && pc % 4 == 0
    ensures (r.0.Next? || r.0.Goto? || r.0.Return?) ==> ValidMachine(r.0.m)
    ensures r.0.Goto? ==> 4 <= r.0.target < MEMORY_SIZE && r.0.target % 4 == 0
    ensures r.0.Return? ==> IsTrampolineValue(r.0.value, codeBase) || r.0.value < TWO32
    ensures !r.0.Unknown?
    ensures !r.0.Trap? && !i.Invalid? ==> 0 <= CounterIndex(i) < REGISTERS_NUM
  {
    match i
    case MovImm(_, _) => (Next(Count(Execute(i, m, 0), CounterIndex(i))), x)
    case MovReg(_, ry) => (Next(Count(Execute(i, m, 0), CounterIndex(i))), x.(rax := Some(m.regs[ry])))
    case Load(_, ry) =>
      var addr := m.regs[ry];
      if addr + 4 <= MEMORY_SIZE then
        (Next(Count(Execute(i, m, addr), CounterIndex(i))), x.(rax := Some(LoadWord(m.mem, addr))))
      else (Trap, x)
    case Store(rx, _) =>
      var addr := m.regs[rx];
      if addr + 4 <= MEMORY_SIZE then (Next(Count(Execute(i, m, addr), CounterIndex(i))), Scratch(Some(addr), false))
      else (Trap, x)
    case Cmp(_, _) =>
      if x.rcxValid then (Next(Count(Execute(i, m, 0), CounterIndex(i))), x.(rax := None)) else (Trap, x)
    case Jump(c, offset) =>
      if c.Equal? || (!c.Always? && !x.rcxValid) then (Trap, x)
      else Branch(c, offset, Count(m, CounterIndex(i)), m.saved, x, pc)
    case Alu(_, _, _) => (Trap, x)
    case ShiftLeft(_, _) => (Trap, x)
    case ShiftRight(_, _) => (Trap, x)
    case Invalid(_) => (Return(m, TrampolineValue(codeBase, pc / 4)), x)
  }

  /**
   * A body that completes increments exactly the counter its `inc`
   * addresses, which with `MisplacedCounters` is counter 2*opcode.
   */
  lemma {:induction false} StepCounts(i: Instr, m: Machine, x: Scratch, pc: nat, codeBase: nat)
    requires ValidMachine(m) && pc < MEMORY_SIZE && pc % 4 == 0 && !i.Invalid?
    ensures var r := Step(i, m, x, pc, codeBase).0;
      (r.Next? || r.Goto? || r.Return?) ==>
        && 0 <= CounterIndex(i) < REGISTERS_NUM
        && r.m.counts == m.counts[CounterIndex(i) := Wrap32(m.counts[CounterIndex(i)] as int + 1)]
  {
    match i
    case Jump(c, offset) =>
      if !c.Equal? && (c.Always? || x.rcxValid) {
        assert Step(i, m, x, pc, codeBase) == Branch(c, offset, Count(m, CounterIndex(i)), m.saved, x, pc);
      }
    case MovImm(_, _) =>
    case MovReg(_, _) =>
    case Load(_, _) =>
    case Store(_, _) =>
    case Cmp(_, _) =>
    case _ =>
  }

  /**
   * JMP, JG and JL once their counter is incremented: JG and JL load the
   * saved status into eax and restore it; a taken jump leaves through its
   * exit when the target is out of range, and otherwise lands on the NOP
   * before the target's slot, which exists only for a target of 4 or more
   * on a slot boundary.
   */
  function Branch(c: Cond, offset: Half, m: Machine, saved: Status, x: Scratch, pc: nat): (r: (Step, Scratch))
    requires ValidMachine(m) && pc < MEMORY_SIZE
    ensures (r.0.Next? || r.0.Goto? || r.0.Return?) ==> r.0.m == m
    ensures r.0.Goto? ==> 4 <= r.0.target < MEMORY_SIZE && r.0.target % 4 == 0 && r.0.target == Target(pc, offset)
    ensures r.0.Return? ==> MEMORY_SIZE <= r.0.value == Target(pc, offset)
    ensures r.0.Next? <==> !Taken(c, saved)
    ensures !r.0.Unknown?
  {
    var x' := if c.Always? then x else x.(rax := None);
    var t := Target(pc, offset);
    if !Taken(c, saved) then (Next(m), x')
    else if t >= MEMORY_SIZE then (Return(m, t), x'.(rax := Some(t)))
    else if t >= 4 && t % 4 == 0 then (Goto(m, t), x')
    else (Trap, x')
  }

  /** A STORE leaves rcx holding the stored value, so a later CMP, JG or JL in the same call leaves the modelled state. */
  lemma {:induction false} StoreClobbersStatus(rx: Reg, ry: Reg, m: Machine, x: Scratch, pc: nat, codeBase: nat, j: Instr, pc': nat)
    requires ValidMachine(m) && pc < MEMORY_SIZE && pc % 4 == 0 && pc' < MEMORY_SIZE && pc' % 4 == 0
    requires j.Cmp? || (j.Jump? && !j.cond.Always?)
    requires Step(Store(rx, ry), m, x, pc, codeBase).0.Next?
    ensures var (st, x') := Step(Store(rx, ry), m, x, pc, codeBase);
      !x'.rcxValid && Step(j, st.m, x', pc', codeBase).0 == Trap
  {
  }

  /**
   * One call of the cache at slot `s`: bodies run one after another, falling
   * through or jumping, until a `ret`: the trampoline of an untranslated
   * slot, an out-of-range exit, or, past the last slot, the `ret` at the end
   * of the page, reached through the NOP fill with whatever rax holds.
   */
  function Call(fuel: nat, m: Machine, x: Scratch, slots: seq<SlotContent>, s: nat, codeBase: nat): (r: (Native, Machine))
    requires ValidMachine(m) && |slots| == SLOTS && s <= SLOTS
    ensures ValidMachine(r.1)
    ensures r.0.Returned? ==> r.0.value < TWO32 || IsTrampolineValue(r.0.value, codeBase)
    decreases fuel
  {
    if s == SLOTS then
      (if x.rax.Some? then (Returned(x.rax.value), m) else (Unspecified, m))
    else match slots[s]
      case Untranslated =>
        TrampolineShape(codeBase, s);
        (Returned(TrampolineValue(codeBase, s)), m)
      case Body(i) =>
        if fuel == 0 then (Exhausted, m)
        else match Step(i, m, x, 4 * s, codeBase)
          case (Next(m'), x') => Call(fuel - 1, m', x', slots, s + 1, codeBase)
          case (Goto(m', t), x') => Call(fuel - 1, m', x', slots, t / 4, codeBase)
          case (Return(m', v), _) => (Returned(v), m')
          case (Trap, _) => (Crashed, m)
          case (Unknown, _) => (Unspecified, m)
  }

  /* ---------------------------------------------------------------- */
  /* The host side                                                     */

  /**
   * A word inside [code_base, code_base + 1024) is a slot reference,
   * `pc = (result - code_base) / 4` then `pc--` on the uint16_t pc; any
   * other word is stored into pc, truncated to 32 and then 16 bits, and
   * ends the loop whatever its value.
   */
  function HostDecode(result: nat, codeBase: nat): (d: Resume)
    ensures d.temp < TWO16
  {
    if codeBase <= result < codeBase + SIZE_CODE then Continue((Low16((result - codeBase) / 4) + TWO16 - 1) % TWO16)
    else Stop(Low16(Wrap32(result)))
  }

  /** The host recovers the slot's bytecode address from its trampoline's word. */
  lemma {:induction false} TrampolineRoundTrip(codeBase: nat, s: nat)
    requires s < SLOTS
    ensures HostDecode(TrampolineValue(codeBase, s), codeBase) == Continue(4 * s)
  {
    assert (SLOT_SIZE * s + LEA_LENGTH) / 4 == 4 * s + 1;
  }

  /** Any 32-bit word names no slot: the loop ends with its low sixteen bits as the pc. */
  lemma {:induction false} RawExit(v: nat, codeBase: nat)
    requires CodeBaseOk(codeBase) && v < TWO32
    ensures HostDecode(v, codeBase) == Stop(v % TWO16)
  {
  }

  /** A decoded word the loop can go on with: a slot boundary. */
  predicate Resumable(d: Resume)
  {
    d.Continue? ==> d.temp < MEMORY_SIZE && d.temp % 4 == 0
  }

  /** Every word a call can return makes the host continue at a slot boundary, or stop. */
  lemma {:induction false} DecodeReturned(v: nat, codeBase: nat)
    requires CodeBaseOk(codeBase)
    requires v < TWO32 || IsTrampolineValue(v, codeBase)
    ensures Resumable(HostDecode(v, codeBase))
  {
    if IsTrampolineValue(v, codeBase) {
      var s := (v - codeBase) / SLOT_SIZE;
      assert v == TrampolineValue(codeBase, s);
      TrampolineRoundTrip(codeBase, s);
    }
  }

  /**
   * The slot the host calls after the translation step: the slot of `pc`,
   * or, when `pc` has just been found to hold an undefined opcode,
   * `pc = 256`, the page just past the last slot.
   */
  function CallSite(slots: seq<SlotContent>, mem: seq<Byte>, pc: nat): (s: nat)
    requires |slots| == SLOTS && |mem| == MEMORY_SIZE && pc < MEMORY_SIZE && pc % 4 == 0
    ensures s <= SLOTS
    ensures s == SLOTS <==> slots[pc / 4].Untranslated? && DecodeAt(mem, pc).Invalid?
  {
    if slots[pc / 4].Untranslated? && DecodeAt(mem, pc).Invalid? then SLOTS else pc / 4
  }

  /** One iteration's work before the result is decoded: translate the slot of `pc`, then call the cache. */
  function Visit(fuel: nat, e: Engine, pc: nat, codeBase: nat): (r: (Native, Engine))
    requires ValidEngine(e) && pc < MEMORY_SIZE && pc % 4 == 0 && CodeBaseOk(codeBase)
    ensures ValidEngine(r.1) && r.1.slots == Translate(e.slots, e.m.mem, pc)
    ensures r.0.Returned? ==> Resumable(HostDecode(r.0.value, codeBase))
  {
    var slots := Translate(e.slots, e.m.mem, pc);
    var (native, m) := Call(fuel, e.m, ENTRY, slots, CallSite(e.slots, e.m.mem, pc), codeBase);
    var r := (native, Engine(m, slots));
    if native.Returned? then DecodeReturned(native.value, codeBase); r else r
  }

  /**
   * The dispatch loop `while (pc < pos)`: translate the slot of `pc` if its
   * `not_interpreted` entry is still set, call the cache, and decode the
   * result.  The loop ends at a pc at or beyond the end of the program, or
   * at the first word naming no slot; the exit line prints that pc.
   */
  function Dispatch(fuel: nat, e: Engine, pc: nat, pos: nat, codeBase: nat): (r: (Outcome, Engine))
    requires ValidEngine(e) && pc < MEMORY_SIZE && pc % 4 == 0 && pos <= MEMORY_SIZE && CodeBaseOk(codeBase)
    ensures ValidEngine(r.1) && (r.0.Exit? ==> r.0.pc < TWO16)
    decreases fuel, 1
  {
    if pc >= pos then (Exit(pc), e)
    else if fuel == 0 then (OutOfFuel, e)
    else Iterate(fuel, e, pc, pos, codeBase)
  }

  /** One pass of the loop body at a pc below `pos`: the call, then the next pc or the `break`. */
  function Iterate(fuel: nat, e: Engine, pc: nat, pos: nat, codeBase: nat): (r: (Outcome, Engine))
    requires ValidEngine(e) && pc < pos <= MEMORY_SIZE && pc % 4 == 0 && CodeBaseOk(codeBase) && fuel > 0
    ensures ValidEngine(r.1) && (r.0.Exit? ==> r.0.pc < TWO16)
    decreases fuel, 0
  {
    var (native, e') := Visit(fuel, e, pc, codeBase);
    match native
    case Returned(v) =>
      var resume := HostDecode(v, codeBase);
      if resume.Stop? then (Exit(resume.temp), e')
      else Dispatch(fuel - 1, e', resume.temp, pos, codeBase)
    case _ => (Failed(native), e')
  }

  /** An iteration that decodes a slot boundary goes on at that pc, one unit of fuel down. */
  lemma DispatchContinues(fuel: nat, e: Engine, pc: nat, pos: nat, codeBase: nat, native: Native, e': Engine)
    requires ValidEngine(e) && pc < pos <= MEMORY_SIZE && pc % 4 == 0 && CodeBaseOk(codeBase) && fuel > 0
    requires (native, e') == Visit(fuel, e, pc, codeBase)
    requires native.Returned? && HostDecode(native.value, codeBase).Continue?
    ensures var t := HostDecode(native.value, codeBase).temp;
      t < MEMORY_SIZE && t % 4 == 0 && Dispatch(fuel, e, pc, pos, codeBase) == Dispatch(fuel - 1, e', t, pos, codeBase)
  {
  }

  /** An iteration whose word names no slot ends the loop at that word's low sixteen bits. */
  lemma DispatchStops(fuel: nat, e: Engine, pc: nat, pos: nat, codeBase: nat, native: Native, e': Engine)
    requires ValidEngine(e) && pc < pos <= MEMORY_SIZE && pc % 4 == 0 && CodeBaseOk(codeBase) && fuel > 0
    requires (native, e') == Visit(fuel, e, pc, codeBase)
    requires native.Returned? && HostDecode(native.value, codeBase).Stop?
    ensures Dispatch(fuel, e, pc, pos, codeBase) == (Exit(HostDecode(native.value, codeBase).temp), e')
  {
  }

  /** An iteration whose call does not return a word ends the loop with the failure. */
  lemma DispatchFails(fuel: nat, e: Engine, pc: nat, pos: nat, codeBase: nat, native: Native, e': Engine)
    requires ValidEngine(e) && pc < pos <= MEMORY_SIZE && pc % 4 == 0 && CodeBaseOk(codeBase) && fuel > 0
    requires (native, e') == Visit(fuel, e, pc, codeBase)
    requires !native.Returned?
    ensures Dispatch(fuel, e, pc, pos, codeBase) == (Failed(native), e')
  {
  }

  /* ---------------------------------------------------------------- */
  /* Properties of the loop                                            */

  /** Write-once: a slot translated before the loop is still the same translation after it. */
  lemma {:induction false} DispatchKeepsTranslations(fuel: nat, e: Engine, pc: nat, pos: nat, codeBase: nat, s: nat)
    requires ValidEngine(e) && pc < MEMORY_SIZE && pc % 4 == 0 && pos <= MEMORY_SIZE && CodeBaseOk(codeBase)
    requires s < SLOTS && e.slots[s].Body?
    ensures Dispatch(fuel, e, pc, pos, codeBase).1.slots[s] == e.slots[s]
    decreases fuel
  {
    if pc < pos && fuel > 0 {
      var (native, e') := Visit(fuel, e, pc, codeBase);
      if native.Returned? {
        var d := HostDecode(native.value, codeBase);
        if d.Continue? {
          DispatchKeepsTranslations(fuel - 1, e', d.temp, pos, codeBase, s);
        }
      }
    }
  }

  /**
   * Reaching an undefined opcode sends the call to the NOP fill past the
   * cache with rax never set, so the word the host gets back, and with it
   * everything after, is unspecified.
   */
  lemma {:induction false} InvalidUndetermined(fuel: nat, e: Engine, pc: nat, pos: nat, codeBase: nat)
    requires ValidEngine(e) && pc < pos <= MEMORY_SIZE && pc % 4 == 0 && CodeBaseOk(codeBase) && fuel > 0
    requires e.slots[pc / 4].Untranslated? && DecodeAt(e.m.mem, pc).Invalid?
    ensures Dispatch(fuel, e, pc, pos, codeBase).0 == Undetermined
  {
    var slots := Translate(e.slots, e.m.mem, pc);
    assert Call(fuel, e.m, ENTRY, slots, SLOTS, codeBase).0 == Unspecified;
  }

  /**
   * A taken out-of-range jump, translated and reached from the host, ends the
   * loop at once at its target's low sixteen bits, even when they are below
   * the end of the program.
   */
  lemma {:induction false} JumpOutExits(fuel: nat, e: Engine, pc: nat, pos: nat, codeBase: nat, offset: Half)
    requires ValidEngine(e) && pc < pos <= MEMORY_SIZE && pc % 4 == 0 && CodeBaseOk(codeBase) && fuel > 0
    requires Translate(e.slots, e.m.mem, pc)[pc / 4] == Body(Jump(Always, offset))
    requires Target(pc, offset) >= MEMORY_SIZE
    ensures Dispatch(fuel, e, pc, pos, codeBase).0 == Exit(Target(pc, offset) % TWO16)
  {
    var t := Target(pc, offset);
    var i := Jump(Always, offset);
    assert Step(i, e.m, ENTRY, 4 * (pc / 4), codeBase).0.Return? by {
      assert 4 * (pc / 4) == pc;
    }
    RawExit(t, codeBase);
  }

  /* ---------------------------------------------------------------- */
  /* The machine object                                                */

  /** The page as the table of slots says: each slot's image, then the NOP fill and the final `ret`. */
  predicate PageMatches(page: seq<Byte>, slots: seq<SlotContent>)
  {
    && |page| == PAGE_SIZE && |slots| == SLOTS
    && (forall s {:trigger SlotBytes(page, s)} :: 0 <= s < SLOTS ==> SlotBytes(page, s) == SlotImage(slots[s], s))
    && page[SIZE_CODE..] == Sled()
  }

  /**
   * `not_interpreted[pc]` holds exactly for the slot starts not translated
   * yet, and for every address that is not a slot start, which the loop
   * never visits.
   */
  predicate TableMatches(table: seq<bool>, slots: seq<SlotContent>)
  {
    && |table| == INTERPRETED_SIZE && |slots| == SLOTS
    && forall p :: 0 <= p < INTERPRETED_SIZE ==> (table[p] <==> p % 4 != 0 || slots[p / 4].Untranslated?)
  }

  /**
   * Overlaying an untranslated slot with the image of new content gives the
   * page of the table with that slot's content replaced.
   */
  lemma {:induction false} OverlayKeepsPage(page: seq<Byte>, slots: seq<SlotContent>, s: nat, c: SlotContent, body: seq<Byte>)
    requires PageMatches(page, slots) && s < SLOTS && slots[s].Untranslated? && |body| <= SLOT_SIZE
    requires SlotImage(c, s) == Overlay(body)
    ensures PageMatches(Patch(page, SLOT_SIZE * s, body), slots[s := c])
  {
    var page', slots' := Patch(page, SLOT_SIZE * s, body), slots[s := c];
    WriteSlot(page, s, body);
    forall t | 0 <= t < SLOTS
      ensures SlotBytes(page', t) == SlotImage(slots'[t], t)
    {
      if t == s {
        assert SlotBytes(page, s) == EmptySlot();
      }
    }
  }

  /**
   * Writing the body of the instruction at `pc` over its untranslated slot
   * gives the page of the table with that slot translated.
   */
  lemma {:induction false} EmitKeepsPage(page: seq<Byte>, slots: seq<SlotContent>, pc: nat, instr: Instr)
    requires PageMatches(page, slots) && pc < MEMORY_SIZE && pc % 4 == 0 && slots[pc / 4].Untranslated?
    ensures PageMatches(Patch(page, 4 * pc, Emit(instr, pc)), slots[pc / 4 := Body(instr)])
  {
    var s := pc / 4;
    SlotOfPc(instr, pc, s);
    OverlayKeepsPage(page, slots, s, Body(instr), Emit(instr, pc));
  }

  /** The slot of `pc` is the slot of bytecode address 4*s: the same body and the same offset. */
  lemma SlotOfPc(instr: Instr, pc: nat, s: nat)
    requires pc < MEMORY_SIZE && pc % 4 == 0 && s == pc / 4
    ensures s < SLOTS && 4 * pc == SLOT_SIZE * s
    ensures SlotImage(Body(instr), s) == Overlay(Emit(instr, pc))
  {
    assert 4 * s == pc;
  }

  /**
   * Every in-range jump lands on the last byte of the slot before its
   * target's, which is a NOP in every page the table describes, so execution
   * slides into the target's slot.
   */
  lemma {:induction false} LandingPad(page: seq<Byte>, slots: seq<SlotContent>, t: nat)
    requires PageMatches(page, slots) && 4 <= t < MEMORY_SIZE && t % 4 == 0
    ensures page[4 * t - 1] == NOP
  {
    var s := t / 4 - 1;
    assert 4 * t - 1 == SLOT_SIZE * s + (SLOT_SIZE - 1);
    assert page[4 * t - 1] == SlotBytes(page, s)[SLOT_SIZE - 1];
  }

  /** The start-up page: NOP fill with a final `ret` and a trampoline at the start of every slot. */
  method NewPage() returns (page: array<Byte>)
    ensures fresh(page) && page.Length == PAGE_SIZE
    ensures PageMatches(page[..], seq(SLOTS, _ => Untranslated))
  {
    page := new Byte[PAGE_SIZE](_ => NOP);
    page[PAGE_SIZE - 1] := RET;
    ghost var filled := page[..];
    WriteTrampolines(page);
    assert page[SIZE_CODE..] == Sled() by {
      forall k | SIZE_CODE <= k < PAGE_SIZE
        ensures page[k] == Sled()[k - SIZE_CODE]
      {
        assert page[k] == filled[k];
      }
    }
  }

  class JitMachine {
    const codeBase: nat
    /** The executable page: the 1024-byte cache, then NOP fill up to a final `ret`. */
    const code: array<Byte>
    /** `not_interpreted[pc]`: the slot starting at bytecode address pc still holds its trampoline. */
    const notInterpreted: array<bool>
    /** What each slot holds, as decoded when it was translated. */
    var slots: seq<SlotContent>
    /** Registers, memory, counters and the saved status. */
    var machine: Machine

    ghost predicate Valid()
      reads this, code, notInterpreted
    {
      && CodeBaseOk(codeBase)
      && ValidEngine(Engine(machine, slots))
      && TableMatches(notInterpreted[..], slots)
      && PageMatches(code[..], slots)
    }

    /**
     * The constructor of `Machine_x86` and the program load: the page filled
     * with NOPs and a final `ret`, a trampoline at every slot, every entry of
     * `not_interpreted` set and the program at the bottom of memory.
     */
    constructor(base: nat, program: seq<Byte>)
      requires CodeBaseOk(base) && |program| <= MEMORY_SIZE
      ensures Valid() && codeBase == base && code.Length == PAGE_SIZE
      ensures machine == Boot(program)
      ensures forall s :: 0 <= s < SLOTS ==> slots[s] == Untranslated
      ensures forall p :: 0 <= p < INTERPRETED_SIZE ==> notInterpreted[p]
    {
      var page := NewPage();
      var table := new bool[INTERPRETED_SIZE](_ => true);
      codeBase := base;
      code := page;
      notInterpreted := table;
      slots := seq(SLOTS, _ => Untranslated);
      machine := Boot(program);
    }

    /**
     * The translation step of the loop body: if `not_interpreted[pc]` is
     * set, clear it, decode the instruction at `pc` and write its body over
     * the start of the slot; an undefined opcode writes nothing and moves
     * the call to pc 256.  No byte outside the slot changes.
     */
    method EnsureTranslated(pc: nat) returns (callPc: nat)
      requires Valid() && pc < MEMORY_SIZE && pc % 4 == 0
      modifies this`slots, code, notInterpreted
      ensures Valid() && machine == old(machine)
      ensures slots == Translate(old(slots), machine.mem, pc)
      ensures callPc == 4 * CallSite(old(slots), machine.mem, pc)
      ensures !notInterpreted[pc]
      ensures forall p :: 0 <= p < INTERPRETED_SIZE && p != pc ==> notInterpreted[p] == old(notInterpreted[p])
      ensures forall k :: 0 <= k < code.Length && !(4 * pc <= k < 4 * pc + SLOT_SIZE) ==> code[k] == old(code[k])
    {
      callPc := pc;
      if notInterpreted[pc] {
        notInterpreted[pc] := false;
        var instr := DecodeAt(machine.mem, pc);
        EmitKeepsPage(code[..], slots, pc, instr);
        WriteBytes(code, 4 * pc, Emit(instr, pc));
        slots := slots[pc / 4 := Body(instr)];
        if instr.Invalid? {
          callPc := MEMORY_SIZE;
        }
      }
    }

    /** One iteration's native work: translate the slot of `pc` if need be, then call the cache. */
    method VisitSlot(pc: nat, fuel: nat) returns (native: Native)
      requires Valid() && pc < MEMORY_SIZE && pc % 4 == 0
      modifies this, code, notInterpreted
      ensures Valid()
      ensures (native, Engine(machine, slots)) == Visit(fuel, old(Engine(machine, slots)), pc, codeBase)
    {
      var callPc := EnsureTranslated(pc);
      var (n, m) := Call(fuel, machine, ENTRY, slots, callPc / 4, codeBase);
      native, machine := n, m;
    }

    /**
     * The body of the dispatch loop at a pc below `pos`: visit the slot and
     * decode what it returned, either into the pc of the next iteration or
     * into the end of the loop.
     */
    method Advance(pc: nat, fuel: nat, pos: nat) returns (turn: Turn)
      requires Valid() && pc < pos <= MEMORY_SIZE && pc % 4 == 0 && fuel > 0
      modifies this, code, notInterpreted
      ensures Valid()
      ensures turn.Done? ==>
                (turn.outcome, Engine(machine, slots)) == Dispatch(fuel, old(Engine(machine, slots)), pc, pos, codeBase)
      ensures turn.Again? ==>
                && turn.pc < MEMORY_SIZE && turn.pc % 4 == 0 && turn.fuel + 1 == fuel
                && Dispatch(turn.fuel, Engine(machine, slots), turn.pc, pos, codeBase)
                   == Dispatch(fuel, old(Engine(machine, slots)), pc, pos, codeBase)
    {
      ghost var before := Engine(machine, slots);
      var native := VisitSlot(pc, fuel);
      if !native.Returned? {
        DispatchFails(fuel, before, pc, pos, codeBase, native, Engine(machine, slots));
        return Done(Failed(native));
      }
      var resume := HostDecode(native.value, codeBase);
      if resume.Stop? {
        DispatchStops(fuel, before, pc, pos, codeBase, native, Engine(machine, slots));
        return Done(Exit(resume.temp));
      }
      DispatchContinues(fuel, before, pc, pos, codeBase, native, Engine(machine, slots));
      return Again(resume.temp, fuel - 1);
    }

    /**
     * The dispatch loop of `main`, bounded by `fuel` iterations: it ends in
     * the outcome, state and cache the specification `Dispatch` gives.
     */
    method Run(pos: nat, fuel: nat) returns (outcome: Outcome)
      requires Valid() && pos <= MEMORY_SIZE
      modifies this, code, notInterpreted
      ensures Valid()
      ensures (outcome, Engine(machine, slots)) == Dispatch(fuel, Engine(old(machine), old(slots)), 0, pos, codeBase)
    {
      var pc: nat := 0;
      var steps: nat := fuel;
      while pc < pos
        invariant Valid() && pc < MEMORY_SIZE && pc % 4 == 0
        invariant Dispatch(steps, Engine(machine, slots), pc, pos, codeBase)
                  == Dispatch(fuel, Engine(old(machine), old(slots)), 0, pos, codeBase)
        decreases steps
      {
        if steps == 0 {
          return OutOfFuel;
        }
        var turn := Advance(pc, steps, pos);
        match turn {
          case Done(o) =>
            return o;
          case Again(next, rest) =>
            pc, steps := next, rest;
        }
      }
      outcome := Exit(pc);
    }
  }
}
