/**
 * A whole run of each engine on one small program: MOV R1, 5; MOV R2, 10;
 * ADD R1, R2, twelve bytes loaded at address 0.
 */
module Scenarios {
  import opened Words
  import opened Isa
  import opened CodeCache
  import JitC
  import JitCpp

  const SUM: seq<Byte> := [0x00, 0x10, 0x05, 0x00, 0x00, 0x20, 0x0A, 0x00, 0x09, 0x12, 0x00, 0x00]

  function Start(): (e: Engine)
    ensures ValidEngine(e)
  {
    Engine(Boot(SUM), seq(SLOTS, _ => Untranslated))
  }

  lemma Program(mem: seq<Byte>)
    requires mem == Start().m.mem
    ensures DecodeAt(mem, 0) == MovImm(1, 5)
    ensures DecodeAt(mem, 4) == MovImm(2, 10)
    ensures DecodeAt(mem, 8) == Alu(Add, 1, 2)
  {
    assert mem[..12] == SUM;
    assert mem[0] == 0x00 && mem[1] == 0x10 && mem[2] == 0x05 && mem[3] == 0x00;
    assert mem[4] == 0x00 && mem[5] == 0x20 && mem[6] == 0x0A && mem[7] == 0x00;
    assert mem[8] == 0x09 && mem[9] == 0x12 && mem[10] == 0x00 && mem[11] == 0x00;
  }

  /** The first `n` instructions of the program translated, the rest of the cache untouched, the program in memory. */
  predicate Translated(e: Engine, n: nat)
  {
    && ValidEngine(e) && e.m.mem == Start().m.mem
    && (forall s :: n <= s < SLOTS ==> e.slots[s] == Untranslated)
    && (n > 0 ==> e.slots[0] == Body(MovImm(1, 5)))
    && (n > 1 ==> e.slots[1] == Body(MovImm(2, 10)))
    && (n > 2 ==> e.slots[2] == Body(Alu(Add, 1, 2)))
  }

  lemma Small(n: int)
    requires 0 <= n < TWO32
    ensures Wrap32(n) == n
  {
  }

  /* The C engine, one visit at a time. */

  lemma {:induction false} FirstVisitC(e: Engine, codeBase: nat) returns (e': Engine)
    requires Translated(e, 0) && CodeBaseOk(codeBase)
    ensures Translated(e', 1)
    ensures e'.m.regs[1] == 5 && e'.m.regs[2] == e.m.regs[2]
    ensures e'.m.counts[0] == Wrap32(e.m.counts[0] as int + 1) && e'.m.counts[9] == e.m.counts[9]
    ensures JitC.Dispatch(3, e, 0, 12, codeBase) == JitC.Dispatch(2, e', 4, 12, codeBase)
  {
    Program(e.m.mem);
    var n;
    n, e' := JitC.Visit(3, e, 0, codeBase).0, JitC.Visit(3, e, 0, codeBase).1;
    assert n == Returned(TrampolineValue(codeBase, 1));
    JitC.TrampolineRoundTrip(codeBase, 1);
    JitC.DispatchContinues(3, e, 0, 12, codeBase, n, e');
  }

  lemma {:induction false} SecondVisitC(e: Engine, codeBase: nat) returns (e': Engine)
    requires Translated(e, 1) && CodeBaseOk(codeBase)
    ensures Translated(e', 2)
    ensures e'.m.regs[1] == e.m.regs[1] && e'.m.regs[2] == 10
    ensures e'.m.counts[0] == Wrap32(e.m.counts[0] as int + 1) && e'.m.counts[9] == e.m.counts[9]
    ensures JitC.Dispatch(2, e, 4, 12, codeBase) == JitC.Dispatch(1, e', 8, 12, codeBase)
  {
    Program(e.m.mem);
    var n;
    n, e' := JitC.Visit(2, e, 4, codeBase).0, JitC.Visit(2, e, 4, codeBase).1;
    assert n == Returned(TrampolineValue(codeBase, 2));
    JitC.TrampolineRoundTrip(codeBase, 2);
    JitC.DispatchContinues(2, e, 4, 12, codeBase, n, e');
  }

  lemma {:induction false} ThirdVisitC(e: Engine, codeBase: nat) returns (e': Engine)
    requires Translated(e, 2) && CodeBaseOk(codeBase)
    ensures Translated(e', 3)
    ensures e'.m.regs[1] == Wrap32(e.m.regs[1] as int + e.m.regs[2]) && e'.m.regs[2] == e.m.regs[2]
    ensures e'.m.counts[0] == e.m.counts[0] && e'.m.counts[9] == Wrap32(e.m.counts[9] as int + 1)
    ensures JitC.Dispatch(1, e, 8, 12, codeBase) == JitC.Dispatch(0, e', 12, 12, codeBase)
  {
    Program(e.m.mem);
    var n;
    n, e' := JitC.Visit(1, e, 8, codeBase).0, JitC.Visit(1, e, 8, codeBase).1;
    assert n == Returned(TrampolineValue(codeBase, 3));
    JitC.TrampolineRoundTrip(codeBase, 3);
    JitC.DispatchContinues(1, e, 8, 12, codeBase, n, e');
  }

  /** A freshly loaded engine: the program in memory, registers and counters zero, nothing translated. */
  predicate Fresh(e: Engine)
  {
    && Translated(e, 0)
    && e.m.regs[1] == 0 && e.m.regs[2] == 0 && e.m.counts[0] == 0 && e.m.counts[9] == 0
  }

  lemma StartFresh()
    ensures Fresh(Start())
  {
  }

  /**
   * The C engine runs each instruction once, in three visits, and leaves
   * at pc 12 with R1 = 15, R2 = 10 and the counters of MOV_IMM and ADD at 2
   * and 1.
   */
  lemma {:induction false} SumInC(e: Engine, codeBase: nat)
    requires Fresh(e) && CodeBaseOk(codeBase)
    ensures var r := JitC.Dispatch(3, e, 0, 12, codeBase);
      && r.0 == Exit(12)
      && r.1.m.regs[1] == 15 && r.1.m.regs[2] == 10
      && r.1.m.counts[0] == 2 && r.1.m.counts[9] == 1
  {
    var e1 := FirstVisitC(e, codeBase);
    Small(e.m.counts[0] as int + 1);
    var e2 := SecondVisitC(e1, codeBase);
    Small(e1.m.counts[0] as int + 1);
    var e3 := ThirdVisitC(e2, codeBase);
    Small(e2.m.regs[1] as int + e2.m.regs[2]);
    Small(e2.m.counts[9] as int + 1);
    var r := JitC.Dispatch(0, e3, 12, 12, codeBase);
    assert r == (Exit(12), e3);
  }

  /* The C++ engine on the same program. */

  lemma {:induction false} FirstVisitCpp(e: Engine, codeBase: nat) returns (e': Engine)
    requires Translated(e, 0) && CodeBaseOk(codeBase)
    ensures Translated(e', 1)
    ensures e'.m.regs[1] == 5 && e'.m.regs[2] == e.m.regs[2]
    ensures JitCpp.Dispatch(3, e, 0, 12, codeBase) == JitCpp.Dispatch(2, e', 4, 12, codeBase)
  {
    Program(e.m.mem);
    var n;
    n, e' := JitCpp.Visit(3, e, 0, codeBase).0, JitCpp.Visit(3, e, 0, codeBase).1;
    assert n == Returned(TrampolineValue(codeBase, 1));
    JitCpp.TrampolineRoundTrip(codeBase, 1);
    JitCpp.DispatchContinues(3, e, 0, 12, codeBase, n, e');
  }

  lemma {:induction false} SecondVisitCpp(e: Engine, codeBase: nat) returns (e': Engine)
    requires Translated(e, 1) && CodeBaseOk(codeBase)
    ensures Translated(e', 2)
    ensures e'.m.regs[1] == e.m.regs[1] && e'.m.regs[2] == 10
    ensures JitCpp.Dispatch(2, e, 4, 12, codeBase) == JitCpp.Dispatch(1, e', 8, 12, codeBase)
  {
    Program(e.m.mem);
    var n;
    n, e' := JitCpp.Visit(2, e, 4, codeBase).0, JitCpp.Visit(2, e, 4, codeBase).1;
    assert n == Returned(TrampolineValue(codeBase, 2));
    JitCpp.TrampolineRoundTrip(codeBase, 2);
    JitCpp.DispatchContinues(2, e, 4, 12, codeBase, n, e');
  }

  lemma {:induction false} ThirdVisitCpp(e: Engine, codeBase: nat)
    requires Translated(e, 2) && CodeBaseOk(codeBase)
    ensures JitCpp.Dispatch(1, e, 8, 12, codeBase).0 == Crash
  {
    Program(e.m.mem);
    var (n, e') := JitCpp.Visit(1, e, 8, codeBase);
    assert n == Crashed;
    JitCpp.DispatchFails(1, e, 8, 12, codeBase, n, e');
  }

  /**
   * The C++ engine runs the two moves and then reaches ADD's counter write,
   * 112 bytes before the counter table: outside the modelled state, which
   * the model labels `Crash`.
   */
  lemma {:induction false} SumInCpp(e: Engine, codeBase: nat)
    requires Fresh(e) && CodeBaseOk(codeBase)
    ensures JitCpp.Dispatch(3, e, 0, 12, codeBase).0 == Crash
  {
    var e1 := FirstVisitCpp(e, codeBase);
    var e2 := SecondVisitCpp(e1, codeBase);
    ThirdVisitCpp(e2, codeBase);
  }
}
