/**
 A program interrupted any number of times runs as if it had not been.

 The handlers may leave memory changed, as a stack frame does: the program must not read a
 byte that a handler has changed and that it has not written since.
 */
module InterruptedRuns {
  import opened Words
  import opened MemoryUnit
  import opened RegisterFile
  import opened ArmCore
  import opened Exceptions
  import opened Instruction
  import opened Confinement
  import opened Interrupts
  import opened Unseen
  import opened Footprints
  import HandlerFrames

  /**
   What happens to a program: one of its instructions, an interrupt it has masked, or one that
   is served, by a delivery, the instructions and deliveries of a handler, and its return.
   */
  datatype Event =
    | Program(input: Input)
    | Masking(input: Input)
    | Served(entry: Input, handler: seq<Action>, leave: Input)

  function ActionsOf(e: Event): seq<Action> {
    match e
    case Program(input) => [Instr(input)]
    case Masking(input) => [Irq(input)]
    case Served(entry, handler, leave) => [Irq(entry)] + handler + [Instr(leave)]
  }

  function AllActions(es: seq<Event>): seq<Action> {
    if es == [] then [] else ActionsOf(es[0]) + AllActions(es[1..])
  }

  /** The program alone. */
  function ProgramAlone(es: seq<Event>): seq<Action> {
    if es == [] then [] else (if es[0].Program? then [Instr(es[0].input)] else []) + ProgramAlone(es[1..])
  }

  /**
   An interrupt served so that nothing of it remains but in memory: the handler gives back what
   `InterruptTransparent` asks for, and the interrupted PC and NZCV are such that the return
   restores them.
   */
  ghost predicate ServedWell(s: State, handler: seq<Action>) {
    var e := EnterIrq(s);
    && !Masked(Cpsr(s)) && StaysInIrq(e, handler)
    && (RunTo(e, handler).Done? ==>
          var u := RunTo(e, handler).s; HandlerRestored(e, u) && AtReturn(u))
    && Pc(s) % 4 < 2 && FlagsOfReturn(Cpsr(s), ClearBit1(Add(Pc(s), 4)))
  }

  /** The bytes that differ. */
  function Changed(m: Bytes, m': Bytes): set<int> {
    set x | 0 <= x < |m| && (x >= |m'| || m[x] != m'[x])
  }

  /** The bytes handlers have changed and the program has not written since, after one more event. */
  ghost function Spread(s: State, d: set<int>, e: Event, t: State): set<int> {
    match e
    case Program(_) => StepLeft(Seen(s), d)
    case Masking(_) => d
    case Served(_, _, _) => d + Changed(s.mem, t.mem)
  }

  /**
   The program stays outside IRQ mode and reads none of those bytes, and each of its interrupts
   is masked or served well.
   */
  ghost predicate Orderly(s: State, d: set<int>, es: seq<Event>)
    decreases |es|
  {
    es == [] ||
    (&& OutsideIrq(s)
     && (es[0].Program? ==> StepClean(Seen(s), es[0].input, d))
     && (es[0].Masking? ==> Masked(Cpsr(s)))
     && (es[0].Served? ==> ServedWell(s, es[0].handler))
     && var o := RunTo(s, ActionsOf(es[0]));
        (o.Done? ==> Orderly(o.s, Spread(s, d, es[0], o.s), es[1..])))
  }

  /** Those bytes at the end of a run. */
  ghost function Dirty(s: State, d: set<int>, es: seq<Event>): set<int>
    decreases |es|
  {
    if es == [] then d
    else match RunTo(s, ActionsOf(es[0]))
         case Undefined => d
         case Done(t, _) => Dirty(t, Spread(s, d, es[0], t), es[1..])
  }

  lemma {:induction false} RunAppends(s: State, a: seq<Action>, b: seq<Action>)
    ensures RunTo(s, a + b) == if RunTo(s, a).Done? then RunTo(RunTo(s, a).s, b) else Undefined
    decreases |a|
  {
    hide Act;
    if a == [] {
      assert a + b == b;
    } else {
      assert (a + b)[0] == a[0] && (a + b)[1..] == a[1..] + b;
      if Act(s, a[0]).Done? { RunAppends(Act(s, a[0]).s, a[1..], b); }
    }
  }

  lemma RunOne(s: State, a: Action)
    ensures RunTo(s, [a]) == match Act(s, a) case Undefined => Undefined case Done(t, _) => Done(t, 0)
  {
    hide Act;
    if Act(s, a).Done? { assert RunTo(Act(s, a).s, [a][1..]) == Done(Act(s, a).s, 0); }
  }

  /** An interrupt served well leaves a state that looks the same but for memory. */
  lemma ServedUnseen(s: State, entry: Input, handler: seq<Action>, leave: Input)
    requires OutsideIrq(s) && ServedWell(s, handler)
    ensures var o := RunTo(s, ActionsOf(Served(entry, handler, leave)));
            o.Done? && |o.s.mem| == |s.mem| && Seen(o.s) == With(Seen(s), o.s.mem)
  {
    hide Act, RunTo, Step, EnterIrq, StaysInIrq, Seen, BankOf, HandlerRestored, Masked, FlagsOfReturn, ClearBit1, Resumed;
    var e := EnterIrq(s);
    InterruptTransparent(s, handler, leave);
    HandlerConfined(e, handler);
    var u := RunTo(e, handler).s;
    RunOne(s, Irq(entry));
    RunAppends(s, [Irq(entry)], handler);
    RunAppends(s, [Irq(entry)] + handler, [Instr(leave)]);
    RunOne(u, Instr(leave));
    ActIsStep(u, leave);
    assert CurrentBank(u) == BANK_IRQ by { BankOfIrq(u); }
    EntryIsTaken(s, entry);
    ReturnStep(u, leave);
    var v := Step(u, leave).s;
    ServedCells(s, e, u, v);
  }

  lemma ActIsStep(u: State, input: Input)
    ensures Act(u, Instr(input)) == Step(u, input)
  {
    hide Step;
  }

  lemma EntryIsTaken(s: State, input: Input)
    requires !Masked(Cpsr(s))
    ensures Act(s, Irq(input)) == Done(EnterIrq(s), INTERRUPT)
  {
    hide EnterIrq;
  }

  lemma BankOfIrq(u: State)
    requires ModeOf(u) == IRQ
    ensures CurrentBank(u) == BANK_IRQ
  {
  }

  /** Every cell that can be seen is back: the handler could not reach it, or has restored it. */
  lemma ServedCells(s: State, e: State, u: State, v: State)
    requires e == EnterIrq(s) && Confined(BANK_IRQ, e, u) && HandlerRestored(e, u)
    requires v.mem == u.mem && v.be == u.be && Pc(v) == Pc(s) && Cpsr(v) == Cpsr(s)
    requires forall c :: 0 <= c < 37 && c != 30 && c != 31 ==> v.cells[c] == u.cells[c]
    ensures |v.mem| == |s.mem| && Seen(v) == With(Seen(s), v.mem)
  {
    hide Seen;
    EntryState(s);
    hide EnterIrq, HandlerRestored, ClearBit1, Add;
    forall c | 0 <= c < 37 && !Hidden(c) && c != 30 && c != 31 ensures v.cells[c] == s.cells[c] {
      if !Private(c, BANK_IRQ) {
        var r: Reg :| r != SPSR && Cell(r, BANK_IRQ) == c;
        IrqRegister(r);
        RestoredAt(e, u, r);
      }
    }
    SameSeen(v, With(s, v.mem));
    SeenWith(s, v.mem);
  }

  lemma SeenWith(s: State, m: Bytes)
    ensures Seen(With(s, m)) == With(Seen(s), m)
  {
  }

  /** The registers IRQ mode sees that are neither hidden nor PC and CPSR are R0 to R12. */
  lemma IrqRegister(r: Reg)
    requires r != SPSR && !Hidden(Cell(r, BANK_IRQ)) && Cell(r, BANK_IRQ) != 30 && Cell(r, BANK_IRQ) != 31
    ensures r < 13
  {
  }

  /** Of the interrupted run, v looks as p does in the program's run alone, but for the bytes of d. */
  ghost predicate LooksLike(v: State, p: State, d: set<int>) {
    Seen(p) == With(Seen(v), p.mem) && Alike(v.mem, p.mem, d)
  }

  ghost predicate LooksLikeOutcome(o: Outcome, o': Outcome, d: set<int>) {
    o.Done? == o'.Done? && (o.Done? ==> LooksLike(o.s, o'.s, d))
  }

  lemma {:induction false} VanishFrom(v: State, p: State, d: set<int>, es: seq<Event>)
    requires LooksLike(v, p, d) && Orderly(v, d, es)
    ensures LooksLikeOutcome(RunTo(v, AllActions(es)), RunTo(p, ProgramAlone(es)), Dirty(v, d, es))
    decreases |es|
  {
    hide Act, LooksLike, Step, BankOf, Masked, ServedWell, ActionsOf, StepClean, StepLeft, Spread;
    if es == [] {
      assert RunTo(v, []) == Done(v, 0) && RunTo(p, []) == Done(p, 0);
    } else {
      var first, rest := ActionsOf(es[0]), es[1..];
      RunAppends(v, first, AllActions(rest));
      FirstUnseen(v, p, d, es[0]);
      var mine := if es[0].Program? then [Instr(es[0].input)] else [];
      RunAppends(p, mine, ProgramAlone(rest));
      if RunTo(v, first).Done? {
        var t := RunTo(v, first).s;
        VanishFrom(t, RunTo(p, mine).s, Spread(v, d, es[0], t), rest);
      }
    }
  }

  /** One event, in two states that look alike. */
  lemma FirstUnseen(v: State, p: State, d: set<int>, e: Event)
    requires OutsideIrq(v) && LooksLike(v, p, d)
    requires e.Program? ==> StepClean(Seen(v), e.input, d)
    requires e.Masking? ==> Masked(Cpsr(v))
    requires e.Served? ==> ServedWell(v, e.handler)
    ensures var o, o' := RunTo(v, ActionsOf(e)), RunTo(p, if e.Program? then [Instr(e.input)] else []);
            o.Done? == o'.Done? && (o.Done? ==> LooksLike(o.s, o'.s, Spread(v, d, e, o.s)))
  {
    hide Seen, Step, BankOf, ServedWell, RunTo, EnterIrq, Act, StepClean, StepLeft;
    match e
    case Program(input) =>
      RunOne(v, Instr(input));
      RunOne(p, Instr(input));
      ActIsStep(v, input);
      ActIsStep(p, input);
      StepLooksLike(v, p, d, input);
    case Masking(input) =>
      RunOne(v, Irq(input));
      MaskedIsIgnored(v, input);
      RunNone(p);
    case Served(entry, handler, leave) =>
      ServedUnseen(v, entry, handler, leave);
      RunNone(p);
      assert With(With(Seen(v), RunTo(v, ActionsOf(e)).s.mem), p.mem) == With(Seen(v), p.mem);
  }

  lemma StepLooksLike(v: State, p: State, d: set<int>, input: Input)
    requires OutsideIrq(v) && LooksLike(v, p, d) && StepClean(Seen(v), input, d)
    ensures LooksLikeOutcome(Step(v, input), Step(p, input), StepLeft(Seen(v), d))
  {
    hide Seen, Step, BankOf, StepClean, StepLeft, Alike;
    var z := Seen(v);
    SeenCells(v); SeenCells(p);
    SeenTwice(v); SeenTwice(p);
    StepSeen(v, z, input);
    StepSeen(p, Seen(p), input);
    StepAlike(z, p.mem, input, d);
    var o, o' := Step(z, input), Step(Seen(p), input);
    if o.Done? {
      SeenWith(o.s, o'.s.mem);
      SeenCells(o.s); SeenCells(o'.s);
      SeenCells(Step(v, input).s); SeenCells(Step(p, input).s);
    }
  }

  lemma MaskedIsIgnored(v: State, input: Input)
    requires Masked(Cpsr(v))
    ensures Act(v, Irq(input)) == Done(v, 1)
  {
    hide EnterIrq;
  }

  lemma RunNone(p: State)
    ensures RunTo(p, []) == Done(p, 0)
  {
  }

  /**
   The run of a program with any number of interrupts, masked or served well, ends in a state
   that looks to the program like the end of its run alone: the same status, the same registers
   of every mode but for those only IRQ mode has, and the same memory but for bytes handlers have
   changed and it has not written since.  It is defined exactly when that run is.
   */
  lemma InterruptedRun(s: State, es: seq<Event>)
    requires Orderly(s, {}, es)
    ensures RunTo(s, AllActions(es)).Done? <==> RunTo(s, ProgramAlone(es)).Done?
    ensures var o, alone := RunTo(s, AllActions(es)), RunTo(s, ProgramAlone(es));
            o.Done? ==>
              && Alike(o.s.mem, alone.s.mem, Dirty(s, {}, es))
              && forall c :: 0 <= c < 37 && !Hidden(c) ==> o.s.cells[c] == alone.s.cells[c]
  {
    hide Seen, RunTo, Hidden, Dirty;
    assert With(Seen(s), s.mem) == Seen(s) by { SeenCells(s); }
    VanishFrom(s, s, {}, es);
    var o, alone := RunTo(s, AllActions(es)), RunTo(s, ProgramAlone(es));
    if o.Done? {
      SeenCells(o.s);
      SeenCells(alone.s);
      assert Seen(alone.s).cells == Seen(o.s).cells;
    }
  }

  // ---------------------------------------------------------------- handlers that give memory back

  /** Each handler leaves memory as it found it: then nothing is asked of what the program reads. */
  ghost predicate GivesBack(s: State, es: seq<Event>)
    decreases |es|
  {
    es == [] ||
    (&& OutsideIrq(s)
     && (es[0].Masking? ==> Masked(Cpsr(s)))
     && (es[0].Served? ==> ServedWell(s, es[0].handler))
     && var o := RunTo(s, ActionsOf(es[0]));
        (o.Done? ==> (es[0].Served? ==> o.s.mem == s.mem) && GivesBack(o.s, es[1..])))
  }

  lemma {:induction false} NothingDirty(s: State, es: seq<Event>)
    requires GivesBack(s, es)
    ensures Orderly(s, {}, es) && Dirty(s, {}, es) == {}
    decreases |es|
  {
    hide RunTo, Seen, BankOf, Masked, ServedWell, StepClean, StepLeft;
    if es != [] {
      if es[0].Program? { CleanOfNothing(Seen(s), es[0].input); }
      var o := RunTo(s, ActionsOf(es[0]));
      if o.Done? {
        NothingDirty(o.s, es[1..]);
        assert Spread(s, {}, es[0], o.s) == {};
      }
    }
  }

  lemma InterruptsVanish(s: State, es: seq<Event>)
    requires GivesBack(s, es)
    ensures RunTo(s, AllActions(es)).Done? <==> RunTo(s, ProgramAlone(es)).Done?
    ensures var o, alone := RunTo(s, AllActions(es)), RunTo(s, ProgramAlone(es));
            o.Done? ==>
              && o.s.mem == alone.s.mem
              && forall c :: 0 <= c < 37 && !Hidden(c) ==> o.s.cells[c] == alone.s.cells[c]
  {
    hide RunTo, Hidden, Dirty, Orderly, GivesBack;
    NothingDirty(s, es);
    InterruptedRun(s, es);
  }

  // ---------------------------------------------------------------- such handlers

  /** A framed handler serves well: its frame is all it leaves. */
  lemma FramedIsServed(s: State, i0: Input, e1: State, body: seq<Action>, u: State, i1: Input, v: State)
    requires !Masked(Cpsr(s)) && OutsideIrq(s)
    requires HandlerFrames.FramedRun(EnterIrq(s), i0, e1, body, u, i1, v) && AtReturn(v)
    requires Pc(s) % 4 < 2 && FlagsOfReturn(Cpsr(s), ClearBit1(Add(Pc(s), 4)))
    ensures ServedWell(s, HandlerFrames.WholeRun(i0, body, i1))
  {
    hide EnterIrq, HandlerFrames.FramedRun, FlagsOfReturn, ClearBit1, Masked, HandlerFrames.WholeRun, RunTo, StaysInIrq,
      HandlerRestored;
    EntryState(s);
    HandlerFrames.FrameGivesBack(EnterIrq(s), i0, e1, body, u, i1, v);
    HandlerFrames.FramedIsHandler(EnterIrq(s), i0, e1, body, u, i1, v);
  }

  /** With the return at the vector, an interrupt at a positive word address with NZCV clear is served well. */
  lemma ServedAtOnce(s: State)
    requires !Masked(Cpsr(s)) && OutsideIrq(s) && Cpsr(s) < 0x1000_0000
    requires 0 < Pc(s) < 0x7FFF_FFFC && Pc(s) % 4 == 0
    requires 0x17 < |s.mem| && WordAt(s.mem, 0x14, s.be) == RETURN
    ensures ServedWell(s, [])
  {
    hide EnterIrq, WordAt, BankOf, ClearBit1, Sub, Add;
    var e := EnterIrq(s);
    EntryState(s);
    RunNone(e);
    assert StaysInIrq(e, []);
    LinkBack(Pc(s));
    NextAddress(Pc(s));
    assert ClearBit1(Add(Pc(s), 4)) == Pc(s) + 4 by { LinkIsNext(Pc(s)); }
    NoFlags(Cpsr(s), Pc(s));
  }

  lemma NoFlags(psr: Word, pc: Word)
    requires psr < 0x1000_0000 && 0 < pc < 0x7FFF_FFFC
    ensures FlagsOfReturn(psr, pc + 4)
  {
  }

  lemma LinkIsNext(pc: Word)
    requires pc % 4 == 0 && pc < 0x8000_0000
    ensures ClearBit1(Add(pc, 4)) == pc + 4
  {
    NextAddress(pc);
  }
}
