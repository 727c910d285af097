/**
 Running the target from gdb: single step and the run-until-stop loop of gdb_protocol.c:201-234.

 The C loop may run for ever.  Each step consumes one element of `inputs`, and the method
 gives up when they are used up; a run that stops after n steps needs n of them.
 */
module GdbRun {
  import opened Words
  import opened MemoryUnit
  import opened RegisterFile
  import opened ArmCore
  import opened Exceptions
  import opened Instruction
  import opened HexText
  import opened Packets
  import Breakpoints

  /** The n-th state of a run, with the code the n-th step returned. */
  function After(s: State, inputs: seq<Input>, n: nat): Outcome
    requires n <= |inputs|
  {
    if n == 0 then Done(s, 0)
    else match After(s, inputs, n - 1)
         case Undefined => Undefined
         case Done(t, _) => Step(t, inputs[n - 1])
  }

  /** PC is at a breakpoint, or the step raised something. */
  predicate Stops(o: Outcome, breakpoints: set<Word>) {
    o.Done? && (Pc(o.s) in breakpoints || o.code != 0)
  }

  /** Each step is defined, as long as no earlier one has stopped the run. */
  ghost predicate DefinedUntilStop(s: State, inputs: seq<Input>, breakpoints: set<Word>) {
    forall n: nat :: n <= |inputs| && (forall k: nat :: 1 <= k < n ==> !Stops(After(s, inputs, k), breakpoints))
      ==> After(s, inputs, n).Done?
  }

  /** `gdb_send_stop_reason`: S04, S0A, S0B, X05 or S05. */
  function StopReason(code: int): (t: Bytes)
    ensures NulFree(t) && |t| == 3
  {
    if code == UNDEFINED_INSTRUCTION then [83, 48, 52]
    else if code == PREFETCH_ABORT then [83, 48, 65]
    else if code == DATA_ABORT then [83, 48, 66]
    else if code == END_SIMULATION then [88, 48, 53]
    else [83, 48, 53]
  }

  /** The replies by exception. */
  lemma StopReasons(code: int)
    ensures StopReason(code) ==
            if code == 7 then Ascii("S04")
            else if code == 6 then Ascii("S0A")
            else if code == 2 then Ascii("S0B")
            else if code == 9 then Ascii("X05")
            else Ascii("S05")
  {
  }

  /** The objects of a session do not overlap. */
  ghost predicate Apart(p: Core, table: Breakpoints.Table, link: Link) {
    && (table.cells as object) !in {p as object, p.reg.data, p.mem.data, link.packet}
    && (table as object) !in {p as object, p.reg.data, p.mem.data, link.packet, link}
    && (link.packet as object) !in {p as object, p.reg.data, p.mem.data, p.reg.ptrs}
    && (link as object) !in {p as object, p.reg.data, p.mem.data}
  }

  /**
   `cont`.  If it stops after n steps, the n-th state stops and none of the states 1 to n-1
   does; otherwise no state of the run does.
   */
  method Cont(p: Core, table: Breakpoints.Table, link: Link, inputs: seq<Input>)
    returns (n: nat, stopped: bool, exception: int)
    requires p.Valid() && table.Valid() && link.packet.Length == MAX_PACKET_SIZE && Apart(p, table, link)
    requires DefinedUntilStop(p.View(), inputs, table.Addresses())
    modifies p, p.reg.data, p.mem.data, link, link.packet
    ensures p.Valid() && table.Valid() && table.Addresses() == old(table.Addresses())
    ensures n <= |inputs| && After(old(p.View()), inputs, n) == Done(p.View(), exception)
    ensures stopped ==> n >= 1 && Stops(After(old(p.View()), inputs, n), table.Addresses())
    ensures forall k: nat :: 1 <= k < n ==> !Stops(After(old(p.View()), inputs, k), table.Addresses())
    ensures !stopped ==> n == |inputs| && (n >= 1 ==> !Stops(After(old(p.View()), inputs, n), table.Addresses()))
    ensures n >= 1 ==> (stopped <==> Pc(p.View()) in table.Addresses() || exception != 0)
    ensures stopped ==> link.len == 7 && link.packet[..link.len] == Frame(StopReason(exception))
  {
    hide Step, Frame;
    ghost var s, addresses := p.View(), table.Addresses();
    n, stopped, exception := 0, false, 0;
    while !stopped && n < |inputs|
      invariant n <= |inputs| && p.Valid() && table.Valid() && table.Addresses() == addresses
      invariant After(s, inputs, n) == Done(p.View(), exception)
      invariant stopped ==> n >= 1 && Stops(After(s, inputs, n), addresses)
      invariant forall k: nat :: 1 <= k < n ==> !Stops(After(s, inputs, k), addresses)
      invariant !stopped && n >= 1 ==> !Stops(After(s, inputs, n), addresses)
      decreases |inputs| - n, !stopped
    {
      assert After(s, inputs, n + 1).Done?;
      exception := PerformStep(p, inputs[n]);
      n := n + 1;
      var m := p.reg.GetMode();
      var pc := p.reg.Read(PC, m);
      var position := table.Find(pc);
      stopped := position != -1 || exception != 0;
    }
    if stopped {
      ghost var v := p.View();
      link.SendData(StopReason(exception));
      assert p.View() == v;
    }
  }

  /** A run can be cut anywhere: continuing from its n-th state goes through the rest of it. */
  lemma {:induction false} RunSplits(s: State, inputs: seq<Input>, n: nat, k: nat)
    requires n + k <= |inputs| && After(s, inputs, n).Done?
    ensures k > 0 ==> After(After(s, inputs, n).s, inputs[n..], k) == After(s, inputs, n + k)
  {
    hide Step;
    if k > 0 {
      var t := After(s, inputs, n).s;
      assert inputs[n..][k - 1] == inputs[n + k - 1];
      if k > 1 {
        RunSplits(s, inputs, n, k - 1);
      } else {
        assert After(t, inputs[n..], 0) == Done(t, 0);
      }
    }
  }

  /**
   With more breakpoints a run stops no later, and continuing from there with the fewer ones
   stops where the run would have stopped with them alone.
   */
  lemma StopsNoLater(s: State, inputs: seq<Input>, few: set<Word>, many: set<Word>, n: nat) returns (m: nat)
    requires few <= many && 1 <= n <= |inputs| && Stops(After(s, inputs, n), few)
    requires forall k: nat :: 1 <= k < n ==> After(s, inputs, k).Done? && !Stops(After(s, inputs, k), few)
    ensures 1 <= m <= n && Stops(After(s, inputs, m), many)
    ensures forall k: nat :: 1 <= k < m ==> !Stops(After(s, inputs, k), many)
    ensures m < n ==> var t := After(s, inputs, m).s;
              && Stops(After(t, inputs[m..], n - m), few)
              && forall k: nat :: 1 <= k < n - m ==> !Stops(After(t, inputs[m..], k), few)
  {
    hide Step, After;
    m := 1;
    while !Stops(After(s, inputs, m), many)
      invariant 1 <= m <= n
      invariant forall k: nat :: 1 <= k < m ==> !Stops(After(s, inputs, k), many)
      decreases n - m
    {
      m := m + 1;
    }
    forall k: nat | 1 <= k <= n - m
      ensures After(After(s, inputs, m).s, inputs[m..], k) == After(s, inputs, m + k)
    {
      RunSplits(s, inputs, m, k);
    }
  }
}
