/** The trap loop of `user_task`: enter user mode, and on a syscall trap
    call the dispatcher; any other return reason re-enters user mode with the
    context as user mode left it. The source loop never ends on its own; a
    `fuel` bound stands for "the first `fuel` entries into user mode". */
module TrapLoop {
  import opened Machine
  import opened Memory
  import opened Context
  import opened Syscall

  /** Kernel-visible state between two entries into user mode: the user
      context, user memory and the console output so far. */
  datatype State = State(ctx: UserContext, table: PageTable, out: seq<byte>)

  /** How a run of the loop ends. */
  datatype Ending =
    | Halted(trap: Trap, out: seq<byte>)                   // exit syscall
    | Panicked(kind: FaultKind, trap: Trap, out: seq<byte>) // a panic in the dispatcher
    | Running(state: State)                                 // still looping when the fuel ran out
  {
    /** The console output at the end of the run. */
    function Out(): seq<byte>
    {
      if Running? then state.out else out
    }
  }

  datatype StepResult = Next(state: State) | Stop(ending: Ending)

  /** One pass of the loop body: `execute`, then `handle_syscall` only if the
      return reason is `UserSyscall`. */
  function Step(cpu: Cpu, s: State): (r: StepResult)
    ensures var t := cpu(s.ctx, s.table);
      && (t.reason != UserSyscall ==> r == Next(State(t.ctx, t.table, s.out)))
      && (r.Stop? ==> t.reason == UserSyscall && !r.ending.Running? && r.ending.trap == t && r.ending.out == s.out)
      && (r.Stop? && r.ending.Halted? ==> t.ctx.A7() == SYS_EXIT)
      && (r.Stop? && r.ending.Panicked? ==> Dispatch(t.ctx, t.table) == Fault(r.ending.kind))
      && (r.Next? && t.reason == UserSyscall ==>
            && t.ctx.A7() == SYS_WRITE
            && BufferReadable(t.table, t.ctx.A1() as nat, t.ctx.A2() as nat)
            && r.state == State(t.ctx.SetA0(t.ctx.A2()), t.table,
                                s.out + UserBytes(t.table, t.ctx.A1() as nat, t.ctx.A2() as nat) + [LF]))
  {
    var t := cpu(s.ctx, s.table);
    if t.reason != UserSyscall then
      Next(State(t.ctx, t.table, s.out))
    else
      match Dispatch(t.ctx, t.table)
      case Continue(ctx, output) => Next(State(ctx, t.table, s.out + output))
      case Halt => Stop(Halted(t, s.out))
      case Fault(kind) => Stop(Panicked(kind, t, s.out))
  }

  /** The first `fuel` passes of the loop from state `s`. */
  function Run(cpu: Cpu, s: State, fuel: nat): Ending
    decreases fuel
  {
    if fuel == 0 then Running(s)
    else
      match Step(cpu, s)
      case Next(next) => Run(cpu, next, fuel - 1)
      case Stop(ending) => ending
  }

  /** The loop ends only through the exit syscall or a dispatcher panic, both
      on a syscall trap. */
  lemma {:induction false} RunEndsOnlyOnSyscall(cpu: Cpu, s: State, fuel: nat)
    decreases fuel
    ensures var e := Run(cpu, s, fuel);
      && (e.Halted? ==> e.trap.reason == UserSyscall && e.trap.ctx.A7() == SYS_EXIT)
      && (e.Panicked? ==> e.trap.reason == UserSyscall && Dispatch(e.trap.ctx, e.trap.table) == Fault(e.kind))
  {
    if fuel > 0 && Step(cpu, s).Next? {
      RunEndsOnlyOnSyscall(cpu, Step(cpu, s).state, fuel - 1);
    }
  }

  /** Console output is only ever appended to. */
  lemma {:induction false} RunOutputGrows(cpu: Cpu, s: State, fuel: nat)
    decreases fuel
    ensures s.out <= Run(cpu, s, fuel).Out()
  {
    if fuel > 0 && Step(cpu, s).Next? {
      var next := Step(cpu, s).state;
      RunOutputGrows(cpu, next, fuel - 1);
    }
  }

  /** Once the loop has stopped, more fuel changes nothing: a halt or a panic
      is final. */
  lemma {:induction false} RunStopIsFinal(cpu: Cpu, s: State, fuel: nat, more: nat)
    decreases fuel
    requires !Run(cpu, s, fuel).Running?
    ensures Run(cpu, s, fuel + more) == Run(cpu, s, fuel)
  {
    if Step(cpu, s).Next? {
      RunStopIsFinal(cpu, Step(cpu, s).state, fuel - 1, more);
    }
  }

  /** A program that never issues a syscall is resumed forever: the loop
      neither halts, panics nor prints, and leaves the context as user mode
      left it. */
  lemma {:induction false} RunWithoutSyscalls(cpu: Cpu, s: State, fuel: nat)
    decreases fuel
    requires forall c, pt :: cpu(c, pt).reason != UserSyscall
    ensures Run(cpu, s, fuel).Running?
    ensures Run(cpu, s, fuel).state.out == s.out
  {
    if fuel > 0 {
      RunWithoutSyscalls(cpu, Step(cpu, s).state, fuel - 1);
    }
  }

  /** `user_task()`: builds the initial context, then loops (here: at most
      `fuel` times) between user mode and the dispatcher. */
  method UserTask(cpu: Cpu, space: VmSpace, console: Console, fuel: nat) returns (e: Ending)
    modifies space, console
    ensures e == Run(cpu, State(CreateUserContext(), old(space.table), old(console.out)), fuel)
    ensures console.out == e.Out()
    ensures space.table == (match e
                              case Running(st) => st.table
                              case Halted(t, _) => t.table
                              case Panicked(_, t, _) => t.table)
  {
    var mode := new UserMode(CreateUserContext());
    ghost var start := State(mode.ctx, space.table, console.out);
    var n := 0;
    while n < fuel
      invariant 0 <= n <= fuel
      invariant Run(cpu, start, fuel) == Run(cpu, State(mode.ctx, space.table, console.out), fuel - n)
    {
      var reason := mode.Execute(cpu, space);
      if reason == UserSyscall {
        var trap := Trap(reason, mode.ctx, space.table);
        var flow := HandleSyscall(mode, space, console);
        match flow
        case Exit => return Halted(trap, console.out);
        case Panic(kind) => return Panicked(kind, trap, console.out);
        case Resume =>
      }
      n := n + 1;
    }
    return Running(State(mode.ctx, space.table, console.out));
  }
}
