/** The user-mode CPU state (`UserContext`) of LoongArch64, the initial
    context the kernel builds, and ostd's `UserMode` switch into user mode,
    whose effect is supplied as a parameter. */
module Context {
  import opened Machine
  import opened Layout
  import opened Memory

  /** Number of general-purpose registers r0..r31. */
  const GPR_COUNT: nat := 32

  /** Indices of the syscall-argument registers: on LoongArch64 a0..a7 are r4..r11. */
  const REG_A0: nat := 4
  const REG_A1: nat := 5
  const REG_A2: nat := 6
  const REG_A7: nat := 11

  type GeneralRegs = s: seq<u64> | |s| == GPR_COUNT witness seq(32, _ => 0)

  /** General-purpose registers and the instruction pointer. */
  datatype UserContext = UserContext(gprs: GeneralRegs, ip: u64)
  {
    function A0(): u64 { gprs[REG_A0] }
    function A1(): u64 { gprs[REG_A1] }
    function A2(): u64 { gprs[REG_A2] }
    function A7(): u64 { gprs[REG_A7] }

    /** `set_a0(v)`: `a0` becomes `v`; every other register is kept. */
    function SetA0(v: u64): (c: UserContext)
      ensures c.A0() == v && c.ip == ip
      ensures forall i | 0 <= i < GPR_COUNT && i != REG_A0 :: c.gprs[i] == gprs[i]
    {
      this.(gprs := gprs[REG_A0 := v])
    }
  }

  /** `UserContext::default()`: every register zero. */
  function DefaultContext(): UserContext
  {
    UserContext(seq(GPR_COUNT, _ => 0), 0)
  }

  /** `create_user_context()`: the default context with the instruction
      pointer at the fixed entry point. */
  function CreateUserContext(): (ctx: UserContext)
    ensures ctx.ip as int == ENTRY_POINT
    ensures forall i | 0 <= i < GPR_COUNT :: ctx.gprs[i] == 0
    ensures ctx.A0() == 0 && ctx.A7() == 0
  {
    DefaultContext().(ip := ENTRY_POINT as u64)
  }

  /** Why control came back from user mode (ostd's `ReturnReason`). */
  datatype ReturnReason = UserSyscall | UserException | KernelEvent

  /** What user mode did between entering and returning to the kernel: the
      reason, the registers, and user memory at the trap. */
  datatype Trap = Trap(reason: ReturnReason, ctx: UserContext, table: PageTable)

  /** The behaviour of the user program on the CPU: from the registers and
      user memory at entry to the next trap. */
  type Cpu = (UserContext, PageTable) -> Trap

  /** ostd's `UserMode`: owns the user context between entries. */
  class UserMode {
    var ctx: UserContext

    /** `UserMode::new(ctx)`. */
    constructor (ctx: UserContext)
      ensures this.ctx == ctx
    {
      this.ctx := ctx;
    }

    /** `execute(|| false)`: runs the user program in `space` until the next
        trap; the context and user memory are what user mode left. */
    method Execute(cpu: Cpu, space: VmSpace) returns (reason: ReturnReason)
      modifies this, space
      ensures var t := cpu(old(ctx), old(space.table));
        reason == t.reason && ctx == t.ctx && space.table == t.table
    {
      var t := cpu(ctx, space.table);
      ctx := t.ctx;
      space.table := t.table;
      reason := t.reason;
    }
  }
}
