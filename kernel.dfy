/** `kernel_main`: print the banner, build the address space from the image,
    and run the user task; plus what the fixed layout promises about the
    entry point, and the end-to-end "hi" scenario. */
module Kernel {
  import opened Machine
  import opened Layout
  import opened Memory
  import opened Utf8
  import opened Loader
  import opened Context
  import opened Syscall
  import opened TrapLoop

  /** The text of the banner `kernel_main` prints before loading. */
  function Banner(): seq<Scalar>
  {
    var s := "Hello world from guest kernel!";
    seq(|s|, i requires 0 <= i < |s| => s[i] as int)
  }

  /** `kernel_main(program)`: `freeFrames` is what the allocator can hand out,
      `cpu` is the user program's behaviour, `fuel` bounds the trap loop.
      Activating the space is a per-core side effect left out here. */
  method KernelMain(program: seq<byte>, freeFrames: nat, cpu: Cpu, fuel: nat)
    returns (r: Result<Ending, BootFault>, out: seq<byte>)
    ensures r == Err(AllocationFailure) <==> PageCount(|program|) > freeFrames
    ensures r == Err(MappingViolation) <==>
      PageCount(|program|) <= freeFrames && !CursorRangeOk(MAP_ADDR, MAP_ADDR + AlignUp(|program|))
    ensures r.Err? ==> out == Line(Banner())
    ensures r.Ok? ==> r.value == Run(cpu, State(CreateUserContext(), LoadedTable(program), Line(Banner())), fuel)
    ensures r.Ok? ==> out == r.value.Out()
  {
    var console := new Console();
    console.Println(Banner());
    assert console.out == Line(Banner());
    var space := CreateVmSpace(program, freeFrames);
    if space.Err? {
      return Err(space.error), console.out;
    }
    var e := UserTask(cpu, space.value, console, fuel);
    return Ok(e), console.out;
  }

  /** The entry point lies in the first mapped page, which exists exactly when
      the image is not empty, and that page is executable. */
  lemma EntryPointMapped(program: seq<byte>)
    ensures PageBase(CreateUserContext().ip as nat) == MAP_ADDR
    ensures MAP_ADDR in LoadedTable(program) <==> |program| > 0
    ensures MAP_ADDR in LoadedTable(program) ==> LoadedTable(program)[MAP_ADDR].flags.exec
  {
    PageBaseInSegment(0x78);
    LoadedDomain(program, MAP_ADDR);
  }

  /** The first instruction fetched after entry is the image byte at offset
      0x78 when the image is that long, and a zero padding byte otherwise. */
  lemma EntryPointFetch(program: seq<byte>)
    requires |program| > 0
    ensures var ip := CreateUserContext().ip as nat;
      ReadByte(LoadedTable(program), ip) == Some(if |program| > 0x78 then program[0x78] else 0)
  {
    if |program| > 0x78 {
      LoadedBytes(program, 0x78);
    } else {
      LoadedPadding(program, 0x78);
    }
  }

  /** The string "hi\n" as bytes. */
  function HiBytes(): seq<byte>
  {
    [0x68, 0x69, 0x0A]
  }

  /** A user program whose first trap is `write(1, MAP_ADDR, 3)` and whose
      second is `exit(0)`. */
  function HiCpu(ctx: UserContext, pt: PageTable): Trap
  {
    if ctx.ip as int == ENTRY_POINT then
      var g := ctx.gprs[REG_A0 := 1][REG_A1 := MAP_ADDR as u64][REG_A2 := 3][REG_A7 := SYS_WRITE];
      Trap(UserSyscall, UserContext(g, ctx.ip + 8), pt)
    else
      var g := ctx.gprs[REG_A0 := 0][REG_A7 := SYS_EXIT];
      Trap(UserSyscall, UserContext(g, ctx.ip), pt)
  }

  /** The bytes of "hi\n" are its UTF-8 encoding. */
  lemma HiEncoded()
    ensures Encode([0x68, 0x69, 0x0A]) == HiBytes()
  {
    EncodeCons(0x68, [0x69, 0x0A]);
    EncodeCons(0x69, [0x0A]);
    EncodeCons(0x0A, []);
  }

  /** The loaded image holds the bytes of "hi\n" at `MAP_ADDR`. */
  lemma HiLoaded()
    ensures RangeReadable(LoadedTable(HiBytes()), MAP_ADDR, 3)
    ensures UserBytes(LoadedTable(HiBytes()), MAP_ADDR, 3) == HiBytes()
  {
    LoadedPrefixBytes(HiBytes(), 3);
    assert HiBytes()[..3] == HiBytes();
  }

  /** The first trap of the "hi" program prints "hi\n" and a line feed and
      resumes with `a0 = 3`. */
  lemma HiFirstStep(out: seq<byte>)
    ensures var s := Step(HiCpu, State(CreateUserContext(), LoadedTable(HiBytes()), out));
      s.Next? && s.state.ctx.ip as int == ENTRY_POINT + 8
      && s.state.out == out + HiBytes() + [LF]
  {
    var pt := LoadedTable(HiBytes());
    var t := HiCpu(CreateUserContext(), pt);
    assert t.ctx.A1() as nat == MAP_ADDR && t.ctx.A2() == 3 && t.ctx.A7() == SYS_WRITE;
    HiEncoded();
    HiLoaded();
    WriteOfText(t.ctx, pt, [0x68, 0x69, 0x0A]);
  }

  /** End to end: loading the image "hi\n" and running the program above
      appends "hi\n" and the line feed `println!` adds to whatever was printed
      before (the banner, in `KernelMain`), then halts; it does not panic. */
  lemma HiScenario(out: seq<byte>)
    ensures var e := Run(HiCpu, State(CreateUserContext(), LoadedTable(HiBytes()), out), 2);
      e.Halted? && e.out == out + HiBytes() + [LF]
  {
    var s0 := State(CreateUserContext(), LoadedTable(HiBytes()), out);
    HiFirstStep(out);
    var s1 := Step(HiCpu, s0).state;
    assert HiCpu(s1.ctx, s1.table).ctx.A7() == SYS_EXIT;
  }
}
