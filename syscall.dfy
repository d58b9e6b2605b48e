/** The syscall dispatcher (`handle_syscall`): the number in `a7` selects
    write (64) or exit (93) of the Linux asm-generic table; any other number
    is fatal. Every `unwrap()` / `unimplemented!()` panic of the source is an
    explicit `Fault` here. */
module Syscall {
  import opened Machine
  import opened Memory
  import opened Context
  import opened Utf8

  const SYS_WRITE: u64 := 64
  const SYS_EXIT: u64 := 93

  /** The line feed `println!` appends. */
  const LF: byte := 0x0A

  /** The conditions under which the reference code panics. */
  datatype FaultKind =
    | CapacityOverflow        // `vec![0u8; buf_len]` with `buf_len > isize::MAX`
    | AccessDenied            // `vm_space.reader(..).unwrap()`
    | PageFault               // `read_fallible(..).unwrap()`
    | InvalidUtf8             // `str::from_utf8(..).unwrap()`
    | Unimplemented(num: u64) // `unimplemented!()` for an unknown number

  /** The result of handling one syscall trap. */
  datatype Outcome =
    | Continue(ctx: UserContext, output: seq<byte>)  // resume user mode with `ctx`
    | Halt                                           // `exit_qemu(QemuExitCode::Success)`
    | Fault(kind: FaultKind)                         // the kernel panics

  /** The bytes `println!("{}", text)` sends to the console. */
  function Line(text: seq<Scalar>): seq<byte>
  {
    Encode(text) + [LF]
  }

  /** The console collaborator: everything printed so far. */
  class Console {
    var out: seq<byte>

    constructor ()
      ensures out == []
    {
      out := [];
    }

    /** `println!("{}", text)`. */
    method Println(text: seq<Scalar>)
      modifies this
      ensures out == old(out) + Line(text)
    {
      out := out + Line(text);
    }
  }

  /** The user buffer of a write is `buf_len` bytes at `buf_addr`; it can be
      copied out exactly when the kernel buffer can be allocated, the reader
      accepts the range and every byte is mapped and readable. */
  predicate BufferReadable(pt: PageTable, addr: nat, len: nat)
  {
    len <= ISIZE_MAX && ReaderRangeOk(addr, len) && RangeReadable(pt, addr, len)
  }

  /** `handle_syscall` on the trapped context `ctx` with user memory `pt`. */
  function Dispatch(ctx: UserContext, pt: PageTable): (o: Outcome)
    // dispatch is decided by a7 alone
    ensures o.Halt? <==> ctx.A7() == SYS_EXIT
    ensures o == Fault(Unimplemented(ctx.A7())) <==> ctx.A7() != SYS_WRITE && ctx.A7() != SYS_EXIT
    ensures o.Continue? ==> ctx.A7() == SYS_WRITE
    // write(fd = a0, buf_addr = a1, buf_len = a2): the fault conditions, in the order the code meets them
    ensures ctx.A7() == SYS_WRITE ==>
      && (o == Fault(CapacityOverflow) <==> ctx.A2() as int > ISIZE_MAX)
      && (o == Fault(AccessDenied) <==>
            ctx.A2() as int <= ISIZE_MAX && !ReaderRangeOk(ctx.A1() as nat, ctx.A2() as nat))
      && (o == Fault(PageFault) <==>
            ctx.A2() as int <= ISIZE_MAX && ReaderRangeOk(ctx.A1() as nat, ctx.A2() as nat)
            && !RangeReadable(pt, ctx.A1() as nat, ctx.A2() as nat))
      && (o == Fault(InvalidUtf8) <==>
            BufferReadable(pt, ctx.A1() as nat, ctx.A2() as nat)
            && Decode(UserBytes(pt, ctx.A1() as nat, ctx.A2() as nat)).None?)
    // a successful write prints exactly the user bytes, then a line feed, and only a0 changes
    ensures o.Continue? ==>
      && BufferReadable(pt, ctx.A1() as nat, ctx.A2() as nat)
      && o.output == UserBytes(pt, ctx.A1() as nat, ctx.A2() as nat) + [LF]
      && o.ctx == ctx.SetA0(ctx.A2())
  {
    var num := ctx.A7();
    if num == SYS_WRITE then
      var bufAddr, bufLen := ctx.A1() as nat, ctx.A2() as nat;
      if bufLen > ISIZE_MAX then Fault(CapacityOverflow)
      else if !ReaderRangeOk(bufAddr, bufLen) then Fault(AccessDenied)
      else if !RangeReadable(pt, bufAddr, bufLen) then Fault(PageFault)
      else
        match Decode(UserBytes(pt, bufAddr, bufLen))
        case None => Fault(InvalidUtf8)
        case Some(text) => Continue(ctx.SetA0(ctx.A2()), Line(text))
    else if num == SYS_EXIT then
      Halt
    else
      Fault(Unimplemented(num))
  }

  /** A write whose buffer is readable UTF-8 succeeds: nothing else can make
      it fault. */
  lemma WriteSucceeds(ctx: UserContext, pt: PageTable)
    requires ctx.A7() == SYS_WRITE
    requires BufferReadable(pt, ctx.A1() as nat, ctx.A2() as nat)
    requires Decode(UserBytes(pt, ctx.A1() as nat, ctx.A2() as nat)).Some?
    ensures Dispatch(ctx, pt).Continue?
  {
  }

  /** Any string a program stores in readable memory is printed back byte for
      byte: writing the UTF-8 encoding of `text` succeeds and emits it. */
  lemma WriteOfText(ctx: UserContext, pt: PageTable, text: seq<Scalar>)
    requires ctx.A7() == SYS_WRITE
    requires BufferReadable(pt, ctx.A1() as nat, ctx.A2() as nat)
    requires UserBytes(pt, ctx.A1() as nat, ctx.A2() as nat) == Encode(text)
    ensures Dispatch(ctx, pt) == Continue(ctx.SetA0(ctx.A2()), Line(text))
  {
    DecodeOfEncode(text);
    WriteSucceeds(ctx, pt);
  }

  /** The file descriptor in `a0` is ignored: a write behaves the same
      whatever `a0` holds when it is issued. */
  lemma WriteIgnoresFd(ctx: UserContext, pt: PageTable, fd: u64)
    requires ctx.A7() == SYS_WRITE
    ensures Dispatch(ctx.SetA0(fd), pt) == Dispatch(ctx, pt)
  {
    var c := ctx.SetA0(fd);
    assert c.A1() == ctx.A1() && c.A2() == ctx.A2() && c.A7() == ctx.A7();
    assert c.SetA0(ctx.A2()).gprs == ctx.SetA0(ctx.A2()).gprs;
  }

  /** Flow of control after `handle_syscall`. */
  datatype Flow = Resume | Exit | Panic(kind: FaultKind)

  /** `handle_syscall(user_context, vm_space)`, step by step: the kernel
      buffer is allocated zeroed, filled through the reader, decoded, printed,
      and `a0` is set to the length. User memory is only read. */
  method HandleSyscall(mode: UserMode, space: VmSpace, console: Console) returns (flow: Flow)
    modifies mode, console
    ensures var o := Dispatch(old(mode.ctx), space.table);
      && (o.Continue? ==> flow == Resume && mode.ctx == o.ctx && console.out == old(console.out) + o.output)
      && (o.Halt? ==> flow == Exit && mode.ctx == old(mode.ctx) && console.out == old(console.out))
      && (o.Fault? ==> flow == Panic(o.kind) && mode.ctx == old(mode.ctx) && console.out == old(console.out))
  {
    var num := mode.ctx.A7();
    if num == SYS_WRITE {
      var bufAddr, bufLen := mode.ctx.A1() as nat, mode.ctx.A2() as nat;
      if bufLen > ISIZE_MAX {
        return Panic(CapacityOverflow);
      }
      var buf := new byte[bufLen](_ => 0);
      var reader := space.Reader(bufAddr, bufLen);
      if reader.None? {
        return Panic(AccessDenied);
      }
      var ok := reader.value.ReadFallible(buf);
      if !ok {
        return Panic(PageFault);
      }
      assert buf[..] == buf[..bufLen] == UserBytes(space.table, bufAddr, bufLen);
      var text := Decode(buf[..]);
      if text.None? {
        return Panic(InvalidUtf8);
      }
      console.Println(text.value);
      mode.ctx := mode.ctx.SetA0(mode.ctx.A2());
      return Resume;
    } else if num == SYS_EXIT {
      return Exit;
    } else {
      return Panic(Unimplemented(num));
    }
  }
}
