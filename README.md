# A 100-line kernel for LoongArch64, modelled in Dafny

This project models `my_kernel`, a minimal single-program kernel written against
the ostd framework. It loads one statically linked user image into a fresh
address space, enters user mode at a fixed entry point, and services two
syscalls: `write` (64) and `exit` (93). The kernel's own logic is modelled;
ostd's primitives are stand-ins with the contracts the kernel relies on.

- `Layout`: rounds the image length up to whole pages (`align_up`) and derives
  the frame count. It also fixes the mapping base `0x120000000` and the entry
  point `0x120000078`.
- `Memory`: ostd's `VmSpace`. A page table maps page-aligned virtual addresses
  to frames and flags. It has a mutable cursor that maps one frame per call,
  and a `VmReader` whose `ReadFallible` copies user bytes into a kernel
  buffer, page-checked byte by byte.
- `Loader`: `create_vm_space`. It allocates the segment, writes the image at
  offset 0, and maps the frames in a loop, each at the next page from the base
  with RWX permission. `LoadedTable` is its specification, and the lemmas state
  what that table contains.
- `Utf8`: `str::from_utf8` as a decoder for well-formed UTF-8 (Unicode
  Standard, chapter 3, Table 3-7), with round-trip lemmas against the encoder.
- `Context`: the LoongArch64 register file (`a0`..`a7` are `r4`..`r11`),
  `create_user_context`, and ostd's `UserMode`.
- `Syscall`: `handle_syscall`. `Dispatch` is the pure specification.
  `HandleSyscall` is the step-by-step method proved against it. Every
  `unwrap()` and `unimplemented!()` panic of the source is an explicit `Fault`.
- `TrapLoop`: the loop in `user_task`. `Run` is its specification; `UserTask`
  is the loop.
- `Kernel`: `kernel_main`, facts about the entry point, and an end-to-end
  "hi" scenario.

Modelling choices:

- The user program's behaviour on the CPU is a parameter
  `Cpu = (UserContext, PageTable) -> Trap`. Given the registers and user
  memory at entry, it yields the return reason, registers and memory at the
  next trap.
- The frame allocator is a parameter `freeFrames`.
- The console is an output log.
- `exit_qemu` is the `Halt` outcome.

## Behaviour of the code worth noting

- A return from user mode for any reason other than a syscall (a CPU exception,
  a kernel event) is not fatal: the loop re-enters user mode with the context
  user mode left (`TrapLoop.Step`, `TrapLoop.RunWithoutSyscalls`).
- `write` prints with `println!`, which appends a line feed. The kernel also
  prints a banner first. So the write in `Kernel.HiScenario` prints `hi\n`
  and then one more `\n`, after the banner line.
- Invalid write arguments, undecodable text and unknown syscall numbers all
  panic the whole kernel. They are not recoverable errors. Each is a `Fault`
  outcome whose exact condition is specified (`Syscall.Dispatch`).
- Zero padding after the image comes from the allocator handing out zeroed
  frames. The loader itself does not zero anything. The padding lemma rests on
  that allocator assumption.
- Mapping a page that is already mapped is not refused by the cursor. It
  replaces the entry (`Memory.Cursor.Map`). The loader never does this: its
  pages are distinct and each is mapped once (`Loader.LoadedPageCount`).
- A `write` whose length exceeds `isize::MAX` panics when the kernel buffer
  `vec![0u8; buf_len]` is allocated. This happens before user memory is
  consulted (`CapacityOverflow`).

## Model

| member | source | states |
|---|---|---|
| `Layout.AlignUp` | my_kernel/src/lib.rs:37 | the rounded length is a page multiple, at least the image length and less than one page above it |
| `Layout.AlignUpIsLeast` | my_kernel/src/lib.rs:37 | every page multiple covering the length is at least the rounded length, so it is the least one |
| `Layout.AlignUpIdempotent` | my_kernel/src/lib.rs:37 | rounding an already rounded length changes nothing |
| `Layout.PageCount` | my_kernel/src/lib.rs:39-41 | the number of frames requested times the page size is the rounded length; it is the ceiling of length / page size, and zero exactly for an empty image |
| `Loader.AllocSegment` | my_kernel/src/lib.rs:39-41 | allocator stand-in: succeeds exactly when enough frames are free, and returns that many zeroed pages |
| `Loader.WriteBytes` | my_kernel/src/lib.rs:44 | writing succeeds exactly when the data fits; the data lands at the offset and every other byte is kept |
| `Loader.SegmentHoldsImage` | my_kernel/src/lib.rs:39-44 | after allocation and the write at offset 0, the segment is the image followed by zero padding |
| `Loader.CreateVmSpace` | my_kernel/src/lib.rs:36-60 | fails with an allocation fault exactly when too few frames are free, and with a mapping violation exactly when the range is refused; otherwise the fresh space's table is `LoadedTable(program)` |
| `Loader.LoadedPrefixStep` | my_kernel/src/lib.rs:55-57 | each `map` in the loop extends the table by exactly the next page, holding the next frame, RWX |
| `Loader.LoadedPrefixSize` | my_kernel/src/lib.rs:55-57 | after mapping n frames the table has exactly n entries |
| `Loader.LoadedPageCount` | my_kernel/src/lib.rs:52-57 | the loaded table has exactly ⌈len / page size⌉ pages, so no page is mapped twice |
| `Loader.LoadedDomain` | my_kernel/src/lib.rs:52-57 | an address is mapped exactly when it is page-aligned and in `[0x120000000, 0x120000000 + nbytes)`; every entry is a whole page with RWX |
| `Loader.LoadedPage` | my_kernel/src/lib.rs:52-57 | page i of the segment is mapped at `0x120000000 + i * PAGE_SIZE` |
| `Loader.LoadedBytes` | my_kernel/src/lib.rs:44-57 | the byte read at `0x120000000 + k` is `program[k]` for every k below the image length |
| `Loader.LoadedPadding` | my_kernel/src/lib.rs:37-44 | between the image end and the page boundary, user memory reads zero (given zeroed frames) |
| `Loader.LoadedOutside` | my_kernel/src/lib.rs:52-57 | no address below the base or at or above the rounded end can be read |
| `Memory.ReadByte` | my_kernel/src/lib.rs:120-123 | a user byte is visible only through a mapped, readable page |
| `Memory.VmSpace.CursorMut` | my_kernel/src/lib.rs:53 | the cursor is created exactly when the range is page-aligned at both ends and lies in user space; it starts at the range's start |
| `Memory.Cursor.Map` | my_kernel/src/lib.rs:56 | the page under the cursor now maps the frame with the given flags; the cursor moves on one page |
| `Memory.VmSpace.Reader` | my_kernel/src/lib.rs:120 | a reader is created exactly when `addr + len` stays within user space |
| `Memory.VmReader.ReadFallible` | my_kernel/src/lib.rs:121-123 | succeeds exactly when every byte of the range is mapped and readable; then the buffer holds exactly those user bytes |
| `Context.UserContext.SetA0` | my_kernel/src/lib.rs:129 | `a0` takes the new value; every other register and the instruction pointer are kept |
| `Context.CreateUserContext` | my_kernel/src/lib.rs:95-103 | all registers are zero as in the default context, and the instruction pointer is `0x120000078` |
| `Context.UserMode.Execute` | my_kernel/src/lib.rs:76 | after a trap the context, user memory and return reason are those user mode left |
| `Kernel.EntryPointMapped` | my_kernel/src/lib.rs:100 | the entry point lies in the first page at the base, which is mapped executable exactly when the image is non-empty |
| `Kernel.EntryPointFetch` | my_kernel/src/lib.rs:100 | the first byte fetched at entry is image byte 0x78 (or padding for an image that short) |
| `Utf8.DecodeChar` | my_kernel/src/lib.rs:127 | an accepted UTF-8 sequence is exactly the encoding of the scalar value returned, and its length is between 1 and what is left |
| `Utf8.Decode` | my_kernel/src/lib.rs:127 | `from_utf8` succeeds only when re-encoding the decoded text gives back the input bytes |
| `Utf8.DecodeCharOfEncode` | my_kernel/src/lib.rs:127 | the encoding of any scalar value decodes back to it, whatever follows |
| `Utf8.DecodeOfEncode` | my_kernel/src/lib.rs:127 | `from_utf8` accepts the bytes of every string and returns that string |
| `Syscall.Console.Println` | my_kernel/src/lib.rs:127 | the console log grows by the text's UTF-8 bytes and a line feed |
| `Syscall.Dispatch` | my_kernel/src/lib.rs:105-134 | 93 halts, any other number besides 64 is an unimplemented fault; a write faults on capacity, range, unreadable byte or invalid UTF-8 exactly under those conditions, in that order; on success it prints exactly the user bytes plus a line feed and changes only `a0`, to `buf_len` |
| `Syscall.WriteSucceeds` | my_kernel/src/lib.rs:112-130 | a write whose buffer is readable, valid UTF-8 never faults |
| `Syscall.WriteOfText` | my_kernel/src/lib.rs:112-130 | a write of the bytes of any string resumes with `a0 = buf_len` and prints that string and a line feed |
| `Syscall.WriteIgnoresFd` | my_kernel/src/lib.rs:114 | a write's outcome does not depend on `a0` |
| `Syscall.HandleSyscall` | my_kernel/src/lib.rs:105-134 | the buffer-filling method agrees with `Dispatch`: same flow, the same new context and printed bytes, and on halt or fault nothing printed and no register changed; user memory is only read |
| `TrapLoop.Step` | my_kernel/src/lib.rs:72-86 | a non-syscall trap resumes with the context as user mode left it and prints nothing; only a syscall trap can stop the loop (exit or fault); a resumed syscall was a successful write |
| `TrapLoop.RunEndsOnlyOnSyscall` | my_kernel/src/lib.rs:72-86 | the loop halts only on a syscall trap with `a7 = 93` and panics only on a syscall trap whose dispatch faults |
| `TrapLoop.RunOutputGrows` | my_kernel/src/lib.rs:72-86 | console output is only ever appended to |
| `TrapLoop.RunStopIsFinal` | my_kernel/src/lib.rs:72-86 | once halted or panicked, running longer changes nothing |
| `TrapLoop.RunWithoutSyscalls` | my_kernel/src/lib.rs:72-86 | a program that never makes a syscall is resumed forever, without output |
| `TrapLoop.UserTask` | my_kernel/src/lib.rs:63-87 | the imperative loop starting from `create_user_context()` ends exactly as `Run` does and leaves the console with `Run`'s output and user memory with the table of `Run`'s final state |
| `Kernel.KernelMain` | my_kernel/src/lib.rs:26-34 | prints the banner, then either fails to boot under the loader's conditions or runs the task from the loaded table |
| `Kernel.HiScenario` | my_kernel/src/lib.rs:105-131 | loading "hi\n" and issuing write then exit appends "hi\n" and a line feed to the output so far, then halts without a fault |

## Left out

- ostd's frame allocator, page-table construction, TLB handling and the
  cursor's own bookkeeping are not modelled. `AllocSegment`, `Cursor.Map`,
  `VmSpace.Reader` and `VmReader.ReadFallible` are stand-ins with the
  contracts the kernel relies on.
- The page size (4 KiB) and the user-space bound (`0x8000_0000_0000` minus one
  page) are ostd's values. ostd's memory module is not part of this model.
- `vm_space.activate()` and the reader's check that its space is the active
  one are not modelled. The dispatcher assumes the space is active, as
  `kernel_main` arranges before the task runs.
- `UserMode::execute` is not modelled. The user program is the `Cpu`
  parameter. With the `|| false` callback ostd never reports a kernel event;
  the model still allows one and treats it like any non-syscall return.
- Only general registers and the instruction pointer are in the context. The
  other saved CPU state is not modelled, because the kernel never reads it.
- `Task`, `TaskOptions`, `Arc` sharing, `Task::current()` and the
  `downcast_ref` of the task payload are runtime plumbing and are not
  modelled. The space is passed directly.
- `include_bytes!` is not modelled. The image is an arbitrary byte sequence.
- `exit_qemu` is the `Halt` outcome. Console output is an in-memory log.
- `TrapLoop.UserTask`: the source loop is unbounded. The model runs at most
  `fuel` iterations and reports `Running` when the fuel runs out.
- `Layout.AlignUp`: the `usize` overflow of `align_up` is not modelled. It
  only matters for an image within a page of 2^64 bytes, and allocation fails
  long before that. The same holds for `MAP_ADDR + nbytes`.
- `Syscall.Dispatch`: running out of kernel heap while allocating the
  `buf_len`-byte buffer is not modelled. It depends on the heap's state, which
  is not visible here. Only the deterministic capacity-overflow panic is
  modelled.
- An empty image is not rejected. The model maps no pages. Whether ostd
  refuses a zero-frame allocation or an empty cursor range is not part of this
  model.
- The hardened behaviour that recovers from faults is not modelled. The model
  follows the reference code, where every fault is fatal.
